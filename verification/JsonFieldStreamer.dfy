/** Incremental extraction of one string field from streamed JSON text. */
module JsonFieldStreamer {
  import opened Wrappers

  type CodePoint = c: int | 0 <= c < 0x11_0000

  type Text = seq<CodePoint>

  const QUOTE: CodePoint := 34
  const SLASH: CodePoint := 47
  const COLON: CodePoint := 58
  const BACKSLASH: CodePoint := 92
  const SPACE: CodePoint := 32
  const LETTER_B: CodePoint := 98
  const LETTER_F: CodePoint := 102
  const LETTER_N: CodePoint := 110
  const LETTER_R: CodePoint := 114
  const LETTER_T: CodePoint := 116
  const LETTER_U: CodePoint := 117

  // ---------- Decoding the field value ----------

  /** Where the decoder stands inside the field value. */
  datatype Mode = Plain | Escaped | Unicode(digits: Text) | Closed

  /** How the host language reads four characters that are not all hexadecimal digits as a number. */
  type Leniency = Text -> Option<CodePoint>

  function HexDigit(c: CodePoint): Option<CodePoint> {
    if 48 <= c <= 57 then Some(c - 48)
    else if 65 <= c <= 70 then Some(c - 55)
    else if 97 <= c <= 102 then Some(c - 87)
    else None
  }

  predicate IsHex(digits: Text) {
    |digits| == 4 && forall i :: 0 <= i < 4 ==> HexDigit(digits[i]).Some?
  }

  function HexValue(digits: Text): CodePoint
    requires IsHex(digits)
  {
    HexDigit(digits[0]).value * 0x1000 + HexDigit(digits[1]).value * 0x100
    + HexDigit(digits[2]).value * 0x10 + HexDigit(digits[3]).value
  }

  function DecodeUnit(lenient: Leniency, digits: Text): Text {
    var value := if IsHex(digits) then Some(HexValue(digits)) else lenient(digits);
    if value.Some? then [value.value] else [BACKSLASH, LETTER_U] + digits
  }

  function Unescape(c: CodePoint): CodePoint {
    if c == LETTER_N then 10 else if c == LETTER_T then 9 else if c == LETTER_R then 13 else c
  }

  /** One character of the value: the next mode and what is emitted. */
  function Step(lenient: Leniency, mode: Mode, c: CodePoint): (Mode, Text) {
    match mode
    case Unicode(digits) =>
      if |digits| + 1 < 4 then (Unicode(digits + [c]), []) else (Plain, DecodeUnit(lenient, digits + [c]))
    case Escaped => if c == LETTER_U then (Unicode([]), []) else (Plain, [Unescape(c)])
    case Plain =>
      if c == BACKSLASH then (Escaped, []) else if c == QUOTE then (Closed, []) else (Plain, [c])
    case Closed => (Closed, [])
  }

  function Decode(lenient: Leniency, mode: Mode, text: Text): (Mode, Text)
    decreases |text|
  {
    if text == [] then (mode, [])
    else
      var (next, head) := Step(lenient, mode, text[0]);
      var (last, rest) := Decode(lenient, next, text[1..]);
      (last, head + rest)
  }

  lemma {:induction false} DecodeConcat(lenient: Leniency, mode: Mode, a: Text, b: Text)
    ensures var (middle, first) := Decode(lenient, mode, a);
      var (last, second) := Decode(lenient, middle, b);
      Decode(lenient, mode, a + b) == (last, first + second)
    decreases |a|
  {
    if a == [] {
      assert a + b == b;
      assert [] + Decode(lenient, mode, b).1 == Decode(lenient, mode, b).1;
    } else {
      hide Step;
      var (next, head) := Step(lenient, mode, a[0]);
      DecodeConcat(lenient, next, a[1..], b);
      assert (a + b)[1..] == a[1..] + b && (a + b)[0] == a[0];
      var (middle, first) := Decode(lenient, next, a[1..]);
      var (last, second) := Decode(lenient, middle, b);
      assert head + (first + second) == (head + first) + second;
    }
  }

  lemma DecodeNothing(lenient: Leniency, mode: Mode)
    ensures Decode(lenient, mode, []) == (mode, [])
  {
  }

  lemma DecodeFirst(lenient: Leniency, mode: Mode, text: Text, before: Text)
    requires text != []
    ensures var first := Step(lenient, mode, text[0]);
      var rest := Decode(lenient, first.0, text[1..]);
      var whole := Decode(lenient, mode, text);
      whole.0 == rest.0 && before + whole.1 == (before + first.1) + rest.1
  {
    hide Step;
    var first := Step(lenient, mode, text[0]);
    var rest := Decode(lenient, first.0, text[1..]);
    assert before + (first.1 + rest.1) == (before + first.1) + rest.1;
  }

  lemma {:induction false} ClosedEmitsNothing(lenient: Leniency, text: Text)
    ensures Decode(lenient, Closed, text) == (Closed, [])
  {
    if text != [] {
      ClosedEmitsNothing(lenient, text[1..]);
    }
  }

  // ---------- Finding the marker ----------

  function SpacedMarker(field: Text): Text {
    [QUOTE] + field + [QUOTE, COLON, SPACE, QUOTE]
  }

  function UnspacedMarker(field: Text): Text {
    [QUOTE] + field + [QUOTE, COLON, QUOTE]
  }

  predicate OccursAt(text: Text, pattern: Text, i: nat) {
    i + |pattern| <= |text| && text[i..i + |pattern|] == pattern
  }

  function FindFrom(text: Text, pattern: Text, i: nat): (r: Option<nat>)
    ensures r.Some? ==> OccursAt(text, pattern, r.value) && i <= r.value
    ensures r.Some? ==> forall j :: i <= j < r.value ==> !OccursAt(text, pattern, j)
    ensures r.None? ==> forall j :: i <= j ==> !OccursAt(text, pattern, j)
    decreases |text| - i
  {
    if i + |pattern| > |text| then None
    else if OccursAt(text, pattern, i) then Some(i)
    else FindFrom(text, pattern, i + 1)
  }

  /** The first index at which the pattern occurs. */
  function Find(text: Text, pattern: Text): (r: Option<nat>) {
    FindFrom(text, pattern, 0)
  }

  /** Where the field value begins in a text scanned as a whole: after the first spaced marker if
      there is one, otherwise after the first unspaced one. */
  function Located(spaced: Text, unspaced: Text, text: Text): (start: Option<nat>)
    ensures start.Some? ==> start.value <= |text|
  {
    var i, j := Find(text, spaced), Find(text, unspaced);
    if i.Some? then Some(i.value + |spaced|)
    else if j.Some? then Some(j.value + |unspaced|)
    else None
  }

  // ---------- Feeding chunks ----------

  datatype State = Seeking(tail: Text) | Reading(mode: Mode)

  /** At most the last keep characters. */
  function Trim(text: Text, keep: nat): Text {
    if |text| > keep then text[|text| - keep..] else text
  }

  function Keep(spaced: Text): nat {
    |spaced| + 5
  }

  function FeedOne(lenient: Leniency, spaced: Text, unspaced: Text, state: State, chunk: Text): (State, Text) {
    match state
    case Reading(mode) =>
      var (next, out) := Decode(lenient, mode, chunk);
      (Reading(next), out)
    case Seeking(tail) =>
      if chunk == [] then (state, [])
      else
        var start := Located(spaced, unspaced, tail + chunk);
        if start.None? then (Seeking(Trim(tail + chunk, Keep(spaced))), [])
        else
          var (next, out) := Decode(lenient, Plain, (tail + chunk)[start.value..]);
          (Reading(next), out)
  }

  function FeedAll(lenient: Leniency, spaced: Text, unspaced: Text, state: State, chunks: seq<Text>): (State, Text)
    decreases |chunks|
  {
    if chunks == [] then (state, [])
    else
      var (next, head) := FeedOne(lenient, spaced, unspaced, state, chunks[0]);
      var (last, rest) := FeedAll(lenient, spaced, unspaced, next, chunks[1..]);
      (last, head + rest)
  }

  function Joined(chunks: seq<Text>): Text {
    if chunks == [] then [] else chunks[0] + Joined(chunks[1..])
  }

  lemma JoinedOne(text: Text)
    ensures Joined([text]) == text
  {
    var one: seq<Text> := [text];
    assert one[1..] == [];
  }

  /** Where the value begins for a chunked text: the scan is repeated after every chunk. */
  function LocatedBy(spaced: Text, unspaced: Text, prefix: Text, chunks: seq<Text>): Option<nat>
    decreases |chunks|
  {
    if chunks == [] then None
    else
      var text := prefix + chunks[0];
      var start := Located(spaced, unspaced, text);
      if start.Some? then start else LocatedBy(spaced, unspaced, text, chunks[1..])
  }

  lemma {:induction false} ReadingDecodes(lenient: Leniency, spaced: Text, unspaced: Text, mode: Mode,
                                          chunks: seq<Text>)
    ensures var (last, out) := Decode(lenient, mode, Joined(chunks));
      FeedAll(lenient, spaced, unspaced, Reading(mode), chunks) == (Reading(last), out)
    decreases |chunks|
  {
    if chunks != [] {
      var (next, head) := Decode(lenient, mode, chunks[0]);
      ReadingDecodes(lenient, spaced, unspaced, next, chunks[1..]);
      DecodeConcat(lenient, mode, chunks[0], Joined(chunks[1..]));
    }
  }

  // ---------- The trimmed buffer loses nothing ----------

  /** An occurrence in the whole text that was not there before the last chunk lies inside the
      trimmed buffer, and the buffer has no others. */
  lemma TrimKeepsOccurrence(prefix: Text, chunk: Text, keep: nat, pattern: Text, i: nat)
    requires pattern != [] && |pattern| <= keep
    requires forall j :: !OccursAt(prefix, pattern, j)
    ensures var cut := |prefix| - |Trim(prefix, keep)|;
      OccursAt(prefix + chunk, pattern, i) <==> i >= cut && OccursAt(Trim(prefix, keep) + chunk, pattern, i - cut)
  {
    var tail := Trim(prefix, keep);
    var cut := |prefix| - |tail|;
    assert prefix + chunk == prefix[..cut] + (tail + chunk);
    if i >= cut && i + |pattern| <= |prefix + chunk| {
      assert (prefix + chunk)[i..i + |pattern|] == (tail + chunk)[i - cut..i - cut + |pattern|];
    } else if i < cut && OccursAt(prefix + chunk, pattern, i) {
      assert (prefix + chunk)[i..i + |pattern|] == prefix[i..i + |pattern|];
      assert OccursAt(prefix, pattern, i);
    }
  }

  lemma TrimKeepsFind(prefix: Text, chunk: Text, keep: nat, pattern: Text)
    requires pattern != [] && |pattern| <= keep
    requires forall j :: !OccursAt(prefix, pattern, j)
    ensures var cut := |prefix| - |Trim(prefix, keep)|;
      var whole, part := Find(prefix + chunk, pattern), Find(Trim(prefix, keep) + chunk, pattern);
      (whole.Some? <==> part.Some?) && (whole.Some? ==> whole.value == part.value + cut)
  {
    var cut := |prefix| - |Trim(prefix, keep)|;
    var whole, part := Find(prefix + chunk, pattern), Find(Trim(prefix, keep) + chunk, pattern);
    if whole.Some? {
      TrimKeepsOccurrence(prefix, chunk, keep, pattern, whole.value);
    }
    if part.Some? {
      TrimKeepsOccurrence(prefix, chunk, keep, pattern, part.value + cut);
    }
  }

  ghost predicate AreMarkers(spaced: Text, unspaced: Text) {
    unspaced != [] && |spaced| == |unspaced| + 1
  }

  ghost predicate NoMarker(spaced: Text, unspaced: Text, text: Text) {
    Located(spaced, unspaced, text).None?
  }

  lemma NoMarkerOccurs(spaced: Text, unspaced: Text, text: Text)
    requires NoMarker(spaced, unspaced, text)
    ensures forall j :: !OccursAt(text, spaced, j) && !OccursAt(text, unspaced, j)
  {
  }

  lemma TrimKeepsLocated(spaced: Text, unspaced: Text, prefix: Text, chunk: Text)
    requires AreMarkers(spaced, unspaced) && NoMarker(spaced, unspaced, prefix)
    ensures var tail := Trim(prefix, Keep(spaced));
      var whole, part := Located(spaced, unspaced, prefix + chunk), Located(spaced, unspaced, tail + chunk);
      && (whole.Some? <==> part.Some?)
      && (whole.Some? ==> part.value <= |tail + chunk| && whole.value <= |prefix + chunk|
                          && (tail + chunk)[part.value..] == (prefix + chunk)[whole.value..])
      && (whole.None? ==> Trim(tail + chunk, Keep(spaced)) == Trim(prefix + chunk, Keep(spaced)))
  {
    hide Find;
    var tail := Trim(prefix, Keep(spaced));
    NoMarkerOccurs(spaced, unspaced, prefix);
    TrimKeepsFind(prefix, chunk, Keep(spaced), spaced);
    TrimKeepsFind(prefix, chunk, Keep(spaced), unspaced);
    var cut := |prefix| - |tail|;
    assert prefix + chunk == prefix[..cut] + (tail + chunk);
  }

  /** The state and output owed for a text whose value has been located at the given start, if at all. */
  function Owed(lenient: Leniency, spaced: Text, text: Text, start: Option<nat>): (State, Text)
    requires start.Some? ==> start.value <= |text|
  {
    if start.None? then (Seeking(Trim(text, Keep(spaced))), [])
    else (Reading(Decode(lenient, Plain, text[start.value..]).0), Decode(lenient, Plain, text[start.value..]).1)
  }

  lemma FirstFeed(lenient: Leniency, spaced: Text, unspaced: Text, prefix: Text, chunk: Text)
    requires AreMarkers(spaced, unspaced) && NoMarker(spaced, unspaced, prefix)
    ensures var start := Located(spaced, unspaced, prefix + chunk);
      && (start.Some? ==> start.value <= |prefix + chunk|)
      && FeedOne(lenient, spaced, unspaced, Seeking(Trim(prefix, Keep(spaced))), chunk)
         == Owed(lenient, spaced, prefix + chunk, start)
  {
    TrimKeepsLocated(spaced, unspaced, prefix, chunk);
    hide Located, Decode;
    if chunk == [] {
      assert prefix + chunk == prefix;
    }
  }

  lemma LaterFeeds(lenient: Leniency, spaced: Text, unspaced: Text, text: Text, start: nat, chunks: seq<Text>)
    requires start <= |text|
    ensures var (state, head) := Owed(lenient, spaced, text, Some(start));
      var (last, rest) := FeedAll(lenient, spaced, unspaced, state, chunks);
      (last, head + rest) == Owed(lenient, spaced, text + Joined(chunks), Some(start))
  {
    var (next, head) := Decode(lenient, Plain, text[start..]);
    ReadingDecodes(lenient, spaced, unspaced, next, chunks);
    DecodeConcat(lenient, Plain, text[start..], Joined(chunks));
    assert (text + Joined(chunks))[start..] == text[start..] + Joined(chunks);
  }

  /** The streamer emits exactly the decoded remainder of the text after the located start. */
  lemma {:induction false} FeedsDecodeTheRest(lenient: Leniency, spaced: Text, unspaced: Text, prefix: Text,
                                              chunks: seq<Text>)
    requires AreMarkers(spaced, unspaced) && NoMarker(spaced, unspaced, prefix)
    ensures var start := LocatedBy(spaced, unspaced, prefix, chunks);
      && (start.Some? ==> start.value <= |prefix + Joined(chunks)|)
      && FeedAll(lenient, spaced, unspaced, Seeking(Trim(prefix, Keep(spaced))), chunks)
         == Owed(lenient, spaced, prefix + Joined(chunks), start)
    decreases |chunks|
  {
    if chunks == [] {
      assert prefix + Joined(chunks) == prefix;
    } else {
      var text := prefix + chunks[0];
      var start := Located(spaced, unspaced, text);
      assert prefix + Joined(chunks) == text + Joined(chunks[1..]);
      FirstFeed(lenient, spaced, unspaced, prefix, chunks[0]);
      hide Located, Decode, FeedOne;
      if start.None? {
        FeedsDecodeTheRest(lenient, spaced, unspaced, text, chunks[1..]);
        var rest := FeedAll(lenient, spaced, unspaced, Seeking(Trim(text, Keep(spaced))), chunks[1..]);
        assert [] + rest.1 == rest.1;
      } else {
        LaterFeeds(lenient, spaced, unspaced, text, start.value, chunks[1..]);
      }
    }
  }

  // ---------- Chunk invariance ----------

  /** A spaced marker exists, but an unspaced one is complete before the first spaced one is. */
  predicate UnspacedFirst(spaced: Text, unspaced: Text, text: Text) {
    var i, j := Find(text, spaced), Find(text, unspaced);
    i.Some? && j.Some? && j.value + |unspaced| < i.value + |spaced|
  }

  lemma FindInPrefix(text: Text, p: nat, pattern: Text)
    requires pattern != [] && p <= |text|
    ensures var whole, part := Find(text, pattern), Find(text[..p], pattern);
      && (part.Some? <==> whole.Some? && whole.value + |pattern| <= p)
      && (part.Some? ==> part == whole)
  {
    var whole, part := Find(text, pattern), Find(text[..p], pattern);
    forall i: nat | i + |pattern| <= p
      ensures OccursAt(text, pattern, i) <==> OccursAt(text[..p], pattern, i)
    {
      assert text[..p][i..i + |pattern|] == text[i..i + |pattern|];
    }
  }

  /** Where the value begins after the first occurrence of a marker. */
  function After(text: Text, marker: Text): (start: nat)
    requires Find(text, marker).Some?
    ensures start <= |text|
  {
    Find(text, marker).value + |marker|
  }

  /** A chunking locates the value where the whole text does, or else, if an unspaced marker is complete
      first, behind that one. */
  lemma {:induction false} LocatedByIsOneOfTwo(spaced: Text, unspaced: Text, prefix: Text, chunks: seq<Text>)
    requires AreMarkers(spaced, unspaced) && NoMarker(spaced, unspaced, prefix)
    ensures var whole := prefix + Joined(chunks);
      || LocatedBy(spaced, unspaced, prefix, chunks) == Located(spaced, unspaced, whole)
      || (UnspacedFirst(spaced, unspaced, whole)
          && LocatedBy(spaced, unspaced, prefix, chunks) == Some(After(whole, unspaced)))
    decreases |chunks|
  {
    hide Located, UnspacedFirst, After, Find;
    if chunks == [] {
      assert prefix + Joined(chunks) == prefix;
    } else {
      var text := prefix + chunks[0];
      assert prefix + Joined(chunks) == text + Joined(chunks[1..]);
      if Located(spaced, unspaced, text).None? {
        LocatedByIsOneOfTwo(spaced, unspaced, text, chunks[1..]);
      } else {
        LocatedEarly(spaced, unspaced, text, Joined(chunks[1..]));
      }
    }
  }

  /** What is found in a beginning of the text is found in the text, unless it is an unspaced marker that
      comes first. */
  lemma LocatedEarly(spaced: Text, unspaced: Text, text: Text, more: Text)
    requires AreMarkers(spaced, unspaced) && Located(spaced, unspaced, text).Some?
    ensures var whole := text + more;
      || Located(spaced, unspaced, text) == Located(spaced, unspaced, whole)
      || (UnspacedFirst(spaced, unspaced, whole) && Located(spaced, unspaced, text) == Some(After(whole, unspaced)))
  {
    hide Find;
    var whole := text + more;
    assert whole[..|text|] == text;
    FindInPrefix(whole, |text|, spaced);
    FindInPrefix(whole, |text|, unspaced);
  }

  lemma PrefixIsLocated(spaced: Text, unspaced: Text, text: Text)
    requires AreMarkers(spaced, unspaced) && UnspacedFirst(spaced, unspaced, text)
    ensures Located(spaced, unspaced, text[..After(text, unspaced)]) == Some(After(text, unspaced))
  {
    hide Find;
    FindInPrefix(text, After(text, unspaced), spaced);
    FindInPrefix(text, After(text, unspaced), unspaced);
  }

  /** Cutting the text behind the unspaced marker makes the value begin there. */
  lemma SplitAfterUnspaced(spaced: Text, unspaced: Text, text: Text)
    requires AreMarkers(spaced, unspaced) && UnspacedFirst(spaced, unspaced, text)
    ensures var p := After(text, unspaced);
      Joined([text[..p], text[p..]]) == text && LocatedBy(spaced, unspaced, [], [text[..p], text[p..]]) == Some(p)
  {
    var p := After(text, unspaced);
    hide Located, After, UnspacedFirst, Find;
    PrefixIsLocated(spaced, unspaced, text);
    assert [text[..p], text[p..]][1..] == [text[p..]];
    JoinedOne(text[p..]);
    assert [] + text[..p] == text[..p];
  }

  lemma FeedIsOwed(lenient: Leniency, spaced: Text, unspaced: Text, chunks: seq<Text>)
    requires AreMarkers(spaced, unspaced)
    ensures var start := LocatedBy(spaced, unspaced, [], chunks);
      && (start.Some? ==> start.value <= |Joined(chunks)|)
      && FeedAll(lenient, spaced, unspaced, Seeking([]), chunks) == Owed(lenient, spaced, Joined(chunks), start)
  {
    assert [] + Joined(chunks) == Joined(chunks) && Trim([], Keep(spaced)) == [];
    FeedsDecodeTheRest(lenient, spaced, unspaced, [], chunks);
  }

  lemma WholeFeedIsOwed(lenient: Leniency, spaced: Text, unspaced: Text, text: Text)
    requires AreMarkers(spaced, unspaced)
    ensures FeedAll(lenient, spaced, unspaced, Seeking([]), [text])
         == Owed(lenient, spaced, text, Located(spaced, unspaced, text))
  {
    JoinedOne(text);
    FeedIsOwed(lenient, spaced, unspaced, [text]);
    assert [] + text == text;
    var one: seq<Text> := [text];
    assert one[1..] == [];
  }

  lemma FeedIsOneOfTwo(lenient: Leniency, spaced: Text, unspaced: Text, chunks: seq<Text>)
    requires AreMarkers(spaced, unspaced)
    ensures var text := Joined(chunks);
      var (last, out) := FeedAll(lenient, spaced, unspaced, Seeking([]), chunks);
      || (last, out) == FeedAll(lenient, spaced, unspaced, Seeking([]), [text])
      || (UnspacedFirst(spaced, unspaced, text)
          && (last, out) == Owed(lenient, spaced, text, Some(After(text, unspaced))))
  {
    hide Decode, FeedAll, LocatedBy, Owed;
    var text := Joined(chunks);
    assert [] + text == text;
    LocatedByIsOneOfTwo(spaced, unspaced, [], chunks);
    FeedIsOwed(lenient, spaced, unspaced, chunks);
    WholeFeedIsOwed(lenient, spaced, unspaced, text);
  }

  lemma OwedAlike(lenient: Leniency, spaced: Text, text: Text, i: nat, j: nat)
    requires i <= |text| && j <= |text|
    ensures Owed(lenient, spaced, text, Some(i)) == Owed(lenient, spaced, text, Some(j))
      <==> Decode(lenient, Plain, text[i..]) == Decode(lenient, Plain, text[j..])
  {
    hide Decode;
  }

  /** When an unspaced marker comes first, the whole text is read behind the spaced one and one chunking
      reads it behind the unspaced one. */
  lemma BothAreFed(lenient: Leniency, spaced: Text, unspaced: Text, text: Text)
    requires AreMarkers(spaced, unspaced) && UnspacedFirst(spaced, unspaced, text)
    ensures var p := After(text, unspaced);
      && Joined([text[..p], text[p..]]) == text
      && FeedAll(lenient, spaced, unspaced, Seeking([]), [text[..p], text[p..]]) == Owed(lenient, spaced, text, Some(p))
      && FeedAll(lenient, spaced, unspaced, Seeking([]), [text])
         == Owed(lenient, spaced, text, Some(After(text, spaced)))
  {
    hide Decode, FeedAll, LocatedBy, Owed;
    SplitAfterUnspaced(spaced, unspaced, text);
    FeedIsOwed(lenient, spaced, unspaced, [text[..After(text, unspaced)], text[After(text, unspaced)..]]);
    WholeFeedIsOwed(lenient, spaced, unspaced, text);
  }

  /** Every chunking of a text is fed alike exactly when, should an unspaced marker be complete before
      the first spaced one, the text decodes alike behind both. */
  lemma ChunkingIsImmaterialExactlyWhen(lenient: Leniency, spaced: Text, unspaced: Text, text: Text)
    requires AreMarkers(spaced, unspaced)
    ensures (forall chunks :: Joined(chunks) == text ==>
               FeedAll(lenient, spaced, unspaced, Seeking([]), chunks)
               == FeedAll(lenient, spaced, unspaced, Seeking([]), [text])) <==>
      (UnspacedFirst(spaced, unspaced, text) ==>
         Decode(lenient, Plain, text[After(text, spaced)..]) == Decode(lenient, Plain, text[After(text, unspaced)..]))
  {
    hide Decode, FeedAll, Owed, Find, Joined;
    forall chunks | Joined(chunks) == text
      ensures FeedAll(lenient, spaced, unspaced, Seeking([]), chunks)
           == FeedAll(lenient, spaced, unspaced, Seeking([]), [text])
        || (UnspacedFirst(spaced, unspaced, text)
            && FeedAll(lenient, spaced, unspaced, Seeking([]), chunks)
               == Owed(lenient, spaced, text, Some(After(text, unspaced))))
    {
      FeedIsOneOfTwo(lenient, spaced, unspaced, chunks);
    }
    if UnspacedFirst(spaced, unspaced, text) {
      BothAreFed(lenient, spaced, unspaced, text);
      OwedAlike(lenient, spaced, text, After(text, spaced), After(text, unspaced));
    }
  }

  lemma DecodeUpToQuote(lenient: Leniency, c: CodePoint, text: Text)
    requires c != QUOTE && c != BACKSLASH && |text| >= 2 && text[0] == c && text[1] == QUOTE
    ensures Decode(lenient, Plain, text) == (Closed, [c])
  {
    ClosedEmitsNothing(lenient, text[1..][1..]);
    assert Decode(lenient, Plain, text[1..]) == (Closed, []);
    assert [c] + [] == [c];
  }

  /** In this text both markers of a field "a" occur, the unspaced one first. */
  lemma BothMarkers(text: Text)
    requires text == UnspacedMarker([97]) + [120, QUOTE] + SpacedMarker([97]) + [121, QUOTE]
    ensures Find(text, UnspacedMarker([97])) == Some(0) && Find(text, SpacedMarker([97])) == Some(7)
  {
    var spaced, unspaced := SpacedMarker([97]), UnspacedMarker([97]);
    assert OccursAt(text, unspaced, 0) && OccursAt(text, spaced, 7);
    forall i: nat | i < 7
      ensures !OccursAt(text, spaced, i)
    {
      assert text[i..i + 6][4] == text[i + 4] != SPACE == spaced[4];
    }
  }

  /** Fed at once that text yields y; cut behind the first marker it yields x. */
  lemma ChunkingCanMatter(lenient: Leniency, text: Text)
    requires text == UnspacedMarker([97]) + [120, QUOTE] + SpacedMarker([97]) + [121, QUOTE]
    ensures Joined([text[..5], text[5..]]) == text
    ensures FeedAll(lenient, SpacedMarker([97]), UnspacedMarker([97]), Seeking([]), [text]) == (Reading(Closed), [121])
    ensures FeedAll(lenient, SpacedMarker([97]), UnspacedMarker([97]), Seeking([]), [text[..5], text[5..]])
         == (Reading(Closed), [120])
  {
    var spaced, unspaced := SpacedMarker([97]), UnspacedMarker([97]);
    BothMarkers(text);
    assert text[13..][0] == 121 && text[13..][1] == QUOTE && text[5..][0] == 120 && text[5..][1] == QUOTE;
    hide Find, FeedAll, LocatedBy, Joined, Decode;
    BothAreFed(lenient, spaced, unspaced, text);
    DecodeUpToQuote(lenient, 121, text[13..]);
    DecodeUpToQuote(lenient, 120, text[5..]);
  }

  /** Then the concatenated output and the final mode are those of a single feed of the whole text. */
  lemma EveryChunkingFeedsTheSame(lenient: Leniency, spaced: Text, unspaced: Text, chunks: seq<Text>)
    requires AreMarkers(spaced, unspaced) && !UnspacedFirst(spaced, unspaced, Joined(chunks))
    ensures var (last, out) := FeedAll(lenient, spaced, unspaced, Seeking([]), chunks);
      var (lastWhole, outWhole) := FeedAll(lenient, spaced, unspaced, Seeking([]), [Joined(chunks)]);
      out == outWhole && last == lastWhole
  {
    ChunkingIsImmaterialExactlyWhen(lenient, spaced, unspaced, Joined(chunks));
  }

  // ---------- The streamer object ----------

  class Streamer {
    const lenient: Leniency
    const marker: Text
    const altMarker: Text
    var buf: Text
    var pos: nat
    var found: bool
    var done: bool
    var escape: bool
    var unicodeBuf: Option<Text>

    constructor (field: Text, lenient: Leniency)
      ensures Valid() && this.lenient == lenient
      ensures marker == SpacedMarker(field) && altMarker == UnspacedMarker(field)
      ensures GetState() == Seeking([])
    {
      this.lenient := lenient;
      marker := SpacedMarker(field);
      altMarker := UnspacedMarker(field);
      buf, pos := [], 0;
      found, done, escape := false, false, false;
      unicodeBuf := None;
    }

    ghost predicate Valid()
      reads this
    {
      && AreMarkers(marker, altMarker)
      && (!found ==> pos == 0 && !done && !escape && unicodeBuf.None?)
      && (done ==> found && !escape && unicodeBuf.None?)
      && (found && !done ==> pos == |buf|)
      && (unicodeBuf.Some? ==> !escape && |unicodeBuf.value| < 4)
    }

    ghost function GetMode(): Mode
      reads this
    {
      if done then Closed else if unicodeBuf.Some? then Unicode(unicodeBuf.value) else if escape then Escaped else Plain
    }

    ghost function GetState(): State
      reads this
    {
      if found then Reading(GetMode()) else Seeking(buf)
    }

    /** Feeds one raw chunk and returns the new field content. */
    method Feed(chunk: Text) returns (result: Text)
      requires Valid()
      modifies this`buf, this`pos, this`found, this`done, this`escape, this`unicodeBuf
      ensures Valid()
      ensures (GetState(), result) == FeedOne(lenient, marker, altMarker, old(GetState()), chunk)
      ensures done <==> GetState() == Reading(Closed)
    {
      result := [];
      if done || chunk == [] {
        ClosedEmitsNothing(lenient, chunk);
        return;
      }
      ghost var state := GetState();
      buf := buf + chunk;
      if !found {
        var seen := ScanForMarker();
        if !seen {
          return;
        }
      } else {
        assert buf[pos..] == chunk;
      }
      result := DecodeRest();
    }

    /** Looks for the field marker in the buffer; trims the buffer when it is not there. */
    method ScanForMarker() returns (seen: bool)
      requires AreMarkers(marker, altMarker) && !found && pos == 0
      modifies this`buf, this`pos, this`found
      ensures seen == found == Located(marker, altMarker, old(buf)).Some?
      ensures seen ==> buf == old(buf) && pos == Located(marker, altMarker, buf).value <= |buf|
      ensures !seen ==> pos == 0 && buf == Trim(old(buf), Keep(marker))
    {
      var index := Find(buf, marker);
      if index.Some? {
        pos := index.value + |marker|;
        found := true;
        return true;
      }
      index := Find(buf, altMarker);
      if index.Some? {
        pos := index.value + |altMarker|;
        found := true;
        return true;
      }
      var keep := |marker| + 5;
      if |buf| > keep {
        buf := buf[|buf| - keep..];
        pos := 0;
      }
      return false;
    }

    /** Decodes from the current position to the end of the buffer or the closing quote. */
    method DecodeRest() returns (result: Text)
      requires found && !done && pos <= |buf| && AreMarkers(marker, altMarker)
      requires unicodeBuf.Some? ==> !escape && |unicodeBuf.value| < 4
      modifies this`pos, this`done, this`escape, this`unicodeBuf
      ensures Valid() && found
      ensures (GetMode(), result) == Decode(lenient, old(GetMode()), old(buf[pos..]))
    {
      hide Decode, Step;
      result := [];
      ghost var whole := Decode(lenient, GetMode(), buf[pos..]);
      assert [] + whole.1 == whole.1;
      while pos < |buf|
        invariant pos <= |buf| && !done
        invariant unicodeBuf.Some? ==> !escape && |unicodeBuf.value| < 4
        invariant var rest := Decode(lenient, GetMode(), buf[pos..]); whole == (rest.0, result + rest.1)
        decreases |buf| - pos
      {
        var c := buf[pos];
        DecodeFirst(lenient, GetMode(), buf[pos..], result);
        assert buf[pos..][1..] == buf[pos + 1..];
        pos := pos + 1;
        var out := Consume(c);
        result := result + out;
        if done {
          ClosedEmitsNothing(lenient, buf[pos..]);
          assert result + [] == result;
          return;
        }
      }
      assert buf[pos..] == [] && result + [] == result;
      DecodeNothing(lenient, GetMode());
    }

    /** One character: at most one of the three pending conditions decides what it means. */
    method Consume(c: CodePoint) returns (out: Text)
      requires !done && (unicodeBuf.Some? ==> !escape && |unicodeBuf.value| < 4)
      modifies this`done, this`escape, this`unicodeBuf
      ensures (GetMode(), out) == Step(lenient, old(GetMode()), c)
      ensures unicodeBuf.Some? ==> !escape && |unicodeBuf.value| < 4
      ensures done ==> !escape && unicodeBuf.None?
    {
      out := [];
      if unicodeBuf.Some? {
        out := FeedUnicodeDigit(c);
      } else if escape {
        if c == LETTER_U {
          unicodeBuf := Some([]);
        } else {
          out := [Unescape(c)];
        }
        escape := false;
      } else if c == BACKSLASH {
        escape := true;
      } else if c == QUOTE {
        done := true;
      } else {
        out := [c];
      }
    }

    method FeedUnicodeDigit(c: CodePoint) returns (out: Text)
      requires unicodeBuf.Some? && |unicodeBuf.value| < 4 && !escape && !done
      modifies this`unicodeBuf
      ensures (GetMode(), out) == Step(lenient, old(GetMode()), c)
      ensures unicodeBuf.Some? ==> |unicodeBuf.value| < 4
    {
      var digits := unicodeBuf.value + [c];
      if |digits| < 4 {
        unicodeBuf := Some(digits);
        return [];
      }
      unicodeBuf := None;
      return DecodeUnit(lenient, digits);
    }
  }
}
