/** JSON string escapes as section 7 of RFC 8259 writes them, against what the streamer decodes. */
module JsonEscapes {
  import opened Wrappers
  import opened JsonFieldStreamer

  /** One written form of a character inside a JSON string: the character itself, a two-character
      escape, a four-digit escape, or two four-digit escapes that form a surrogate pair. Each hexadecimal
      digit may be written in either case. */
  datatype Token =
    | Raw(c: CodePoint)
    | Short(letter: CodePoint)
    | Unit(c: CodePoint, upper: seq<bool>)
    | Pair(c: CodePoint, upper: seq<bool>)

  const LOWER_DIGITS := "0123456789abcdef"
  const UPPER_DIGITS := "0123456789ABCDEF"

  function DigitOf(d: nat, upper: bool): CodePoint
    requires d < 16
  {
    (if upper then UPPER_DIGITS[d] else LOWER_DIGITS[d]) as int
  }

  /** The four base-16 digits of a number. */
  function Digits4(n: nat, upper: seq<bool>): Text
    requires n < 0x10000 && |upper| == 4
  {
    [DigitOf(n / 0x1000, upper[0]), DigitOf(n / 0x100 % 16, upper[1]),
     DigitOf(n / 0x10 % 16, upper[2]), DigitOf(n % 16, upper[3])]
  }

  /** The codes of a text written out. */
  function Codes(s: string): Text {
    seq(|s|, i requires 0 <= i < |s| => s[i] as int)
  }

  /** The markers are the field name in quotes, a colon, at most one space and the opening quote. */
  lemma MarkersAre(field: Text)
    ensures SpacedMarker(field) == Codes("\"") + field + Codes("\": \"")
    ensures UnspacedMarker(field) == Codes("\"") + field + Codes("\":\"")
    ensures [BACKSLASH, SLASH, LETTER_B, LETTER_F, LETTER_N, LETTER_R, LETTER_T, LETTER_U] == Codes("\\/bfnrtu")
  {
    assert "\""[0] == '"';
    var spaced, unspaced, letters := "\": \"", "\":\"", "\\/bfnrtu";
    assert spaced[0] == '"' && spaced[1] == ':' && spaced[2] == ' ' && spaced[3] == '"';
    assert unspaced[0] == '"' && unspaced[1] == ':' && unspaced[2] == '"';
    assert letters[0] == '\\' && letters[1] == '/' && letters[2] == 'b' && letters[3] == 'f';
    assert letters[4] == 'n' && letters[5] == 'r' && letters[6] == 't' && letters[7] == 'u';
  }

  /** The decoder's digits are the sixteen of either case, with their values. */
  lemma HexDigitIs(c: CodePoint, d: nat)
    requires d < 16
    ensures HexDigit(c) == Some(d) <==> c == LOWER_DIGITS[d] as int || c == UPPER_DIGITS[d] as int
  {
    DigitCodes(d);
  }

  lemma DigitCodes(d: nat)
    requires d < 16
    ensures LOWER_DIGITS[d] as int == if d < 10 then 48 + d else 87 + d
    ensures UPPER_DIGITS[d] as int == if d < 10 then 48 + d else 55 + d
  {
    var low, up := LOWER_DIGITS, UPPER_DIGITS;
    assert low[0] == '0' && low[1] == '1' && low[2] == '2' && low[3] == '3' && low[4] == '4' && low[5] == '5';
    assert low[6] == '6' && low[7] == '7' && low[8] == '8' && low[9] == '9' && low[10] == 'a' && low[11] == 'b';
    assert low[12] == 'c' && low[13] == 'd' && low[14] == 'e' && low[15] == 'f';
    assert up[0] == '0' && up[1] == '1' && up[2] == '2' && up[3] == '3' && up[4] == '4' && up[5] == '5';
    assert up[6] == '6' && up[7] == '7' && up[8] == '8' && up[9] == '9' && up[10] == 'A' && up[11] == 'B';
    assert up[12] == 'C' && up[13] == 'D' && up[14] == 'E' && up[15] == 'F';
  }

  /** The decoder reads the digits of a number, in either case, as that number. */
  lemma HexValueOfDigits(n: nat, upper: seq<bool>)
    requires n < 0x10000 && |upper| == 4
    ensures IsHex(Digits4(n, upper)) && HexValue(Digits4(n, upper)) == n
  {
    DigitIsRead(n / 0x1000, upper[0]);
    DigitIsRead(n / 0x100 % 16, upper[1]);
    DigitIsRead(n / 0x10 % 16, upper[2]);
    DigitIsRead(n % 16, upper[3]);
    hide HexDigit, DigitOf, HexValue, IsHex;
    FourDigits(Digits4(n, upper), n / 0x1000, n / 0x100 % 16, n / 0x10 % 16, n % 16);
    Base16(n);
  }

  lemma FourDigits(digits: Text, a: nat, b: nat, c: nat, d: nat)
    requires |digits| == 4 && HexDigit(digits[0]) == Some(a) && HexDigit(digits[1]) == Some(b)
    requires HexDigit(digits[2]) == Some(c) && HexDigit(digits[3]) == Some(d)
    ensures IsHex(digits) && HexValue(digits) == a * 0x1000 + b * 0x100 + c * 0x10 + d
  {
    hide HexDigit;
  }

  lemma Base16(n: nat)
    ensures n == n / 0x1000 * 0x1000 + n / 0x100 % 16 * 0x100 + n / 0x10 % 16 * 0x10 + n % 16
  {
    assert n == n / 0x10 * 0x10 + n % 16;
    assert n / 0x10 == n / 0x100 * 0x10 + n / 0x10 % 16;
    assert n / 0x100 == n / 0x1000 * 0x10 + n / 0x100 % 16;
  }

  lemma DigitIsRead(d: nat, upper: bool)
    requires d < 16
    ensures HexDigit(DigitOf(d, upper)) == Some(d)
  {
    HexDigitIs(DigitOf(d, upper), d);
  }

  const SHORT_LETTERS := [QUOTE, BACKSLASH, SLASH, LETTER_B, LETTER_F, LETTER_N, LETTER_R, LETTER_T]

  predicate IsToken(t: Token) {
    match t
    case Raw(c) => c >= 0x20 && c != QUOTE && c != BACKSLASH
    case Short(letter) => letter in SHORT_LETTERS
    case Unit(c, upper) => c < 0x10000 && !(0xD800 <= c < 0xE000) && |upper| == 4
    case Pair(c, upper) => c >= 0x10000 && |upper| == 8
  }

  /** The surrogates of a character beyond the first plane. */
  function High(c: CodePoint): CodePoint
    requires c >= 0x10000
  {
    0xD800 + (c - 0x10000) / 0x400
  }

  function Low(c: CodePoint): CodePoint
    requires c >= 0x10000
  {
    0xDC00 + (c - 0x10000) % 0x400
  }

  /** The characters in which the token is written. */
  function Written(t: Token): Text
    requires IsToken(t)
  {
    match t
    case Raw(c) => [c]
    case Short(letter) => [BACKSLASH, letter]
    case Unit(c, upper) => [BACKSLASH, LETTER_U] + Digits4(c, upper)
    case Pair(c, upper) =>
      [BACKSLASH, LETTER_U] + Digits4(High(c), upper[..4]) + [BACKSLASH, LETTER_U] + Digits4(Low(c), upper[4..])
  }

  /** The character that the token stands for. */
  function Meaning(t: Token): CodePoint
    requires IsToken(t)
  {
    match t
    case Raw(c) => c
    case Short(letter) =>
      if letter == LETTER_B then 8
      else if letter == LETTER_F then 12
      else if letter == LETTER_N then 10
      else if letter == LETTER_R then 13
      else if letter == LETTER_T then 9
      else letter
    case Unit(c, _) => c
    case Pair(c, _) => c
  }

  function WrittenAll(ts: seq<Token>): Text
    requires forall t :: t in ts ==> IsToken(t)
  {
    if ts == [] then [] else Written(ts[0]) + WrittenAll(ts[1..])
  }

  function MeaningAll(ts: seq<Token>): Text
    requires forall t :: t in ts ==> IsToken(t)
  {
    if ts == [] then [] else [Meaning(ts[0])] + MeaningAll(ts[1..])
  }

  /** What the streamer makes of one token. */
  function Streamed(t: Token): Text
    requires IsToken(t)
  {
    match t
    case Raw(c) => [c]
    case Short(letter) => [Unescape(letter)]
    case Unit(c, _) => [c]
    case Pair(c, _) => [High(c), Low(c)]
  }

  function StreamedAll(ts: seq<Token>): Text
    requires forall t :: t in ts ==> IsToken(t)
  {
    if ts == [] then [] else Streamed(ts[0]) + StreamedAll(ts[1..])
  }

  lemma DecodeOne(lenient: Leniency, mode: Mode, c: CodePoint)
    ensures Decode(lenient, mode, [c]) == Step(lenient, mode, c)
  {
    assert [c][1..] == [];
    assert Step(lenient, mode, c).1 + [] == Step(lenient, mode, c).1;
  }

  lemma DecodeTwo(lenient: Leniency, mode: Mode, a: CodePoint, b: CodePoint)
    ensures var first := Step(lenient, mode, a);
      var second := Step(lenient, first.0, b);
      Decode(lenient, mode, [a, b]) == (second.0, first.1 + second.1)
  {
    DecodeOne(lenient, mode, a);
    DecodeOne(lenient, Step(lenient, mode, a).0, b);
    DecodeConcat(lenient, mode, [a], [b]);
    assert [a] + [b] == [a, b];
  }

  lemma DecodeDigits(lenient: Leniency, digits: Text)
    requires IsHex(digits)
    ensures Decode(lenient, Unicode([]), digits) == (Plain, [HexValue(digits)])
  {
    var a, b, c, d := digits[0], digits[1], digits[2], digits[3];
    DecodeTwo(lenient, Unicode([]), a, b);
    assert [] + [a] == [a] && [a] + [b] == [a, b];
    DecodeTwo(lenient, Unicode([a, b]), c, d);
    assert [a, b] + [c] == [a, b, c] && [a, b, c] + [d] == digits;
    DecodeConcat(lenient, Unicode([]), [a, b], [c, d]);
    assert [a, b] + [c, d] == digits;
    var none: Text := [];
    assert none + none + (none + [HexValue(digits)]) == [HexValue(digits)];
  }

  lemma DecodeEscapedUnit(lenient: Leniency, digits: Text)
    requires IsHex(digits)
    ensures Decode(lenient, Plain, [BACKSLASH, LETTER_U] + digits) == (Plain, [HexValue(digits)])
  {
    DecodeTwo(lenient, Plain, BACKSLASH, LETTER_U);
    DecodeDigits(lenient, digits);
    DecodeConcat(lenient, Plain, [BACKSLASH, LETTER_U], digits);
    var none: Text := [];
    assert none + none + [HexValue(digits)] == [HexValue(digits)];
  }

  lemma DecodeToken(lenient: Leniency, t: Token)
    requires IsToken(t)
    ensures Decode(lenient, Plain, Written(t)) == (Plain, Streamed(t))
  {
    match t {
      case Raw(c) => DecodeOne(lenient, Plain, c);
      case Short(letter) =>
        DecodeTwo(lenient, Plain, BACKSLASH, letter);
        var none: Text := [];
        assert none + [Unescape(letter)] == [Unescape(letter)];
      case Unit(c, upper) =>
        HexValueOfDigits(c, upper);
        DecodeEscapedUnit(lenient, Digits4(c, upper));
      case Pair(c, upper) =>
        hide HexValue, IsHex, Digits4, High, Low;
        var high, low := Digits4(High(c), upper[..4]), Digits4(Low(c), upper[4..]);
        HexValueOfDigits(High(c), upper[..4]);
        HexValueOfDigits(Low(c), upper[4..]);
        var first, second := [BACKSLASH, LETTER_U] + high, [BACKSLASH, LETTER_U] + low;
        DecodeEscapedUnit(lenient, high);
        DecodeEscapedUnit(lenient, low);
        DecodeConcat(lenient, Plain, first, second);
        assert Written(t) == first + second;
        assert [High(c)] + [Low(c)] == [High(c), Low(c)];
    }
  }

  /** A written string followed by the closing quote decodes to its streamed form, and the streamer
      is done whatever follows. */
  lemma {:induction false} DecodeTokens(lenient: Leniency, ts: seq<Token>, rest: Text)
    requires forall t :: t in ts ==> IsToken(t)
    ensures Decode(lenient, Plain, WrittenAll(ts) + [QUOTE] + rest) == (Closed, StreamedAll(ts))
    decreases |ts|
  {
    if ts == [] {
      assert WrittenAll(ts) + [QUOTE] + rest == [QUOTE] + rest;
      DecodeOne(lenient, Plain, QUOTE);
      DecodeConcat(lenient, Plain, [QUOTE], rest);
      ClosedEmitsNothing(lenient, rest);
    } else {
      var tail := WrittenAll(ts[1..]) + [QUOTE] + rest;
      assert WrittenAll(ts) + [QUOTE] + rest == Written(ts[0]) + tail;
      DecodeToken(lenient, ts[0]);
      DecodeTokens(lenient, ts[1..], rest);
      DecodeConcat(lenient, Plain, Written(ts[0]), tail);
    }
  }

  /** The forms the streamer gets right: no backspace or form-feed letter, no surrogate pair. */
  predicate IsFaithful(t: Token) {
    match t
    case Short(letter) => letter != LETTER_B && letter != LETTER_F
    case Pair(_, _) => false
    case _ => true
  }

  lemma {:induction false} StreamedIsLonger(ts: seq<Token>)
    requires forall t :: t in ts ==> IsToken(t)
    ensures |MeaningAll(ts)| == |ts| <= |StreamedAll(ts)|
    ensures |StreamedAll(ts)| == |ts| <==> forall t :: t in ts ==> !t.Pair?
  {
    hide Streamed, Meaning, IsToken;
    if ts != [] {
      StreamedIsLonger(ts[1..]);
      StreamedLength(ts[0]);
      assert forall t :: t in ts <==> t == ts[0] || t in ts[1..];
    }
  }

  lemma StreamedLength(t: Token)
    requires IsToken(t)
    ensures |Streamed(t)| >= 1 && (|Streamed(t)| == 1 <==> !t.Pair?)
  {
  }

  lemma TokenIsFaithful(t: Token)
    requires IsToken(t) && !t.Pair?
    ensures |Streamed(t)| == 1 && (Streamed(t)[0] == Meaning(t) <==> IsFaithful(t))
  {
  }

  lemma {:induction false} StreamedIsMeaning(ts: seq<Token>)
    requires forall t :: t in ts ==> IsToken(t) && !t.Pair?
    ensures StreamedAll(ts) == MeaningAll(ts) <==> forall t :: t in ts ==> IsFaithful(t)
  {
    hide Streamed, Meaning, IsFaithful, IsToken;
    if ts != [] {
      StreamedIsMeaning(ts[1..]);
      TokenIsFaithful(ts[0]);
      assert forall t :: t in ts <==> t == ts[0] || t in ts[1..];
      var a, b := StreamedAll(ts), MeaningAll(ts);
      assert a[0] == Streamed(ts[0])[0] && a[1..] == StreamedAll(ts[1..]);
      assert b[0] == Meaning(ts[0]) && b[1..] == MeaningAll(ts[1..]);
      if a[0] == b[0] && a[1..] == b[1..] {
        assert a == [a[0]] + a[1..] && b == [b[0]] + b[1..];
      }
    }
  }

  /** The streamed text is the string that was written exactly when none of its characters is written
      with a backspace or form-feed escape or as a surrogate pair. */
  lemma DecodeInvertsEncode(lenient: Leniency, ts: seq<Token>, rest: Text)
    requires forall t :: t in ts ==> IsToken(t)
    ensures Decode(lenient, Plain, WrittenAll(ts) + [QUOTE] + rest).0 == Closed
    ensures Decode(lenient, Plain, WrittenAll(ts) + [QUOTE] + rest).1 == MeaningAll(ts)
      <==> forall t :: t in ts ==> IsFaithful(t)
  {
    DecodeTokens(lenient, ts, rest);
    StreamedIsLonger(ts);
    if forall t :: t in ts ==> !t.Pair? {
      StreamedIsMeaning(ts);
    }
  }

  /** An escaped letter without a meaning of its own stands for itself. */
  lemma OtherEscapesPass(lenient: Leniency, c: CodePoint)
    requires c !in Codes("nrtu")
    ensures Decode(lenient, Plain, [BACKSLASH, c]) == (Plain, [c])
  {
    var letters := "nrtu";
    assert letters[0] == 'n' && letters[1] == 'r' && letters[2] == 't' && letters[3] == 'u';
    assert Codes(letters)[0] == 110 && Codes(letters)[1] == 114 && Codes(letters)[2] == 116 && Codes(letters)[3] == 117;
    DecodeTwo(lenient, Plain, BACKSLASH, c);
    var none: Text := [];
    assert none + [c] == [c];
  }

  /** Four characters that are no number pass through with the backslash and the u in front of them. */
  lemma BadDigitsPass(lenient: Leniency, digits: Text)
    requires |digits| == 4 && !IsHex(digits) && lenient(digits) == None
    ensures Decode(lenient, Plain, [BACKSLASH, LETTER_U] + digits) == (Plain, [BACKSLASH, LETTER_U] + digits)
  {
    var a, b, c, d := digits[0], digits[1], digits[2], digits[3];
    hide IsHex;
    DecodeTwo(lenient, Unicode([]), a, b);
    assert [] + [a] == [a] && [a] + [b] == [a, b];
    DecodeTwo(lenient, Unicode([a, b]), c, d);
    assert [a, b] + [c] == [a, b, c] && [a, b, c] + [d] == digits;
    DecodeConcat(lenient, Unicode([]), [a, b], [c, d]);
    assert [a, b] + [c, d] == digits;
    DecodeTwo(lenient, Plain, BACKSLASH, LETTER_U);
    DecodeConcat(lenient, Plain, [BACKSLASH, LETTER_U], digits);
    var none: Text := [];
    var out := [BACKSLASH, LETTER_U] + digits;
    assert none + none + (none + out) == out && none + none + out == out;
  }

  /** The backspace escape is a written string that the streamer does not return. */
  lemma BackspaceIsLost(lenient: Leniency)
    ensures IsToken(Short(LETTER_B)) && MeaningAll([Short(LETTER_B)]) == [8]
    ensures Decode(lenient, Plain, WrittenAll([Short(LETTER_B)]) + [QUOTE]) == (Closed, [LETTER_B])
  {
    var ts := [Short(LETTER_B)];
    assert SHORT_LETTERS[3] == LETTER_B;
    assert ts[1..] == [] && WrittenAll(ts) + [QUOTE] + [] == WrittenAll(ts) + [QUOTE];
    assert StreamedAll(ts) == [Unescape(LETTER_B)] + StreamedAll(ts[1..]) == [LETTER_B];
    DecodeTokens(lenient, ts, []);
  }

  /** End to end: where the string follows the marker that is found, spaced or not, and no unspaced marker
      is complete before a spaced one, every chunking returns the string and reports that it is done. */
  lemma StreamReturnsTheString(lenient: Leniency, field: Text, start: nat, ts: seq<Token>, rest: Text,
                               chunks: seq<Text>)
    requires forall t :: t in ts ==> IsToken(t) && IsFaithful(t)
    requires Located(SpacedMarker(field), UnspacedMarker(field), Joined(chunks)) == Some(start)
    requires Joined(chunks)[start..] == WrittenAll(ts) + [QUOTE] + rest
    requires !UnspacedFirst(SpacedMarker(field), UnspacedMarker(field), Joined(chunks))
    ensures FeedAll(lenient, SpacedMarker(field), UnspacedMarker(field), Seeking([]), chunks)
         == (Reading(Closed), MeaningAll(ts))
  {
    hide FeedAll;
    EveryChunkingFeedsTheSame(lenient, SpacedMarker(field), UnspacedMarker(field), chunks);
    WholeFeedIsOwed(lenient, SpacedMarker(field), UnspacedMarker(field), Joined(chunks));
    DecodeInvertsEncode(lenient, ts, rest);
  }
}
