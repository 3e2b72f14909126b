/** Repair of a planner's JSON payload before it is validated: missing descriptions are filled in and
    a missing final answer node is appended, at every level of nested plans. */
module PlanRepair {
  import opened Wrappers

  type Fields = map<string, Json>

  datatype Json =
    | Null
    | Bool(on: bool)
    | Int(number: int)
    | Float(value: real)
    | Text(text: string)
    | List(items: seq<Json>)
    | Object(fields: Fields)

  datatype RepairError = NotIterable

  // ---------- Reading dynamic values ----------

  function Field(fields: Fields, key: string): Json {
    if key in fields then fields[key] else Null
  }

  predicate Truthy(v: Json) {
    match v
    case Null => false
    case Bool(on) => on
    case Int(number) => number != 0
    case Float(value) => value != 0.0
    case Text(text) => text != ""
    case List(items) => items != []
    case Object(fields) => fields != map[]
  }

  /** Booleans count as integers. */
  function AsInt(v: Json): Option<int> {
    match v
    case Int(number) => Some(number)
    case Bool(on) => Some(if on then 1 else 0)
    case _ => None
  }

  predicate IsSpace(c: char) {
    || '\t' <= c <= '\r' || '\U{1C}' <= c <= ' ' || c == '\U{85}' || c == '\U{A0}' || c == '\U{1680}'
    || '\U{2000}' <= c <= '\U{200A}' || c in {'\U{2028}', '\U{2029}', '\U{202F}', '\U{205F}', '\U{3000}'}
  }

  function StripLeft(s: string): string {
    if s != "" && IsSpace(s[0]) then StripLeft(s[1..]) else s
  }

  function StripRight(s: string): string {
    if s != "" && IsSpace(s[|s| - 1]) then StripRight(s[..|s| - 1]) else s
  }

  function Strip(s: string): string {
    StripRight(StripLeft(s))
  }

  ghost predicate IsBlank(s: string) {
    forall i :: 0 <= i < |s| ==> IsSpace(s[i])
  }

  lemma {:induction false} StripLeftEmpties(s: string)
    ensures StripLeft(s) == "" <==> IsBlank(s)
  {
    if s != "" && IsSpace(s[0]) {
      StripLeftEmpties(s[1..]);
      assert forall i :: 0 < i < |s| ==> s[i] == s[1..][i - 1];
    }
  }

  lemma {:induction false} StripRightEmpties(s: string)
    ensures StripRight(s) == "" <==> IsBlank(s)
  {
    if s != "" && IsSpace(s[|s| - 1]) {
      StripRightEmpties(s[..|s| - 1]);
    }
  }

  lemma {:induction false} StripLeftIsSuffix(s: string)
    ensures |StripLeft(s)| <= |s| && StripLeft(s) == s[|s| - |StripLeft(s)|..]
    ensures StripLeft(s) != "" ==> !IsSpace(StripLeft(s)[0])
  {
    if s != "" && IsSpace(s[0]) {
      StripLeftIsSuffix(s[1..]);
    }
  }

  /** Stripping leaves nothing exactly when there is nothing but white space. */
  lemma StripEmpties(s: string)
    ensures Strip(s) == "" <==> IsBlank(s)
  {
    StripLeftEmpties(s);
    StripRightEmpties(StripLeft(s));
    StripLeftIsSuffix(s);
  }

  /** The 29 characters that count as white space, by their codes. */
  lemma SpacesAre(c: char)
    ensures IsSpace(c) <==> c as int in {
      0x09, 0x0A, 0x0B, 0x0C, 0x0D, 0x1C, 0x1D, 0x1E, 0x1F, 0x20, 0x85, 0xA0, 0x1680,
      0x2000, 0x2001, 0x2002, 0x2003, 0x2004, 0x2005, 0x2006, 0x2007, 0x2008, 0x2009, 0x200A,
      0x2028, 0x2029, 0x202F, 0x205F, 0x3000}
  {
  }

  lemma {:induction false} StripRightIsPrefix(s: string)
    ensures |StripRight(s)| <= |s| && StripRight(s) == s[..|StripRight(s)|] && IsBlank(s[|StripRight(s)|..])
  {
    if s != "" && IsSpace(s[|s| - 1]) {
      var init := s[..|s| - 1];
      StripRightIsPrefix(init);
      assert s[|StripRight(s)|..] == init[|StripRight(s)|..] + [s[|s| - 1]];
    }
  }

  lemma {:induction false} StripLeftDropsBlank(s: string)
    ensures |StripLeft(s)| <= |s| && IsBlank(s[..|s| - |StripLeft(s)|])
  {
    if s != "" && IsSpace(s[0]) {
      StripLeftDropsBlank(s[1..]);
      assert s[..|s| - |StripLeft(s)|] == [s[0]] + s[1..][..|s[1..]| - |StripLeft(s)|];
    }
  }

  /** Stripping removes white space at both ends and nothing else. */
  lemma StripIs(s: string) returns (left: string, right: string)
    ensures s == left + Strip(s) + right && IsBlank(left) && IsBlank(right)
    ensures Strip(s) != "" ==> !IsSpace(Strip(s)[0]) && !IsSpace(Strip(s)[|Strip(s)| - 1])
  {
    var rest := StripLeft(s);
    StripLeftIsSuffix(s);
    StripLeftDropsBlank(s);
    StripRightIsPrefix(rest);
    StripRightEnds(rest);
    left, right := s[..|s| - |rest|], rest[|Strip(s)|..];
  }

  lemma StripsNothing(s: string)
    requires s != "" && !IsSpace(s[0]) && !IsSpace(s[|s| - 1])
    ensures Strip(s) == s
  {
  }

  function Digits(n: nat): string {
    if n < 10 then [('0' as int + n) as char] else Digits(n / 10) + [('0' as int + n % 10) as char]
  }

  function IntText(n: int): string {
    if n < 0 then "-" + Digits(-n) else Digits(n)
  }

  predicate IsDecimal(s: string) {
    s != "" && forall i :: 0 <= i < |s| ==> '0' <= s[i] <= '9'
  }

  function DecimalValue(s: string): nat
    requires IsDecimal(s)
  {
    var digit: nat := s[|s| - 1] as int - '0' as int;
    if |s| == 1 then digit else 10 * DecimalValue(s[..|s| - 1]) + digit
  }

  /** An integer is written in base 10, without leading zeros, behind a minus sign if it is negative. */
  lemma {:induction false} DigitsAreDecimal(n: nat)
    ensures IsDecimal(Digits(n)) && DecimalValue(Digits(n)) == n
    ensures n > 0 ==> Digits(n)[0] != '0'
  {
    if n >= 10 {
      DigitsAreDecimal(n / 10);
      var s := Digits(n);
      assert s[..|s| - 1] == Digits(n / 10);
    }
  }

  // ---------- Descriptions ----------

  predicate HasText(v: Json) {
    v.Text? && Strip(v.text) != ""
  }

  function Suffix(fields: Fields): string {
    match Field(fields, "id")
    case Int(number) => " " + IntText(number)
    case Bool(on) => if on then " True" else " False"
    case _ => ""
  }

  function FallbackDescription(fields: Fields): string {
    var kind := Field(fields, "type");
    if kind == Text("decision") then
      var condition := Field(fields, "condition");
      if HasText(condition) then "Decide whether: " + Strip(condition.text) else "Choose the correct yes/no branch"
    else if kind == Text("tool") then
      var tool := Field(fields, "tool");
      if HasText(tool) then "Run the " + Strip(tool.text) + " tool" else Strip("Execute node" + Suffix(fields))
    else if kind == Text("subplan") then Strip("Execute subplan" + Suffix(fields))
    else if kind == Text("summary") then Strip("Summarize upstream context" + Suffix(fields))
    else if kind == Text("synthesis") then Strip("Synthesize upstream context" + Suffix(fields))
    else if kind == Text("think") then Strip("Reason through node" + Suffix(fields))
    else if kind == Text("result") then Strip("Produce the final answer" + Suffix(fields))
    else Strip("Execute node" + Suffix(fields))
  }

  lemma StripKeepsInk(s: string, i: nat)
    requires i < |s| && !IsSpace(s[i])
    ensures Strip(s) != "" && !IsBlank(s)
  {
    StripEmpties(s);
  }

  lemma {:induction false} StripStripped(s: string)
    ensures Strip(s) != "" ==> Strip(Strip(s)) != ""
  {
    if Strip(s) != "" {
      StripRightEnds(StripLeft(s));
      var r := Strip(s);
      StripKeepsInk(r, |r| - 1);
    }
  }

  lemma {:induction false} StripRightEnds(s: string)
    ensures StripRight(s) != "" ==> !IsSpace(StripRight(s)[|StripRight(s)| - 1])
  {
    if s != "" && IsSpace(s[|s| - 1]) {
      StripRightEnds(s[..|s| - 1]);
    }
  }

  /** The text for each type of node with a numeric id; a decision's condition and a tool's name are quoted
      without the white space around them. */
  lemma FallbackSays(fields: Fields, n: int)
    requires Field(fields, "id") == Int(n)
    ensures var kind, text, id := Field(fields, "type"), FallbackDescription(fields), " " + IntText(n);
      && (kind == Text("decision") ==>
            text == if HasText(Field(fields, "condition"))
                    then "Decide whether: " + Strip(Field(fields, "condition").text)
                    else "Choose the correct yes/no branch")
      && (kind == Text("tool") && HasText(Field(fields, "tool")) ==>
            text == "Run the " + Strip(Field(fields, "tool").text) + " tool")
      && (kind == Text("tool") && !HasText(Field(fields, "tool")) ==> text == "Execute node" + id)
      && (kind == Text("subplan") ==> text == "Execute subplan" + id)
      && (kind == Text("summary") ==> text == "Summarize upstream context" + id)
      && (kind == Text("synthesis") ==> text == "Synthesize upstream context" + id)
      && (kind == Text("think") ==> text == "Reason through node" + id)
      && (kind == Text("result") ==> text == "Produce the final answer" + id)
      && (kind == Null ==> text == "Execute node" + id)
  {
    hide HasText, Strip, IntText, IsSpace;
    NumberedText("Execute node", n);
    NumberedText("Execute subplan", n);
    NumberedText("Summarize upstream context", n);
    NumberedText("Synthesize upstream context", n);
    NumberedText("Reason through node", n);
    NumberedText("Produce the final answer", n);
  }

  lemma NumberedText(words: string, n: int)
    requires words != "" && 'A' <= words[0] <= 'Z'
    ensures Strip(words + (" " + IntText(n))) == words + (" " + IntText(n))
  {
    var s := words + (" " + IntText(n));
    DigitsAreDecimal(if n < 0 then -n else n);
    var last := s[|s| - 1];
    assert last == IntText(n)[|IntText(n)| - 1] && '0' <= last <= '9';
    StripsNothing(s);
  }

  lemma FallbackHasText(fields: Fields)
    ensures HasText(Text(FallbackDescription(fields)))
  {
    hide Strip, IsBlank;
    var r := FallbackDescription(fields);
    var suffix := Suffix(fields);
    StripWords("Execute node", suffix);
    StripWords("Execute subplan", suffix);
    StripWords("Summarize upstream context", suffix);
    StripWords("Synthesize upstream context", suffix);
    StripWords("Reason through node", suffix);
    StripWords("Produce the final answer", suffix);
    if r != "" && !IsSpace(r[0]) {
      StripKeepsInk(r, 0);
    }
  }

  lemma StripWords(words: string, suffix: string)
    requires words != "" && !IsSpace(words[0])
    ensures Strip(words + suffix) != "" && Strip(Strip(words + suffix)) != ""
  {
    StripKeepsInk(words + suffix, 0);
    StripStripped(words + suffix);
  }

  predicate IsPlan(v: Json) {
    v.Object? && Field(v.fields, "nodes").List?
  }

  predicate HasSubplan(v: Json) {
    v.Object? && Field(v.fields, "subplan").Object?
  }

  function Described(fields: Fields): Fields {
    if HasText(Field(fields, "description")) then fields
    else fields["description" := Text(FallbackDescription(fields))]
  }

  function DescribeNode(v: Json): Json {
    if HasSubplan(v) then Object(Described(v.fields)["subplan" := DescribePlan(v.fields["subplan"])])
    else if v.Object? then Object(Described(v.fields))
    else v
  }

  function DescribePlan(p: Json): Json {
    if IsPlan(p) then
      var items := p.fields["nodes"].items;
      Object(p.fields["nodes" := List(seq(|items|, i requires 0 <= i < |items| => DescribeNode(items[i])))])
    else p
  }

  method RepairPlanDescriptions(p: Json) returns (r: Json)
    ensures r == DescribePlan(p)
    decreases p
  {
    if !IsPlan(p) {
      return p;
    }
    var nodes := p.fields["nodes"].items;
    var i := 0;
    while i < |nodes|
      invariant 0 <= i <= |nodes| == |p.fields["nodes"].items|
      invariant forall j :: 0 <= j < i ==> nodes[j] == DescribeNode(p.fields["nodes"].items[j])
      invariant forall j :: i <= j < |nodes| ==> nodes[j] == p.fields["nodes"].items[j]
    {
      if nodes[i].Object? {
        var node := nodes[i].fields;
        if !HasText(Field(node, "description")) {
          node := node["description" := Text(FallbackDescription(node))];
        }
        if Field(node, "subplan").Object? {
          var subplan := RepairPlanDescriptions(p.fields["nodes"].items[i].fields["subplan"]);
          node := node["subplan" := subplan];
        }
        nodes := nodes[i := Object(node)];
      }
      i := i + 1;
    }
    r := Object(p.fields["nodes" := List(nodes)]);
    assert nodes == DescribePlan(p).fields["nodes"].items;
  }

  // ---------- The final answer node ----------

  /** A node names an id in a list of its own. */
  ghost predicate Names(v: Json, id: int) {
    v.List? && exists i :: 0 <= i < |v.items| && AsInt(v.items[i]) == Some(id)
  }

  ghost predicate BranchNames(branches: Json, id: int) {
    branches.Object? && exists key :: key in branches.fields && Names(branches.fields[key], id)
  }

  /** A node refers to an id as context or under one of its branches. */
  ghost predicate Refers(node: Json, id: int) {
    && node.Object?
    && (Names(Field(node.fields, "context_needed"), id) || BranchNames(Field(node.fields, "branches"), id))
  }

  predicate IsOfType(node: Json, kind: string) {
    node.Object? && Field(node.fields, "type") == Text(kind)
  }

  function NodeId(node: Json): Option<int> {
    if node.Object? then AsInt(Field(node.fields, "id")) else None
  }

  predicate HasResult(nodes: seq<Json>) {
    exists i :: 0 <= i < |nodes| && IsOfType(nodes[i], "result")
  }

  /** Only a list, a text or an object can be iterated over; a falsy value stands for none. */
  predicate Iterable(v: Json) {
    !Truthy(v) || v.List? || v.Text? || v.Object?
  }

  predicate ContextIsIterable(node: Json) {
    node.Object? ==> Iterable(Field(node.fields, "context_needed"))
  }

  /** A synthesis node that no node of the level refers to. */
  ghost predicate IsSink(nodes: seq<Json>, i: nat)
    requires i < |nodes|
  {
    && IsOfType(nodes[i], "synthesis") && NodeId(nodes[i]).Some?
    && forall j :: 0 <= j < |nodes| ==> !Refers(nodes[j], NodeId(nodes[i]).value)
  }

  ghost function SinkIds(nodes: seq<Json>, k: nat): seq<Json>
    requires k <= |nodes|
  {
    if k == 0 then []
    else SinkIds(nodes, k - 1) + if IsSink(nodes, k - 1) then [nodes[k - 1].fields["id"]] else []
  }

  ghost function LoneSink(nodes: seq<Json>): Option<Json> {
    var sinks := SinkIds(nodes, |nodes|);
    if |sinks| == 1 then Some(sinks[0]) else None
  }

  /** One more than the highest id, or 1 where there is none. */
  function HighestId(nodes: seq<Json>): Option<int> {
    if nodes == [] then None
    else
      var rest, last := HighestId(nodes[..|nodes| - 1]), NodeId(nodes[|nodes| - 1]);
      if last.None? || (rest.Some? && rest.value >= last.value) then rest else last
  }

  function NextId(nodes: seq<Json>): int {
    match HighestId(nodes)
    case Some(highest) => highest + 1
    case None => 1
  }

  /** Of the integer ids of a level, true counting as 1 and false as 0, the next is one more than the greatest;
      without any it is 1. */
  lemma {:induction false} NextIdIs(nodes: seq<Json>)
    ensures (forall i :: 0 <= i < |nodes| ==> NodeId(nodes[i]).None?) ==> NextId(nodes) == 1
    ensures forall i :: 0 <= i < |nodes| && NodeId(nodes[i]).Some? ==> NodeId(nodes[i]).value < NextId(nodes)
    ensures (exists i :: 0 <= i < |nodes| && NodeId(nodes[i]).Some?) ==>
      exists i :: 0 <= i < |nodes| && NodeId(nodes[i]) == Some(NextId(nodes) - 1)
  {
    HighestIdIs(nodes);
  }

  lemma {:induction false} HighestIdIs(nodes: seq<Json>)
    ensures HighestId(nodes).None? <==> forall i :: 0 <= i < |nodes| ==> NodeId(nodes[i]).None?
    ensures HighestId(nodes).Some? ==> exists i :: 0 <= i < |nodes| && NodeId(nodes[i]) == HighestId(nodes)
    ensures forall i :: 0 <= i < |nodes| && NodeId(nodes[i]).Some? ==>
      HighestId(nodes).Some? && NodeId(nodes[i]).value <= HighestId(nodes).value
  {
    hide NodeId;
    if nodes != [] {
      var init := nodes[..|nodes| - 1];
      HighestIdIs(init);
      assert forall i :: 0 <= i < |init| ==> init[i] == nodes[i];
      if HighestId(init).Some? {
        var i :| 0 <= i < |init| && NodeId(init[i]) == HighestId(init);
        assert NodeId(nodes[i]) == HighestId(init);
      }
    }
  }

  lemma IdsAre(id: Json)
    ensures NodeId(Object(map["id" := id])) ==
      if id.Int? then Some(id.number)
      else if id == Bool(true) then Some(1)
      else if id == Bool(false) then Some(0)
      else None
  {
  }

  const ANSWER := "Return the synthesized answer as the final user-facing response"

  function AnswerNode(id: int, sink: Json): Json {
    Object(map["id" := Int(id), "type" := Text("result"), "description" := Text(ANSWER),
               "context_needed" := List([sink])])
  }

  /** What a level lacks at its end. */
  ghost function Ending(nodes: seq<Json>): seq<Json> {
    if HasResult(nodes) || LoneSink(nodes).None? then []
    else [AnswerNode(NextId(nodes), LoneSink(nodes).value)]
  }

  ghost function FinishNode(v: Json): Json {
    if HasSubplan(v) then Object(v.fields["subplan" := FinishPlan(v.fields["subplan"])]) else v
  }

  ghost function FinishPlan(p: Json): Json {
    if IsPlan(p) then
      var items := p.fields["nodes"].items;
      var nodes := seq(|items|, i requires 0 <= i < |items| => FinishNode(items[i]));
      Object(p.fields["nodes" := List(nodes + Ending(nodes))])
    else p
  }

  /** No level that is searched for a sink needs to iterate over a number or a boolean. */
  predicate Readable(p: Json) {
    IsPlan(p) ==>
      && (forall i :: 0 <= i < |p.fields["nodes"].items| ==> ReadableNode(p.fields["nodes"].items[i]))
      && LevelIsReadable(p.fields["nodes"].items)
  }

  predicate ReadableNode(v: Json) {
    HasSubplan(v) ==> Readable(v.fields["subplan"])
  }

  predicate LevelIsReadable(nodes: seq<Json>) {
    HasResult(nodes) || forall i :: 0 <= i < |nodes| ==> ContextIsIterable(nodes[i])
  }

  method CollectIds(v: Json, referenced: set<int>) returns (r: set<int>)
    ensures forall id :: id in r <==> id in referenced || Names(v, id)
  {
    r := referenced;
    if v.List? {
      var i := 0;
      while i < |v.items|
        invariant 0 <= i <= |v.items|
        invariant forall id :: id in r <==> id in referenced || exists k :: 0 <= k < i && AsInt(v.items[k]) == Some(id)
      {
        if AsInt(v.items[i]).Some? {
          r := r + {AsInt(v.items[i]).value};
        }
        i := i + 1;
      }
    }
  }

  method CollectBranches(branches: Json, referenced: set<int>) returns (r: set<int>)
    ensures forall id :: id in r <==> id in referenced || BranchNames(branches, id)
  {
    r := referenced;
    if branches.Object? {
      var keys := branches.fields.Keys;
      while keys != {}
        invariant keys <= branches.fields.Keys
        invariant forall id :: id in r <==>
          id in referenced || exists key :: key in branches.fields && key !in keys && Names(branches.fields[key], id)
        decreases keys
      {
        var key :| key in keys;
        r := CollectIds(branches.fields[key], r);
        keys := keys - {key};
      }
    }
  }

  method SingleTerminalSynthesis(nodes: seq<Json>) returns (r: Result<Option<Json>, RepairError>)
    ensures r == if forall i :: 0 <= i < |nodes| ==> ContextIsIterable(nodes[i]) then Success(LoneSink(nodes))
                 else Failure(NotIterable)
  {
    var referenced: set<int> := {};
    var i := 0;
    while i < |nodes|
      invariant 0 <= i <= |nodes|
      invariant forall k :: 0 <= k < i ==> ContextIsIterable(nodes[k])
      invariant forall id :: id in referenced <==> exists k :: 0 <= k < i && Refers(nodes[k], id)
    {
      if nodes[i].Object? {
        var context := Field(nodes[i].fields, "context_needed");
        if !Iterable(context) {
          assert !ContextIsIterable(nodes[i]);
          return Failure(NotIterable);
        }
        referenced := CollectIds(context, referenced);
        referenced := CollectBranches(Field(nodes[i].fields, "branches"), referenced);
      }
      i := i + 1;
    }
    var sinks: seq<Json> := [];
    i := 0;
    while i < |nodes|
      invariant 0 <= i <= |nodes|
      invariant sinks == SinkIds(nodes, i)
    {
      if IsOfType(nodes[i], "synthesis") && NodeId(nodes[i]).Some? && NodeId(nodes[i]).value !in referenced {
        sinks := sinks + [nodes[i].fields["id"]];
      }
      i := i + 1;
    }
    return Success(if |sinks| == 1 then Some(sinks[0]) else None);
  }

  method EnsureTerminalResult(p: Json) returns (r: Result<Json, RepairError>)
    ensures r == if Readable(p) then Success(FinishPlan(p)) else Failure(NotIterable)
    decreases p
  {
    if !IsPlan(p) {
      return Success(p);
    }
    ghost var items := p.fields["nodes"].items;
    var nodes := p.fields["nodes"].items;
    var i := 0;
    while i < |nodes|
      invariant 0 <= i <= |nodes| == |items|
      invariant forall j :: 0 <= j < i ==> ReadableNode(items[j]) && nodes[j] == FinishNode(items[j])
      invariant forall j :: i <= j < |nodes| ==> nodes[j] == items[j]
    {
      if HasSubplan(nodes[i]) {
        var subplan := EnsureTerminalResult(p.fields["nodes"].items[i].fields["subplan"]);
        if subplan.Failure? {
          assert !ReadableNode(items[i]);
          return subplan;
        }
        nodes := nodes[i := Object(nodes[i].fields["subplan" := subplan.value])];
      }
      i := i + 1;
    }
    LevelSurvives(items, nodes);
    assert nodes == seq(|items|, k requires 0 <= k < |items| => FinishNode(items[k]));
    if HasResult(nodes) {
      assert nodes + [] == nodes;
      return Success(Object(p.fields["nodes" := List(nodes)]));
    }
    var sink := SingleTerminalSynthesis(nodes);
    if sink.Failure? {
      return Failure(NotIterable);
    }
    if sink.value.Some? {
      nodes := nodes + [AnswerNode(NextId(nodes), sink.value.value)];
    } else {
      assert nodes + [] == nodes;
    }
    return Success(Object(p.fields["nodes" := List(nodes)]));
  }

  /** Nodes that differ only in fields the search does not read. */
  ghost predicate SameForSearch(v: Json, w: Json) {
    || v == w
    || (&& v.Object? && w.Object?
        && forall key :: key in {"id", "type", "context_needed", "branches"} ==>
          Field(v.fields, key) == Field(w.fields, key))
  }

  lemma SameAnswers(v: Json, w: Json)
    requires SameForSearch(v, w)
    ensures forall kind :: IsOfType(v, kind) == IsOfType(w, kind)
    ensures NodeId(v) == NodeId(w) && ContextIsIterable(v) == ContextIsIterable(w)
    ensures forall id :: Refers(v, id) == Refers(w, id)
  {
  }

  lemma LevelSurvives(before: seq<Json>, after: seq<Json>)
    requires |before| == |after| && forall i :: 0 <= i < |before| ==> after[i] == FinishNode(before[i])
    ensures HasResult(before) == HasResult(after) && LevelIsReadable(before) == LevelIsReadable(after)
  {
    forall i | 0 <= i < |before|
      ensures IsOfType(before[i], "result") == IsOfType(after[i], "result")
      ensures ContextIsIterable(before[i]) == ContextIsIterable(after[i])
    {
      SameAnswers(before[i], after[i]);
    }
  }

  ghost function Repaired(p: Json): Json {
    FinishPlan(DescribePlan(p))
  }

  method RepairPlanPayload(p: Json) returns (r: Result<Json, RepairError>)
    ensures r == if Readable(p) then Success(Repaired(p)) else Failure(NotIterable)
  {
    var described := RepairPlanDescriptions(p);
    DescribingKeepsReadable(p);
    r := EnsureTerminalResult(described);
  }

  /** A number or true where a context list belongs makes the repair fail; zero or false does not. */
  lemma NumbersAreNotIterable(context: Json)
    requires context.Int? || context.Bool? || context.Float?
    ensures var node := Object(map["id" := Int(1), "type" := Text("synthesis"), "context_needed" := context]);
      Readable(Object(map["nodes" := List([node])])) <==> context in {Int(0), Bool(false), Float(0.0)}
  {
    var node := Object(map["id" := Int(1), "type" := Text("synthesis"), "context_needed" := context]);
    assert [node][0] == node && !HasResult([node]);
    assert ContextIsIterable(node) <==> !Truthy(context);
    var p := Object(map["nodes" := List([node])]);
    assert p.fields["nodes"].items == [node];
  }

  ghost function Nodes(p: Json): seq<Json> {
    if IsPlan(p) then p.fields["nodes"].items else []
  }

  lemma DescribedAt(p: Json, i: nat)
    requires i < |Nodes(p)|
    ensures |Nodes(DescribePlan(p))| == |Nodes(p)| && Nodes(DescribePlan(p))[i] == DescribeNode(Nodes(p)[i])
    ensures SameForSearch(Nodes(p)[i], DescribeNode(Nodes(p)[i]))
    ensures HasSubplan(Nodes(p)[i]) == HasSubplan(DescribeNode(Nodes(p)[i]))
  {
    hide FallbackDescription, HasText;
    if HasSubplan(Nodes(p)[i]) {
      StillAnObject(Nodes(p)[i].fields["subplan"]);
    }
  }

  lemma StillAnObject(p: Json)
    ensures p.Object? <==> DescribePlan(p).Object?
    ensures IsPlan(p) <==> IsPlan(DescribePlan(p))
    ensures p.Object? <==> FinishPlan(p).Object?
    ensures IsPlan(p) <==> IsPlan(FinishPlan(p))
  {
  }

  lemma {:induction false} DescribingKeepsReadable(p: Json)
    ensures Readable(DescribePlan(p)) <==> Readable(p)
    decreases p
  {
    hide DescribeNode;
    if IsPlan(p) {
      var items, described := Nodes(p), Nodes(DescribePlan(p));
      forall i | 0 <= i < |items|
        ensures ReadableNode(items[i]) == ReadableNode(described[i])
        ensures IsOfType(items[i], "result") == IsOfType(described[i], "result")
        ensures ContextIsIterable(items[i]) == ContextIsIterable(described[i])
      {
        DescribedAt(p, i);
        SameAnswers(items[i], described[i]);
        if HasSubplan(items[i]) {
          DescribingKeepsReadable(items[i].fields["subplan"]);
          DescribedSubplan(items[i]);
        }
      }
      assert |described| == |items|;
    }
  }

  lemma DescribedSubplan(v: Json)
    requires HasSubplan(v)
    ensures HasSubplan(DescribeNode(v))
    ensures DescribeNode(v).fields["subplan"] == DescribePlan(v.fields["subplan"])
  {
    StillAnObject(v.fields["subplan"]);
  }
}
