/** What the repair of a planner payload achieves: every node is described, nothing else changes,
    repairing twice is repairing once, and when a repaired plan stays acyclic. */
module RepairedPlans {
  import opened Wrappers
  import opened Graphs
  import opened PlanRepair

  // ---------- What repair achieves ----------

  ghost predicate HasInk(v: Json) {
    v.Text? && !IsBlank(v.text)
  }

  /** On every level every node says what it does. */
  ghost predicate WellDescribed(p: Json) {
    IsPlan(p) ==> forall i :: 0 <= i < |p.fields["nodes"].items| ==> WellDescribedNode(p.fields["nodes"].items[i])
  }

  ghost predicate WellDescribedNode(v: Json) {
    v.Object? ==> HasInk(Field(v.fields, "description")) && (HasSubplan(v) ==> WellDescribed(v.fields["subplan"]))
  }

  lemma {:induction false} DescribedIsWellDescribed(p: Json)
    ensures WellDescribed(DescribePlan(p))
    decreases p
  {
    hide FallbackDescription, Strip, IsBlank;
    if IsPlan(p) {
      forall i | 0 <= i < |Nodes(p)| ensures WellDescribedNode(DescribeNode(Nodes(p)[i])) {
        var v := Nodes(p)[i];
        if v.Object? {
          FallbackHasText(v.fields);
          StripEmpties(FallbackDescription(v.fields));
          if Field(v.fields, "description").Text? {
            StripEmpties(Field(v.fields, "description").text);
          }
          if HasSubplan(v) {
            DescribedIsWellDescribed(v.fields["subplan"]);
          }
        }
      }
      StillAnObject(p);
      assert |Nodes(DescribePlan(p))| == |Nodes(p)|;
    }
  }

  lemma {:induction false} FinishingKeepsDescriptions(p: Json)
    requires WellDescribed(p)
    ensures WellDescribed(FinishPlan(p))
    decreases p
  {
    hide IsBlank, Ending;
    if IsPlan(p) {
      var items := Nodes(p);
      var nodes := seq(|items|, i requires 0 <= i < |items| => FinishNode(items[i]));
      forall i | 0 <= i < |items| ensures WellDescribedNode(nodes[i]) {
        assert WellDescribedNode(items[i]);
        if HasSubplan(items[i]) {
          FinishingKeepsDescriptions(items[i].fields["subplan"]);
        }
      }
      EndingIsAnswer(nodes);
      assert Nodes(FinishPlan(p)) == nodes + Ending(nodes);
    }
  }

  /** At most one node is appended to a level; it is a described answer node with an id that no
      node of the level has. */
  lemma EndingIsAnswer(nodes: seq<Json>)
    ensures |Ending(nodes)| <= 1
    ensures forall v :: v in Ending(nodes) ==>
      && WellDescribedNode(v) && IsOfType(v, "result") && !HasSubplan(v) && ContextIsIterable(v)
      && NodeId(v) == Some(NextId(nodes)) && (forall w :: w in nodes ==> NodeId(w) != NodeId(v))
      && Field(v.fields, "context_needed") == List([LoneSink(nodes).value])
  {
    if Ending(nodes) != [] {
      assert ANSWER[|ANSWER| - 1] == 'e';
      NextIdIsFresh(nodes);
    }
  }

  lemma {:induction false} NextIdIsFresh(nodes: seq<Json>)
    ensures forall v :: v in nodes && NodeId(v).Some? ==> NodeId(v).value < NextId(nodes)
  {
    if nodes != [] {
      var rest := nodes[..|nodes| - 1];
      NextIdIsFresh(rest);
      HighestIsSome(rest);
      assert nodes == rest + [nodes[|nodes| - 1]];
    }
  }

  lemma {:induction false} HighestIsSome(nodes: seq<Json>)
    ensures HighestId(nodes).None? ==> forall v :: v in nodes ==> NodeId(v).None?
  {
    if nodes != [] {
      var rest := nodes[..|nodes| - 1];
      HighestIsSome(rest);
      assert nodes == rest + [nodes[|nodes| - 1]];
    }
  }

  /** After a repair every node on every level has a description with something in it. */
  lemma RepairDescribesEveryNode(p: Json)
    ensures WellDescribed(Repaired(p))
  {
    DescribedIsWellDescribed(p);
    FinishingKeepsDescriptions(DescribePlan(p));
  }

  lemma {:induction false} WellDescribedIsFixed(p: Json)
    requires WellDescribed(p)
    ensures DescribePlan(p) == p
    decreases p
  {
    hide FallbackDescription, Strip, IsBlank;
    if IsPlan(p) {
      forall i | 0 <= i < |Nodes(p)| ensures DescribeNode(Nodes(p)[i]) == Nodes(p)[i] {
        var v := Nodes(p)[i];
        assert WellDescribedNode(v);
        if v.Object? {
          StripEmpties(Field(v.fields, "description").text);
          assert Described(v.fields) == v.fields;
          if HasSubplan(v) {
            WellDescribedIsFixed(v.fields["subplan"]);
          }
        }
      }
      assert Nodes(DescribePlan(p)) == Nodes(p);
    }
  }

  lemma {:induction false} FinishedIsFixed(p: Json)
    ensures FinishPlan(FinishPlan(p)) == FinishPlan(p)
    decreases p
  {
    hide Ending;
    if IsPlan(p) {
      var items := Nodes(p);
      var nodes := seq(|items|, i requires 0 <= i < |items| => FinishNode(items[i]));
      var finished := nodes + Ending(nodes);
      assert Nodes(FinishPlan(p)) == finished;
      EndingIsAnswer(nodes);
      forall i | 0 <= i < |finished| ensures FinishNode(finished[i]) == finished[i] {
        if i < |items| {
          if HasSubplan(items[i]) {
            FinishedIsFixed(items[i].fields["subplan"]);
            StillAnObject(items[i].fields["subplan"]);
          }
        } else {
          assert finished[i] in Ending(nodes);
        }
      }
      assert seq(|finished|, i requires 0 <= i < |finished| => FinishNode(finished[i])) == finished;
      NothingMoreToEnd(nodes);
      assert finished + [] == finished;
    }
  }

  lemma NothingMoreToEnd(nodes: seq<Json>)
    ensures Ending(nodes + Ending(nodes)) == []
  {
    if Ending(nodes) == [] {
      assert nodes + [] == nodes;
    } else {
      var all := nodes + Ending(nodes);
      assert IsOfType(all[|nodes|], "result");
      assert HasResult(all);
    }
  }

  lemma {:induction false} FinishedIsReadable(p: Json)
    requires Readable(p)
    ensures Readable(FinishPlan(p))
    decreases p
  {
    hide Ending, ContextIsIterable, IsOfType;
    if IsPlan(p) {
      var items := Nodes(p);
      var nodes := seq(|items|, i requires 0 <= i < |items| => FinishNode(items[i]));
      var finished := nodes + Ending(nodes);
      assert Nodes(FinishPlan(p)) == finished;
      EndingIsAnswer(nodes);
      LevelSurvives(items, nodes);
      forall i | 0 <= i < |finished| ensures ReadableNode(finished[i]) {
        if i < |items| {
          assert ReadableNode(items[i]);
          if HasSubplan(items[i]) {
            FinishedIsReadable(items[i].fields["subplan"]);
          }
        } else {
          assert finished[i] in Ending(nodes);
        }
      }
      if HasResult(nodes) {
        var i :| 0 <= i < |nodes| && IsOfType(nodes[i], "result");
        assert finished[i] == nodes[i];
        assert HasResult(finished);
      } else {
        forall i | 0 <= i < |finished| ensures ContextIsIterable(finished[i]) {
          if i >= |nodes| {
            assert finished[i] in Ending(nodes);
          } else {
            assert finished[i] == nodes[i];
          }
        }
      }
    }
  }

  /** Repairing a repaired payload changes nothing and raises nothing. */
  lemma RepairIsIdempotent(p: Json)
    ensures Repaired(Repaired(p)) == Repaired(p)
    ensures Readable(p) ==> Readable(Repaired(p))
  {
    RepairDescribesEveryNode(p);
    WellDescribedIsFixed(Repaired(p));
    FinishedIsFixed(DescribePlan(p));
    if Readable(p) {
      DescribingKeepsReadable(p);
      FinishedIsReadable(DescribePlan(p));
    }
  }

  // ---------- What repair leaves alone ----------

  /** Only a missing description and the inside of a subplan may differ. */
  ghost predicate NodeKept(v: Json, w: Json) {
    if !v.Object? then w == v
    else
      && w.Object? && w.fields.Keys == v.fields.Keys + {"description"}
      && (forall key :: key in v.fields && key != "description" && key != "subplan" ==> w.fields[key] == v.fields[key])
      && (HasInk(Field(v.fields, "description")) ==> w.fields["description"] == v.fields["description"])
      && ("subplan" in v.fields && !HasSubplan(v) ==> w.fields["subplan"] == v.fields["subplan"])
      && (HasSubplan(v) ==> Kept(v.fields["subplan"], w.fields["subplan"]))
  }

  /** On every level the nodes are kept in place and only the ending follows them. */
  ghost predicate Kept(p: Json, q: Json)
    decreases p
  {
    if !IsPlan(p) then q == p
    else
      && IsPlan(q) && q.fields == p.fields["nodes" := q.fields["nodes"]]
      && |Nodes(q)| >= |Nodes(p)|
      && (forall i :: 0 <= i < |p.fields["nodes"].items| ==> NodeKept(p.fields["nodes"].items[i], Nodes(q)[i]))
      && Nodes(q)[|Nodes(p)|..] == Ending(Nodes(p))
  }

  lemma {:induction false} EndingReadsOnlyTheSearched(before: seq<Json>, after: seq<Json>)
    requires |before| == |after| && forall i :: 0 <= i < |before| ==> SameForSearch(before[i], after[i])
    ensures Ending(before) == Ending(after) && LevelEdges(before) == LevelEdges(after)
    ensures LeadsBack(before) == LeadsBack(after)
  {
    hide *;
    ResultsAgree(before, after);
    SinksAgree(before, after, |before|);
    IdsAgree(before, after);
    SameEnding(before, after);
  }

  lemma ResultsAgree(before: seq<Json>, after: seq<Json>)
    requires |before| == |after| && forall i :: 0 <= i < |before| ==> SameForSearch(before[i], after[i])
    ensures HasResult(before) == HasResult(after)
  {
    forall i | 0 <= i < |before|
      ensures IsOfType(before[i], "result") == IsOfType(after[i], "result")
    {
      SameAnswers(before[i], after[i]);
    }
  }

  lemma SameEnding(before: seq<Json>, after: seq<Json>)
    requires HasResult(before) == HasResult(after) && HighestId(before) == HighestId(after)
    requires SinkIds(before, |before|) == SinkIds(after, |after|) && LevelEdges(before) == LevelEdges(after)
    ensures Ending(before) == Ending(after) && LeadsBack(before) == LeadsBack(after)
  {
    hide HasResult, HighestId, SinkIds, LevelEdges;
  }

  lemma {:induction false} SinksAgree(before: seq<Json>, after: seq<Json>, k: nat)
    requires k <= |before| == |after| && forall i :: 0 <= i < |before| ==> SameForSearch(before[i], after[i])
    ensures SinkIds(before, k) == SinkIds(after, k)
  {
    if k > 0 {
      SinksAgree(before, after, k - 1);
      forall i | 0 <= i < |before|
        ensures IsOfType(before[i], "synthesis") == IsOfType(after[i], "synthesis")
        ensures NodeId(before[i]) == NodeId(after[i])
        ensures forall id :: Refers(before[i], id) == Refers(after[i], id)
      {
        SameAnswers(before[i], after[i]);
      }
      assert IsSink(before, k - 1) == IsSink(after, k - 1);
    }
  }

  lemma {:induction false} IdsAgree(before: seq<Json>, after: seq<Json>)
    requires |before| == |after| && forall i :: 0 <= i < |before| ==> SameForSearch(before[i], after[i])
    ensures HighestId(before) == HighestId(after) && LevelEdges(before) == LevelEdges(after)
  {
    if before != [] {
      IdsAgree(before[..|before| - 1], after[..|after| - 1]);
      SameAnswers(before[|before| - 1], after[|after| - 1]);
    }
  }

  lemma RepairedNodes(p: Json)
    requires IsPlan(p)
    ensures IsPlan(Repaired(p)) && |Nodes(Repaired(p))| >= |Nodes(p)|
    ensures forall i :: 0 <= i < |Nodes(p)| ==> Nodes(Repaired(p))[i] == FinishNode(DescribeNode(Nodes(p)[i]))
    ensures forall i :: 0 <= i < |Nodes(p)| ==> SameForSearch(Nodes(p)[i], Nodes(Repaired(p))[i])
    ensures Nodes(Repaired(p))[|Nodes(p)|..] == Ending(Nodes(p))
    ensures Repaired(p).fields == p.fields["nodes" := Repaired(p).fields["nodes"]]
  {
    hide Ending, DescribeNode, FinishNode, SameForSearch;
    StillAnObject(p);
    var items := Nodes(p);
    var described := Nodes(DescribePlan(p));
    assert |described| == |items| by { DescribedLength(p); }
    var nodes := seq(|described|, i requires 0 <= i < |described| => FinishNode(described[i]));
    forall i | 0 <= i < |items|
      ensures nodes[i] == FinishNode(DescribeNode(items[i])) && SameForSearch(items[i], nodes[i])
    {
      DescribedAt(p, i);
      FinishedIsSame(items[i], described[i]);
    }
    EndingReadsOnlyTheSearched(items, nodes);
    assert Nodes(Repaired(p)) == nodes + Ending(nodes);
  }

  lemma DescribedLength(p: Json)
    ensures |Nodes(DescribePlan(p))| == |Nodes(p)|
  {
  }

  lemma FinishedIsSame(v: Json, w: Json)
    requires SameForSearch(v, w)
    ensures SameForSearch(v, FinishNode(w))
  {
  }

  lemma {:induction false} RepairIsConservative(p: Json)
    ensures Kept(p, Repaired(p))
    decreases p
  {
    hide Ending, Repaired;
    if IsPlan(p) {
      RepairedNodes(p);
      forall i | 0 <= i < |Nodes(p)| ensures NodeKept(Nodes(p)[i], Nodes(Repaired(p))[i]) {
        if HasSubplan(Nodes(p)[i]) {
          RepairIsConservative(Nodes(p)[i].fields["subplan"]);
        }
        RepairedNode(Nodes(p)[i]);
      }
    } else {
      RepairedLeaf(p);
    }
  }

  lemma RepairedLeaf(p: Json)
    requires !IsPlan(p)
    ensures Repaired(p) == p
  {
  }

  lemma RepairedNode(v: Json)
    requires HasSubplan(v) ==> Kept(v.fields["subplan"], Repaired(v.fields["subplan"]))
    ensures NodeKept(v, FinishNode(DescribeNode(v)))
  {
    hide FallbackDescription, Strip, IsBlank, Kept, DescribePlan, FinishPlan;
    if v.Object? {
      if Field(v.fields, "description").Text? {
        StripEmpties(Field(v.fields, "description").text);
      }
      if HasSubplan(v) {
        StillAnObject(v.fields["subplan"]);
      }
    }
  }

  // ---------- Cycles ----------

  ghost function NamedIn(v: Json): set<int> {
    if v.List? then set i | 0 <= i < |v.items| && AsInt(v.items[i]).Some? :: AsInt(v.items[i]).value else {}
  }

  /** The edges a node contributes: from each context id to itself and, for a decision, from itself
      to each id under a branch. */
  ghost function NodeEdges(node: Json): Edges {
    if NodeId(node).None? then {}
    else
      var id := NodeId(node).value;
      var branches := Field(node.fields, "branches");
      (set d | d in NamedIn(Field(node.fields, "context_needed")) :: (d, id))
      + if IsOfType(node, "decision") && branches.Object?
        then set key, t | key in branches.fields && t in NamedIn(branches.fields[key]) :: (id, t)
        else {}
  }

  ghost function LevelEdges(nodes: seq<Json>): Edges {
    if nodes == [] then {} else LevelEdges(nodes[..|nodes| - 1]) + NodeEdges(nodes[|nodes| - 1])
  }

  ghost function SinkNumber(nodes: seq<Json>): Option<int> {
    if LoneSink(nodes).None? then None else AsInt(LoneSink(nodes).value)
  }

  lemma {:induction false} SinksAreFound(nodes: seq<Json>, k: nat)
    requires k <= |nodes|
    ensures forall i :: 0 <= i < k && IsSink(nodes, i) ==> nodes[i].fields["id"] in SinkIds(nodes, k)
    ensures forall v :: v in SinkIds(nodes, k) ==>
      exists i :: 0 <= i < k && IsSink(nodes, i) && v == nodes[i].fields["id"]
  {
    if k > 0 {
      SinksAreFound(nodes, k - 1);
    }
  }

  /** The lone sink is a synthesis node with a numeric id that no node of the level refers to. */
  lemma LoneSinkIsASink(nodes: seq<Json>) returns (i: nat)
    requires LoneSink(nodes).Some?
    ensures i < |nodes| && IsSink(nodes, i) && SinkNumber(nodes) == NodeId(nodes[i])
    ensures LoneSink(nodes) == Some(nodes[i].fields["id"])
  {
    SinksAreFound(nodes, |nodes|);
    assert SinkIds(nodes, |nodes|)[0] in SinkIds(nodes, |nodes|);
    i :| 0 <= i < |nodes| && IsSink(nodes, i) && SinkIds(nodes, |nodes|)[0] == nodes[i].fields["id"];
  }

  ghost predicate OnlySink(nodes: seq<Json>, k: nat, i: nat)
    requires k <= |nodes|
  {
    i < k && IsSink(nodes, i) && forall j :: 0 <= j < k && IsSink(nodes, j) ==> j == i
  }

  /** A sink is a synthesis node with an integer id that stands in no context list and under no branch. */
  lemma SinksAre(nodes: seq<Json>, i: nat)
    requires i < |nodes|
    ensures IsSink(nodes, i) <==>
      && nodes[i].Object? && Field(nodes[i].fields, "type") == Text("synthesis") && NodeId(nodes[i]).Some?
      && (forall j, k :: (0 <= j < |nodes| && nodes[j].Object? && Field(nodes[j].fields, "context_needed").List?
                          && 0 <= k < |Field(nodes[j].fields, "context_needed").items|) ==>
            AsInt(Field(nodes[j].fields, "context_needed").items[k]) != NodeId(nodes[i]))
      && (forall j, key, k :: (0 <= j < |nodes| && nodes[j].Object? && Field(nodes[j].fields, "branches").Object?
                               && key in Field(nodes[j].fields, "branches").fields
                               && Field(nodes[j].fields, "branches").fields[key].List?
                               && 0 <= k < |Field(nodes[j].fields, "branches").fields[key].items|) ==>
            AsInt(Field(nodes[j].fields, "branches").fields[key].items[k]) != NodeId(nodes[i]))
  {
    hide AsInt;
    if IsSink(nodes, i) {
      forall j, k | 0 <= j < |nodes| && nodes[j].Object? && Field(nodes[j].fields, "context_needed").List?
                    && 0 <= k < |Field(nodes[j].fields, "context_needed").items|
        ensures AsInt(Field(nodes[j].fields, "context_needed").items[k]) != NodeId(nodes[i])
      {
        assert !Refers(nodes[j], NodeId(nodes[i]).value);
      }
      forall j, key, k | 0 <= j < |nodes| && nodes[j].Object? && Field(nodes[j].fields, "branches").Object?
                         && key in Field(nodes[j].fields, "branches").fields
                         && Field(nodes[j].fields, "branches").fields[key].List?
                         && 0 <= k < |Field(nodes[j].fields, "branches").fields[key].items|
        ensures AsInt(Field(nodes[j].fields, "branches").fields[key].items[k]) != NodeId(nodes[i])
      {
        assert !Refers(nodes[j], NodeId(nodes[i]).value);
        assert !Names(Field(nodes[j].fields, "branches").fields[key], NodeId(nodes[i]).value);
      }
    }
  }

  /** There is a lone sink exactly when one position, and no other, holds a sink. */
  lemma LoneSinkIsUnique(nodes: seq<Json>)
    ensures LoneSink(nodes).Some? <==> exists i :: OnlySink(nodes, |nodes|, i)
  {
    CountSinks(nodes, |nodes|);
  }

  lemma {:induction false} CountSinks(nodes: seq<Json>, k: nat)
    requires k <= |nodes|
    ensures |SinkIds(nodes, k)| == 0 <==> forall j :: 0 <= j < k ==> !IsSink(nodes, j)
    ensures |SinkIds(nodes, k)| == 1 <==> exists i :: OnlySink(nodes, k, i)
  {
    hide IsSink;
    if k > 0 {
      CountSinks(nodes, k - 1);
      var before := SinkIds(nodes, k - 1);
      if IsSink(nodes, k - 1) {
        if |before| == 0 {
          assert OnlySink(nodes, k, k - 1);
        } else {
          var j :| 0 <= j < k - 1 && IsSink(nodes, j);
          assert forall i :: !OnlySink(nodes, k, i);
        }
      } else {
        assert SinkIds(nodes, k) == before;
        if |before| == 1 {
          var i: nat :| OnlySink(nodes, k - 1, i);
          assert OnlySink(nodes, k, i);
        }
        forall i: nat | OnlySink(nodes, k, i) ensures |before| == 1 {
          assert OnlySink(nodes, k - 1, i);
        }
      }
    }
  }

  ghost predicate Returns(E: Edges, from: int, to: int) {
    exists p :: IsWalk(E, p) && p[0] == from && Last(p) == to
  }

  /** A new edge keeps a graph acyclic exactly when the graph had no way back. */
  lemma NewEdgeKeepsAcyclic(E: Edges, a: int, b: int)
    ensures Acyclic(E + {(a, b)}) <==> Acyclic(E) && !Returns(E, b, a)
  {
    var F := E + {(a, b)};
    if Acyclic(F) {
      forall p | IsWalk(E, p) && |p| >= 2 ensures p[0] != Last(p) {
        assert IsWalk(F, p);
      }
    }
    if Returns(E, b, a) {
      var p :| IsWalk(E, p) && p[0] == b && Last(p) == a;
      var cycle := p + [b];
      assert IsWalk(F, cycle) && cycle[0] == Last(cycle);
    }
    if !Acyclic(F) {
      var p :| IsWalk(F, p) && |p| >= 2 && p[0] == Last(p);
      if i :| 0 <= i < |p| - 1 && p[i] == a && p[i + 1] == b {
        var around := p[i + 1..] + p[1..i + 1];
        RotatedIsWalk(F, p, i);
        WayBack(E, a, b, around);
      } else {
        assert IsWalk(E, p);
      }
    }
  }

  lemma RotatedIsWalk(E: Edges, p: seq<int>, i: nat)
    requires IsWalk(E, p) && i < |p| - 1 && p[0] == Last(p)
    ensures var around := p[i + 1..] + p[1..i + 1];
      IsWalk(E, around) && around[0] == p[i + 1] && Last(around) == p[i]
  {
    var n := |p| - i - 1;
    var around := p[i + 1..] + p[1..i + 1];
    forall j, k | 0 <= j && k == j + 1 < |around| ensures (around[j], around[k]) in E {
      if k < n {
        assert (p[i + 1 + j], p[i + 1 + k]) in E;
      } else if j >= n {
        assert (p[1 + j - n], p[1 + k - n]) in E;
      } else {
        assert around[j] == p[0] && around[k] == p[1];
      }
    }
  }

  lemma {:induction false} WayBack(E: Edges, a: int, b: int, p: seq<int>)
    requires IsWalk(E + {(a, b)}, p) && p[0] == b && Last(p) == a
    ensures Returns(E, b, a)
    decreases |p|
  {
    if i :| 0 <= i < |p| - 1 && p[i] == a && p[i + 1] == b {
      WayBack(E, a, b, p[..i + 1]);
    } else {
      assert IsWalk(E, p);
    }
  }

  lemma {:induction false} EdgesComeFromNodes(nodes: seq<Json>, e: (int, int))
    ensures e in LevelEdges(nodes) <==> exists i :: 0 <= i < |nodes| && e in NodeEdges(nodes[i])
  {
    hide NodeEdges;
    if nodes != [] {
      var rest := nodes[..|nodes| - 1];
      EdgesComeFromNodes(rest, e);
      if i :| 0 <= i < |rest| && e in NodeEdges(rest[i]) {
        assert e in NodeEdges(nodes[i]);
      }
      if i :| 0 <= i < |nodes| && e in NodeEdges(nodes[i]) {
        assert i < |rest| ==> rest[i] == nodes[i];
      }
    }
  }

  lemma AnswerEdges(nodes: seq<Json>)
    requires Ending(nodes) != []
    ensures SinkNumber(nodes).Some?
    ensures LevelEdges(nodes + Ending(nodes)) == LevelEdges(nodes) + {(SinkNumber(nodes).value, NextId(nodes))}
  {
    hide LoneSink;
    var i := LoneSinkIsASink(nodes);
    var answer := Ending(nodes)[0];
    var sink := SinkNumber(nodes).value;
    var context := Field(answer.fields, "context_needed");
    assert context.items[0] == LoneSink(nodes).value;
    assert NamedIn(context) == {sink};
    assert NodeEdges(answer) == {(sink, NextId(nodes))};
    assert (nodes + Ending(nodes))[..|nodes|] == nodes;
  }

  /** The edges of a level lead from its fresh id to its sink. */
  ghost predicate LeadsBack(nodes: seq<Json>) {
    SinkNumber(nodes).Some? && Returns(LevelEdges(nodes), NextId(nodes), SinkNumber(nodes).value)
  }

  /** A finished level is acyclic exactly when it was before and its edges do not lead from the fresh
      id back to the sink. */
  lemma EndingKeepsAcyclicExactlyWhen(nodes: seq<Json>)
    ensures Acyclic(LevelEdges(nodes + Ending(nodes))) <==>
      && Acyclic(LevelEdges(nodes))
      && (Ending(nodes) != [] ==> !LeadsBack(nodes))
  {
    hide Ending, LevelEdges, Acyclic, Returns, SinkNumber, NextId;
    if Ending(nodes) == [] {
      assert nodes + [] == nodes;
    } else {
      AnswerEdges(nodes);
      NewEdgeKeepsAcyclic(LevelEdges(nodes), SinkNumber(nodes).value, NextId(nodes));
    }
  }

  /** Where no node refers to the fresh id there is no way back from it. */
  lemma UnusedIdHasNoWayBack(nodes: seq<Json>)
    requires Ending(nodes) != [] && forall i :: 0 <= i < |nodes| ==> !Refers(nodes[i], NextId(nodes))
    ensures !LeadsBack(nodes)
  {
    var s := LoneSinkIsASink(nodes);
    NextIdIsFresh(nodes);
    var unused, sink := NextId(nodes), SinkNumber(nodes).value;
    if Returns(LevelEdges(nodes), unused, sink) {
      var p :| IsWalk(LevelEdges(nodes), p) && p[0] == unused && Last(p) == sink;
      assert nodes[s] in nodes;
      assert (p[0], p[1]) in LevelEdges(nodes);
      EdgesComeFromNodes(nodes, (p[0], p[1]));
      var i :| 0 <= i < |nodes| && (p[0], p[1]) in NodeEdges(nodes[i]);
      assert nodes[i] in nodes;
      EdgeFromUnusedId(nodes[i], unused, p[1]);
      assert false;
    }
  }

  lemma EdgeFromUnusedId(node: Json, u: int, v: int)
    requires (u, v) in NodeEdges(node)
    ensures Refers(node, u) || NodeId(node) == Some(u)
  {
  }

  ghost predicate AcyclicThroughout(p: Json) {
    IsPlan(p) ==>
      && Acyclic(LevelEdges(p.fields["nodes"].items))
      && forall i :: 0 <= i < |p.fields["nodes"].items| ==> AcyclicWithin(p.fields["nodes"].items[i])
  }

  ghost predicate AcyclicWithin(v: Json) {
    HasSubplan(v) ==> AcyclicThroughout(v.fields["subplan"])
  }

  /** On no level do the edges lead from the id of the node to be appended back to the sink. */
  ghost predicate NoWayBack(p: Json) {
    IsPlan(p) ==>
      && (Ending(p.fields["nodes"].items) != [] ==> !LeadsBack(p.fields["nodes"].items))
      && forall i :: 0 <= i < |p.fields["nodes"].items| ==> NoWayBackWithin(p.fields["nodes"].items[i])
  }

  ghost predicate NoWayBackWithin(v: Json) {
    HasSubplan(v) ==> NoWayBack(v.fields["subplan"])
  }

  /** A repaired plan is acyclic on every level exactly when the payload was and no level leads from
      its fresh id back to its sink. */
  lemma {:induction false} RepairKeepsAcyclicExactlyWhen(p: Json)
    ensures AcyclicThroughout(Repaired(p)) <==> AcyclicThroughout(p) && NoWayBack(p)
    decreases p
  {
    hide Repaired, Ending, LevelEdges, Acyclic, LeadsBack;
    if IsPlan(p) {
      RepairedNodes(p);
      var items, nodes := Nodes(p), Nodes(Repaired(p));
      forall i | 0 <= i < |items|
        ensures AcyclicWithin(nodes[i]) <==> AcyclicWithin(items[i]) && NoWayBackWithin(items[i])
      {
        if HasSubplan(items[i]) {
          RepairKeepsAcyclicExactlyWhen(items[i].fields["subplan"]);
        }
        RepairedSubplan(items[i]);
      }
      forall i | |items| <= i < |nodes| ensures AcyclicWithin(nodes[i]) {
        EndingIsAnswer(items);
        assert nodes[i] == nodes[|items|..][i - |items|];
      }
      EndingReadsOnlyTheSearched(items, nodes[..|items|]);
      EndingKeepsAcyclicExactlyWhen(nodes[..|items|]);
      assert nodes == nodes[..|items|] + Ending(items);
      assert Acyclic(LevelEdges(nodes)) <==> Acyclic(LevelEdges(items)) && (Ending(items) != [] ==> !LeadsBack(items));
      assert (forall i :: 0 <= i < |nodes| ==> AcyclicWithin(nodes[i])) <==>
        (forall i :: 0 <= i < |items| ==> AcyclicWithin(items[i]) && NoWayBackWithin(items[i]));
    } else {
      RepairedLeaf(p);
    }
  }

  lemma RepairedSubplan(v: Json)
    ensures HasSubplan(v) <==> HasSubplan(FinishNode(DescribeNode(v)))
    ensures HasSubplan(v) ==> FinishNode(DescribeNode(v)).fields["subplan"] == Repaired(v.fields["subplan"])
  {
    if HasSubplan(v) {
      StillAnObject(v.fields["subplan"]);
      StillAnObject(DescribePlan(v.fields["subplan"]));
    }
  }

  const LONELY := Object(map["id" := Int(1), "type" := Text("synthesis"), "context_needed" := List([Int(2)])])

  /** A synthesis node that asks for an id nobody has yet: the appended answer takes that id and
      closes a cycle. */
  lemma DanglingIdClosesACycle()
    ensures Acyclic(LevelEdges([LONELY])) && !Acyclic(LevelEdges([LONELY] + Ending([LONELY])))
  {
    hide LevelEdges, Ending, SinkNumber, NextId, Acyclic;
    LonelyIsTheSink();
    LonelyAsksForTwo();
    OneEdgeIsAcyclic(2, 1);
    assert IsWalk({(2, 1)}, [2, 1]) && [2, 1][0] == 2 && Last([2, 1]) == 1;
    EndingKeepsAcyclicExactlyWhen([LONELY]);
  }

  lemma LonelyAsksForTwo()
    ensures LevelEdges([LONELY]) == {(2, 1)} && forall id :: Refers(LONELY, id) ==> id == 2
  {
    var context := Field(LONELY.fields, "context_needed");
    assert context.items[0] == Int(2);
    assert NamedIn(context) == {2};
    assert NodeEdges(LONELY) == {(2, 1)};
    assert [LONELY][..0] == [];
  }

  lemma LonelyIsTheSink()
    ensures Ending([LONELY]) != [] && SinkNumber([LONELY]) == Some(1) && NextId([LONELY]) == 2
  {
    hide NodeEdges, LevelEdges;
    var nodes := [LONELY];
    LonelyAsksForTwo();
    assert IsSink(nodes, 0);
    assert SinkIds(nodes, 1) == [Int(1)];
    assert LoneSink(nodes) == Some(Int(1));
    assert !HasResult(nodes);
    assert nodes[..0] == [];
    assert HighestId(nodes) == Some(1);
  }

  lemma OneEdgeIsAcyclic(a: int, b: int)
    requires a != b
    ensures Acyclic({(a, b)})
  {
    forall p | IsWalk({(a, b)}, p) && |p| >= 2 ensures p[0] != Last(p) {
      assert (p[0], p[1]) in {(a, b)} && (p[|p| - 2], p[|p| - 1]) in {(a, b)};
    }
  }
}
