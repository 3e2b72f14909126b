/** From the wire form of a plan graph to a layered graph: edges are filtered, sorted and thinned out,
    and nodes are put on layers. */
module GraphBuild {
  import opened Wrappers
  import opened Graphs
  import opened GraphLayers
  import opened GraphLayout
  import opened Sorting

  datatype WireNode = WireNode(id: int, deps: seq<int>)

  datatype WireEdge = WireEdge(from: int, to: int, kind: string, caption: Option<string>)

  // ---------- Edge normalisation ----------

  function DepEdges(id: int, deps: seq<int>, ids: set<int>): seq<GraphEdge> {
    if deps == [] then []
    else
      var last := deps[|deps| - 1];
      DepEdges(id, deps[..|deps| - 1], ids) + if last in ids then [GraphEdge(last, id, Data, None)] else []
  }

  /** Without explicit edges the declared dependencies are the edges. */
  function AllDepEdges(nodes: seq<WireNode>, ids: set<int>): seq<GraphEdge> {
    if nodes == [] then []
    else
      var last := nodes[|nodes| - 1];
      AllDepEdges(nodes[..|nodes| - 1], ids) + DepEdges(last.id, last.deps, ids)
  }

  /** An edge as drawn; a caption of white space only is no caption. */
  function Drawn(e: WireEdge, isBlank: string -> bool): GraphEdge {
    GraphEdge(e.from, e.to, if e.kind == "control" then Control else Data,
              if e.caption.Some? && isBlank(e.caption.value) then None else e.caption)
  }

  /** Only "control" makes a control edge; a label of white space is dropped and any other kept. */
  lemma DrawnIs(e: WireEdge, isBlank: string -> bool)
    ensures Drawn(e, isBlank).from == e.from && Drawn(e, isBlank).to == e.to
    ensures Drawn(e, isBlank).kind == Control <==> e.kind == "control"
    ensures Drawn(e, isBlank).kind == Data <==> e.kind != "control"
    ensures Drawn(e, isBlank).caption == None <==> e.caption == None || isBlank(e.caption.value)
    ensures Drawn(e, isBlank).caption.Some? ==> Drawn(e, isBlank).caption == e.caption
  {
  }

  function ExplicitEdges(edges: seq<WireEdge>, ids: set<int>, isBlank: string -> bool): seq<GraphEdge> {
    if edges == [] then []
    else
      var last := edges[|edges| - 1];
      ExplicitEdges(edges[..|edges| - 1], ids, isBlank)
      + if last.from in ids && last.to in ids then [Drawn(last, isBlank)] else []
  }

  function Wanted(nodes: seq<WireNode>, edges: seq<WireEdge>, ids: set<int>, isBlank: string -> bool): seq<GraphEdge> {
    if edges == [] then AllDepEdges(nodes, ids) else ExplicitEdges(edges, ids, isBlank)
  }

  /** Order by source, then target, data before control; captions do not count. */
  predicate NotAfter(a: GraphEdge, b: GraphEdge) {
    a.from < b.from || (a.from == b.from && (a.to < b.to || (a.to == b.to && (a.kind.Data? || b.kind.Control?))))
  }

  /** Drops every edge that equals the last one kept. */
  function Dedup(s: seq<GraphEdge>): seq<GraphEdge> {
    if s == [] then []
    else
      var kept, last := Dedup(s[..|s| - 1]), s[|s| - 1];
      if kept != [] && kept[|kept| - 1] == last then kept else kept + [last]
  }

  function NormalizeEdges(nodes: seq<WireNode>, edges: seq<WireEdge>, ids: set<int>,
                          isBlank: string -> bool): seq<GraphEdge> {
    Dedup(Sort(NotAfter, Wanted(nodes, edges, ids, isBlank)))
  }

  ghost predicate NeighboursDiffer(s: seq<GraphEdge>) {
    forall i, j :: 0 <= i && j == i + 1 < |s| ==> s[i] != s[j]
  }

  lemma {:induction false} DedupKeepsEdges(s: seq<GraphEdge>)
    requires InOrder(NotAfter, s)
    ensures InOrder(NotAfter, Dedup(s)) && NeighboursDiffer(Dedup(s))
    ensures forall e :: e in Dedup(s) <==> e in s
    ensures s != [] ==> Dedup(s) != [] && Dedup(s)[|Dedup(s)| - 1] == s[|s| - 1]
  {
    if s != [] {
      var init, last := s[..|s| - 1], s[|s| - 1];
      DedupKeepsEdges(init);
      assert s == init + [last];
      forall e | e in Dedup(init) ensures NotAfter(e, last) {
        assert e in init;
      }
    }
  }

  /** Normalisation sorts, leaves no equal neighbours, and neither loses nor invents an edge. */
  lemma NormalizedIsSortedAndThinned(nodes: seq<WireNode>, edges: seq<WireEdge>, ids: set<int>, isBlank: string -> bool)
    ensures var out := NormalizeEdges(nodes, edges, ids, isBlank);
      && InOrder(NotAfter, out) && NeighboursDiffer(out)
      && (forall i, j :: 0 <= i < j < |out| ==>
            || out[i].from < out[j].from
            || (out[i].from == out[j].from && out[i].to < out[j].to)
            || (out[i].from == out[j].from && out[i].to == out[j].to
                && !(out[i].kind == Control && out[j].kind == Data)))
      && forall e :: e in out <==> e in Wanted(nodes, edges, ids, isBlank)
  {
    var wanted := Wanted(nodes, edges, ids, isBlank);
    SortOrders(NotAfter, wanted);
    DedupKeepsEdges(Sort(NotAfter, wanted));
  }

  /** Edges of one kind between the same two nodes. */
  predicate SameKey(a: GraphEdge, b: GraphEdge) {
    a.from == b.from && a.to == b.to && a.kind == b.kind
  }

  function SameKeyAs(a: GraphEdge): GraphEdge -> bool {
    b => SameKey(a, b)
  }

  /** No item returns after another one. */
  ghost predicate NoneReturns(s: seq<GraphEdge>) {
    forall i, j, k :: 0 <= i < j < k < |s| && s[i] == s[k] ==> s[j] == s[i]
  }

  /** Among the edges of one kind between the same nodes no caption returns after another. */
  ghost predicate CaptionsDoNotReturn(s: seq<GraphEdge>) {
    forall e :: NoneReturns(Matching(s, SameKeyAs(e)))
  }

  lemma {:induction false} MatchingIs(s: seq<GraphEdge>, e: GraphEdge)
    ensures forall x :: x in Matching(s, SameKeyAs(e)) <==> x in s && SameKey(e, x)
  {
    if s != [] {
      MatchingIs(s[..|s| - 1], e);
      assert s == s[..|s| - 1] + [s[|s| - 1]];
    }
  }

  /** In key order, the last edge ends the group of its key. */
  lemma LastOfGroup(s: seq<GraphEdge>, last: GraphEdge)
    requires InOrder(NotAfter, s + [last])
    ensures var group := Matching(s, SameKeyAs(last));
      group != [] ==> s != [] && group[|group| - 1] == s[|s| - 1]
  {
    var group := Matching(s, SameKeyAs(last));
    if group != [] {
      MatchingIs(s, last);
      assert group[0] in s && SameKey(last, group[0]);
      var i :| 0 <= i < |s| && s[i] == group[0];
      var t := s + [last];
      assert t[i] == s[i] && t[|s| - 1] == s[|s| - 1] && t[|s|] == last;
      assert i < |s| - 1 ==> NotAfter(t[i], t[|s| - 1]);
      assert NotAfter(t[|s| - 1], t[|s|]);
      assert SameKey(last, s[|s| - 1]);
    }
  }

  lemma NoneReturnsGrows(s: seq<GraphEdge>, last: GraphEdge)
    ensures NoneReturns(s + [last]) <==> NoneReturns(s) && (last in s ==> s[|s| - 1] == last)
  {
    var t := s + [last];
    assert forall i :: 0 <= i < |s| ==> t[i] == s[i];
    if NoneReturns(t) && last in s {
      var i :| 0 <= i < |s| && s[i] == last;
      assert t[i] == t[|s|] && (i < |s| - 1 ==> t[|s| - 1] == t[i]);
    }
    if NoneReturns(s) && (last in s ==> s[|s| - 1] == last) {
      forall i, j, k | 0 <= i < j < k < |t| && t[i] == t[k]
        ensures t[j] == t[i]
      {
        if k == |s| {
          assert s[i] in s && s[|s| - 1] == last;
          assert j < |s| - 1 ==> s[j] == s[i];
        } else {
          assert s[i] == s[k];
        }
      }
    }
  }

  lemma {:induction false} DedupLeavesNoneExactlyWhen(s: seq<GraphEdge>)
    requires InOrder(NotAfter, s)
    ensures NoRepeats(Dedup(s)) <==> CaptionsDoNotReturn(s)
  {
    hide *;
    if s == [] {
      NoEdgesAtAll();
    } else {
      var init, last := s[..|s| - 1], s[|s| - 1];
      assert s == init + [last];
      InitInOrder(init, last);
      DedupLeavesNoneExactlyWhen(init);
      DedupKeepsEdges(init);
      DedupOneMore(init, last);
      NoRepeatsGrows(Dedup(init), last);
      OtherGroupsStay(init, last);
      NoneReturnsGrows(Matching(init, SameKeyAs(last)), last);
      LastOfGroup(init, last);
      MatchingIs(init, last);
      GroupStays(init, last);
    }
  }

  lemma NoEdgesAtAll()
    ensures NoRepeats(Dedup([])) && CaptionsDoNotReturn([])
  {
    assert forall e :: Matching([], SameKeyAs(e)) == [];
  }

  lemma DedupOneMore(init: seq<GraphEdge>, last: GraphEdge)
    ensures var kept := Dedup(init);
      Dedup(init + [last]) == if kept != [] && kept[|kept| - 1] == last then kept else kept + [last]
  {
    assert (init + [last])[..|init|] == init;
  }

  lemma InitInOrder(init: seq<GraphEdge>, last: GraphEdge)
    requires InOrder(NotAfter, init + [last])
    ensures InOrder(NotAfter, init) && SameKey(last, last)
  {
    var s := init + [last];
    assert forall i :: 0 <= i < |init| ==> s[i] == init[i];
  }

  lemma NoRepeatsGrows(s: seq<GraphEdge>, last: GraphEdge)
    ensures NoRepeats(s + [last]) <==> NoRepeats(s) && last !in s
  {
    var t := s + [last];
    assert forall i :: 0 <= i < |s| ==> t[i] == s[i] && s[i] in s;
    if NoRepeats(t) {
      forall i | 0 <= i < |s|
        ensures s[i] != last
      {
        assert t[i] != t[|s|];
      }
    }
  }

  lemma GroupStays(s: seq<GraphEdge>, e: GraphEdge)
    ensures CaptionsDoNotReturn(s) ==> NoneReturns(Matching(s, SameKeyAs(e)))
  {
  }

  lemma OtherGroupsStay(init: seq<GraphEdge>, last: GraphEdge)
    ensures CaptionsDoNotReturn(init + [last]) <==>
      CaptionsDoNotReturn(init) && NoneReturns(Matching(init, SameKeyAs(last)) + [last])
  {
    var s := init + [last];
    assert s[..|init|] == init;
    forall e
      ensures Matching(s, SameKeyAs(e)) == Matching(init, SameKeyAs(e)) + if SameKey(e, last) then [last] else []
    {
    }
    forall e | SameKey(e, last)
      ensures Matching(init, SameKeyAs(e)) == Matching(init, SameKeyAs(last))
    {
      SameGroup(init, e, last);
    }
    if CaptionsDoNotReturn(init) && NoneReturns(Matching(init, SameKeyAs(last)) + [last]) {
      forall e
        ensures NoneReturns(Matching(s, SameKeyAs(e)))
      {
        assert Matching(init, SameKeyAs(e)) + [] == Matching(init, SameKeyAs(e));
      }
    }
    if CaptionsDoNotReturn(s) {
      forall e
        ensures NoneReturns(Matching(init, SameKeyAs(e)))
      {
        NoneReturnsGrows(Matching(init, SameKeyAs(e)), last);
        assert Matching(init, SameKeyAs(e)) + [] == Matching(init, SameKeyAs(e));
      }
    }
  }

  lemma {:induction false} SameGroup(s: seq<GraphEdge>, a: GraphEdge, b: GraphEdge)
    requires SameKey(a, b)
    ensures Matching(s, SameKeyAs(a)) == Matching(s, SameKeyAs(b))
  {
    if s != [] {
      SameGroup(s[..|s| - 1], a, b);
    }
  }

  /** No edge is left twice exactly when, among the wanted edges of one kind between the same nodes, no
      caption returns after another: only neighbours in key order are compared. */
  lemma NoDuplicatesAreLeftExactlyWhen(nodes: seq<WireNode>, edges: seq<WireEdge>, ids: set<int>,
                                       isBlank: string -> bool)
    ensures NoRepeats(NormalizeEdges(nodes, edges, ids, isBlank)) <==>
      CaptionsDoNotReturn(Wanted(nodes, edges, ids, isBlank))
  {
    var wanted := Wanted(nodes, edges, ids, isBlank);
    SortOrders(NotAfter, wanted);
    DedupLeavesNoneExactlyWhen(Sort(NotAfter, wanted));
    forall e
      ensures Matching(Sort(NotAfter, wanted), SameKeyAs(e)) == Matching(wanted, SameKeyAs(e))
    {
      SortIsStable(NotAfter, wanted, SameKeyAs(e));
    }
  }

  /** Edges taken from dependencies are never left twice. */
  lemma DependencyEdgesAreLeftOnce(nodes: seq<WireNode>, ids: set<int>, isBlank: string -> bool)
    ensures NoRepeats(NormalizeEdges(nodes, [], ids, isBlank))
  {
    var wanted := Wanted(nodes, [], ids, isBlank);
    forall e
      ensures NoneReturns(Matching(wanted, SameKeyAs(e)))
    {
      MatchingIs(wanted, e);
      var group := Matching(wanted, SameKeyAs(e));
      forall x | x in group
        ensures x == GraphEdge(e.from, e.to, e.kind, None)
      {
        AllDepEdgesAre(nodes, ids, x);
      }
      assert forall i :: 0 <= i < |group| ==> group[i] in group;
    }
    NoDuplicatesAreLeftExactlyWhen(nodes, [], ids, isBlank);
  }

  /** Captions a, b, a between the same nodes: the edge captioned a is left twice. */
  lemma ReturningCaptionIsLeftTwice(isBlank: string -> bool)
    requires !isBlank("a") && !isBlank("b")
    ensures var a, b := WireEdge(1, 2, "data", Some("a")), WireEdge(1, 2, "data", Some("b"));
      !NoRepeats(NormalizeEdges([], [a, b, a], {1, 2}, isBlank))
  {
    var a, b := WireEdge(1, 2, "data", Some("a")), WireEdge(1, 2, "data", Some("b"));
    var x, y := Drawn(a, isBlank), Drawn(b, isBlank);
    assert SameKey(x, y) && x != y;
    hide *;
    ThreeDrawn(a, b, {1, 2}, isBlank);
    NoDuplicatesAreLeftExactlyWhen([], [a, b, a], {1, 2}, isBlank);
    ThreeReturn(x, y);
  }

  lemma ThreeDrawn(a: WireEdge, b: WireEdge, ids: set<int>, isBlank: string -> bool)
    requires a.from in ids && a.to in ids && b.from in ids && b.to in ids
    ensures Wanted([], [a, b, a], ids, isBlank) == [Drawn(a, isBlank), Drawn(b, isBlank), Drawn(a, isBlank)]
  {
    hide Drawn;
    assert [a, b, a][..2] == [a, b] && [a, b][..1] == [a] && [a][..0] == [];
    assert ExplicitEdges([a], ids, isBlank) == [Drawn(a, isBlank)];
    assert ExplicitEdges([a, b], ids, isBlank) == [Drawn(a, isBlank), Drawn(b, isBlank)];
  }

  lemma ThreeReturn(x: GraphEdge, y: GraphEdge)
    requires SameKey(x, y) && x != y
    ensures !CaptionsDoNotReturn([x, y, x])
  {
    assert [x, y, x][..2] == [x, y] && [x, y][..1] == [x] && [x][..0] == [];
    assert Matching([x], SameKeyAs(x)) == [x];
    assert Matching([x, y], SameKeyAs(x)) == [x, y];
    var group := Matching([x, y, x], SameKeyAs(x));
    assert group == [x, y, x];
    assert group[0] == group[2] && group[1] != group[0];
  }

  lemma {:induction false} DepEdgesAre(id: int, deps: seq<int>, ids: set<int>, e: GraphEdge)
    ensures e in DepEdges(id, deps, ids) <==> e.from in deps && e.from in ids && e == GraphEdge(e.from, id, Data, None)
  {
    if deps != [] {
      DepEdgesAre(id, deps[..|deps| - 1], ids, e);
      assert deps == deps[..|deps| - 1] + [deps[|deps| - 1]];
    }
  }

  lemma {:induction false} AllDepEdgesAre(nodes: seq<WireNode>, ids: set<int>, e: GraphEdge)
    ensures e in AllDepEdges(nodes, ids) <==>
      e.from in ids && e.kind.Data? && e.caption.None? && exists n :: n in nodes && n.id == e.to && e.from in n.deps
  {
    if nodes != [] {
      var init, last := nodes[..|nodes| - 1], nodes[|nodes| - 1];
      AllDepEdgesAre(init, ids, e);
      DepEdgesAre(last.id, last.deps, ids, e);
      assert nodes == init + [last];
    }
  }

  lemma {:induction false} ExplicitEdgesAre(edges: seq<WireEdge>, ids: set<int>, isBlank: string -> bool, e: GraphEdge)
    ensures e in ExplicitEdges(edges, ids, isBlank) <==>
      e.from in ids && e.to in ids && exists w :: w in edges && Drawn(w, isBlank) == e
  {
    if edges != [] {
      var init, last := edges[..|edges| - 1], edges[|edges| - 1];
      ExplicitEdgesAre(init, ids, isBlank, e);
      assert edges == init + [last];
    }
  }

  function Ids(nodes: seq<WireNode>): seq<int> {
    seq(|nodes|, i requires 0 <= i < |nodes| => nodes[i].id)
  }

  /** The graph a wire plan stands for: its explicit edges if it has any, else its dependencies, and
      only those between its nodes. */
  ghost predicate IsWireEdge(nodes: seq<WireNode>, edges: seq<WireEdge>, u: int, v: int) {
    && u in Ids(nodes) && v in Ids(nodes)
    && if edges == [] then exists n :: n in nodes && n.id == v && u in n.deps
       else exists w :: w in edges && w.from == u && w.to == v
  }

  lemma NormalizedPairs(nodes: seq<WireNode>, edges: seq<WireEdge>, isBlank: string -> bool)
    ensures var E := EdgePairs(NormalizeEdges(nodes, edges, Elems(Ids(nodes)), isBlank));
      && Closed(Elems(Ids(nodes)), E) && forall u, v :: (u, v) in E <==> IsWireEdge(nodes, edges, u, v)
  {
    var ids := Elems(Ids(nodes));
    var out := NormalizeEdges(nodes, edges, ids, isBlank);
    NormalizedIsSortedAndThinned(nodes, edges, ids, isBlank);
    forall e | e in out ensures IsWireEdge(nodes, edges, e.from, e.to) {
      if edges == [] {
        AllDepEdgesAre(nodes, ids, e);
        var n :| n in nodes && n.id == e.to && e.from in n.deps;
        IdIsListed(nodes, n);
      } else {
        ExplicitEdgesAre(edges, ids, isBlank, e);
      }
    }
    forall u, v | IsWireEdge(nodes, edges, u, v) ensures (u, v) in EdgePairs(out) {
      if edges == [] {
        var e := GraphEdge(u, v, Data, None);
        AllDepEdgesAre(nodes, ids, e);
        assert e in out;
      } else {
        var w :| w in edges && w.from == u && w.to == v;
        ExplicitEdgesAre(edges, ids, isBlank, Drawn(w, isBlank));
        assert Drawn(w, isBlank) in out;
      }
    }
  }

  lemma IdIsListed(nodes: seq<WireNode>, n: WireNode)
    requires n in nodes
    ensures n.id in Ids(nodes)
  {
    var i :| 0 <= i < |nodes| && nodes[i] == n;
    assert Ids(nodes)[i] == n.id;
  }

  // ---------- Building ----------

  datatype Graph = Graph(nodes: seq<GraphNode>, edges: seq<GraphEdge>)

  /** Every wire plan can be built; an acyclic one has its nodes on longest-path layers. */
  method Build(nodes: seq<WireNode>, edges: seq<WireEdge>, isBlank: string -> bool) returns (g: Graph)
    ensures g.edges == NormalizeEdges(nodes, edges, Elems(Ids(nodes)), isBlank)
    ensures |g.nodes| == |nodes| && forall i :: 0 <= i < |nodes| ==> g.nodes[i].id == nodes[i].id
    ensures Acyclic(EdgePairs(g.edges)) ==> forall n :: n in g.nodes ==> LongestTo(EdgePairs(g.edges), n.id, n.layer)
  {
    var graphEdges := NormalizeEdges(nodes, edges, Elems(Ids(nodes)), isBlank);
    NormalizedPairs(nodes, edges, isBlank);
    assert forall e :: e in graphEdges ==> (e.from, e.to) in EdgePairs(graphEdges);
    var graphNodes := BuildLayers(Ids(nodes), graphEdges);
    g := Graph(graphNodes, graphEdges);
  }

  /** Whatever is built from an acyclic plan with distinct positive ids can be laid out, every edge of it. */
  lemma BuiltGraphsCanBeLaidOut(nodes: seq<WireNode>, edges: seq<WireEdge>, isBlank: string -> bool, g: Graph)
    requires forall i, j :: 0 <= i < j < |nodes| ==> nodes[i].id != nodes[j].id
    requires forall n :: n in nodes ==> n.id > 0
    requires g.edges == NormalizeEdges(nodes, edges, Elems(Ids(nodes)), isBlank)
    requires |g.nodes| == |nodes| && forall i :: 0 <= i < |nodes| ==> g.nodes[i].id == nodes[i].id
    requires Acyclic(EdgePairs(g.edges)) && forall n :: n in g.nodes ==> LongestTo(EdgePairs(g.edges), n.id, n.layer)
    ensures IsPlanGraph(g.nodes, g.edges) && forall e :: e in g.edges ==> Climbs(g.nodes, e)
  {
    NormalizedPairs(nodes, edges, isBlank);
    forall id | id in Ids(nodes) ensures HasNode(g.nodes, id) {
      var i :| 0 <= i < |Ids(nodes)| && Ids(nodes)[i] == id;
      assert g.nodes[i] in g.nodes && g.nodes[i].id == id;
    }
    forall e | e in g.edges ensures HasNode(g.nodes, e.from) && HasNode(g.nodes, e.to) {
      assert (e.from, e.to) in EdgePairs(g.edges);
    }
    forall n | n in g.nodes ensures n.id > 0 {
      var i :| 0 <= i < |g.nodes| && g.nodes[i] == n;
      assert nodes[i] in nodes;
    }
    forall e | e in g.edges ensures Climbs(g.nodes, e) {
      LayersClimb(g.nodes, g.edges, e);
    }
  }
}
