/** Layered layout: long edges are split at dummy vertices so that every connector joins adjacent
    layers, and the items of each layer are placed side by side. */
module GraphLayout {
  import opened Wrappers
  import opened Graphs
  import opened GraphLayers

  const BOX_W := 24
  const BOX_H := 4
  const COL_GAP := 4
  const CHANNEL := 2

  datatype Segment = Segment(from: int, to: int, kind: EdgeKind, caption: Option<string>)

  // ---------- Splitting edges ----------

  /** The layout under construction: vertex layers, the items of each layer, the connectors, and the
      id of the next dummy. */
  datatype Split = Split(vlayer: map<int, nat>, items: seq<seq<int>>, segments: seq<Segment>, nextDummy: int)

  /** The connectors of an edge that climbs span layers, through the dummies first, first - 1, ... */
  function ChainSegments(e: GraphEdge, span: nat, first: int): (r: seq<Segment>)
    ensures |r| == span
  {
    seq(span, i => Segment(
      if i == 0 then e.from else first - (i - 1),
      if i == span - 1 then e.to else first - i,
      e.kind,
      if i == span - 1 then e.caption else None))
  }

  /** Every item sits in the row of its layer, once; dummies still to come are unused. */
  ghost predicate Placed(vlayer: map<int, nat>, items: seq<seq<int>>, nextDummy: int) {
    && (forall v :: v in vlayer ==> vlayer[v] < |items| && v in items[vlayer[v]])
    && (forall l, v :: 0 <= l < |items| && v in items[l] ==> v in vlayer && vlayer[v] == l)
    && (forall l :: 0 <= l < |items| ==> Distinct(items[l]))
    && nextDummy < 0
    && (forall v :: v in vlayer ==> v > nextDummy)
  }

  lemma AddDummy(vlayer: map<int, nat>, items: seq<seq<int>>, dummy: int, layer: nat)
    requires Placed(vlayer, items, dummy) && layer < |items|
    ensures Placed(vlayer[dummy := layer], items[layer := items[layer] + [dummy]], dummy - 1)
  {
    var row := items[layer] + [dummy];
    forall l | 0 <= l < |items|
      ensures dummy !in items[l]
    {
      assert dummy !in vlayer;
    }
    assert forall v :: v in row <==> v in items[layer] || v == dummy;
    assert Distinct(row);
  }

  /** The vertex layers grow by the edge's dummies, one layer apart, starting below its source. */
  ghost predicate Extends(before: map<int, nat>, after: map<int, nat>, first: int, layer: int, count: int) {
    && (forall v :: v in before ==> v in after && after[v] == before[v])
    && (forall v :: v in after ==> v in before || first - count < v <= first)
    && (forall d :: first - count < d <= first ==> d in after && after[d] == layer + (first - d))
  }

  lemma ExtendByOne(before: map<int, nat>, after: map<int, nat>, first: int, layer: int, count: nat, row: nat)
    requires Extends(before, after, first, layer, count) && row == layer + count
    requires first - count !in after && first - count !in before
    ensures Extends(before, after[first - count := row], first, layer, count + 1)
  {
  }

  /** The rows of the layers that an edge skips have each been given one of its dummies. */
  ghost predicate RowsGrew(before: seq<seq<int>>, after: seq<seq<int>>, first: int, layer: int, count: int) {
    && |after| == |before|
    && forall l :: 0 <= l < |before| ==> after[l] == before[l] + DummyOn(first, layer, count, l)
  }

  /** The dummy, if any, that a run of dummies starting at a layer has in row l. */
  function DummyOn(first: int, layer: int, count: int, l: int): seq<int> {
    if layer <= l < layer + count then [first - (l - layer)] else []
  }

  lemma RowGrows(before: seq<seq<int>>, after: seq<seq<int>>, first: int, layer: int, count: nat, row: nat)
    requires RowsGrew(before, after, first, layer, count) && row == layer + count < |after|
    ensures RowsGrew(before, after[row := after[row] + [first - count]], first, layer, count + 1)
  {
    assert after[row] == before[row] + [];
  }

  /** Adds the dummies of one edge layer by layer, connecting each to the vertex before it. */
  method SplitEdge(s: Split, e: GraphEdge) returns (r: Split)
    requires Placed(s.vlayer, s.items, s.nextDummy)
    ensures Placed(r.vlayer, r.items, r.nextDummy)
    ensures RowsGrew(s.items, r.items, s.nextDummy, BelowSource(s.vlayer, e), DummyCount(s.vlayer, e))
    ensures r.segments == s.segments + EdgeSegments(s.vlayer, e, s.nextDummy)
    ensures r.nextDummy == s.nextDummy - DummyCount(s.vlayer, e)
    ensures Extends(s.vlayer, r.vlayer, s.nextDummy, BelowSource(s.vlayer, e), DummyCount(s.vlayer, e))
  {
    hide *;
    r := s;
    WhatIsOwed(s, e);
    if e.from !in s.vlayer || e.to !in s.vlayer || s.vlayer[e.to] <= s.vlayer[e.from] {
      return;
    }
    var fromLayer, toLayer := s.vlayer[e.from], s.vlayer[e.to];
    ghost var chain := ChainSegments(e, toLayer - fromLayer, s.nextDummy);
    var prev := e.from;
    NothingAdded(s, fromLayer + 1);
    assert chain[..0] == [] && s.segments + [] == s.segments;
    for layer := fromLayer + 1 to toLayer
      invariant Placed(r.vlayer, r.items, r.nextDummy) && |r.items| == |s.items|
      invariant RowsGrew(s.items, r.items, s.nextDummy, fromLayer + 1, layer - fromLayer - 1)
      invariant r.nextDummy == s.nextDummy - (layer - fromLayer - 1)
      invariant prev == if layer == fromLayer + 1 then e.from else r.nextDummy + 1
      invariant r.segments == s.segments + chain[..layer - fromLayer - 1]
      invariant Extends(s.vlayer, r.vlayer, s.nextDummy, fromLayer + 1, layer - fromLayer - 1)
    {
      var dummy := r.nextDummy;
      ghost var k := layer - fromLayer - 1;
      ChainGrows(e, toLayer - fromLayer, s.nextDummy, k);
      AddDummy(r.vlayer, r.items, dummy, layer);
      DummyIsNew(s, r.vlayer, r.items, dummy);
      ExtendByOne(s.vlayer, r.vlayer, s.nextDummy, fromLayer + 1, k, layer);
      RowGrows(s.items, r.items, s.nextDummy, fromLayer + 1, k, layer);
      r := Split(
        r.vlayer[dummy := layer],
        r.items[layer := r.items[layer] + [dummy]],
        r.segments + [Segment(prev, dummy, e.kind, None)],
        dummy - 1);
      prev := dummy;
    }
    ChainGrows(e, toLayer - fromLayer, s.nextDummy, toLayer - fromLayer - 1);
    r := r.(segments := r.segments + [Segment(prev, e.to, e.kind, e.caption)]);
  }

  lemma ChainGrows(e: GraphEdge, span: nat, first: int, k: nat)
    requires k < span
    ensures var chain := ChainSegments(e, span, first);
      var last := k == span - 1;
      && chain[..k + 1] == chain[..k] + [Segment(if k == 0 then e.from else first - (k - 1),
           if last then e.to else first - k, e.kind, if last then e.caption else None)]
      && (last ==> chain[..k + 1] == chain)
  {
    var chain := ChainSegments(e, span, first);
    assert chain[..k + 1] == chain[..k] + [chain[k]];
  }

  /** An edge that does not climb adds nothing; one that does adds a chain of its span. */
  lemma WhatIsOwed(s: Split, e: GraphEdge)
    requires Placed(s.vlayer, s.items, s.nextDummy)
    ensures var climbs := e.from in s.vlayer && e.to in s.vlayer && s.vlayer[e.from] < s.vlayer[e.to];
      && (!climbs ==> EdgeSegments(s.vlayer, e, s.nextDummy) == [] && DummyCount(s.vlayer, e) == 0
                      && s.segments + [] == s.segments
                      && Extends(s.vlayer, s.vlayer, s.nextDummy, BelowSource(s.vlayer, e), 0)
                      && RowsGrew(s.items, s.items, s.nextDummy, BelowSource(s.vlayer, e), 0))
      && (climbs ==> var span := s.vlayer[e.to] - s.vlayer[e.from];
                     && EdgeSegments(s.vlayer, e, s.nextDummy) == ChainSegments(e, span, s.nextDummy)
                     && DummyCount(s.vlayer, e) == span - 1 && BelowSource(s.vlayer, e) == s.vlayer[e.from] + 1
                     && s.vlayer[e.to] < |s.items|)
  {
  }

  lemma NothingAdded(s: Split, layer: int)
    ensures Extends(s.vlayer, s.vlayer, s.nextDummy, layer, 0) && RowsGrew(s.items, s.items, s.nextDummy, layer, 0)
  {
  }

  lemma DummyIsNew(s: Split, vlayer: map<int, nat>, items: seq<seq<int>>, dummy: int)
    requires Placed(s.vlayer, s.items, s.nextDummy) && Placed(vlayer, items, dummy) && dummy <= s.nextDummy
    ensures dummy !in vlayer && dummy !in s.vlayer
  {
  }

  function BelowSource(vlayer: map<int, nat>, e: GraphEdge): int {
    if e.from in vlayer then vlayer[e.from] + 1 else 0
  }

  function DummyCount(vlayer: map<int, nat>, e: GraphEdge): nat {
    if e.from in vlayer && e.to in vlayer && vlayer[e.from] < vlayer[e.to] then vlayer[e.to] - vlayer[e.from] - 1 else 0
  }

  function EdgeSegments(vlayer: map<int, nat>, e: GraphEdge, first: int): seq<Segment> {
    if e.from in vlayer && e.to in vlayer && vlayer[e.from] < vlayer[e.to]
    then ChainSegments(e, vlayer[e.to] - vlayer[e.from], first)
    else []
  }

  // ---------- All edges ----------

  /** Nodes with distinct positive ids, and edges between them. */
  ghost predicate IsPlanGraph(nodes: seq<GraphNode>, edges: seq<GraphEdge>) {
    && (forall i, j :: 0 <= i < j < |nodes| ==> nodes[i].id != nodes[j].id)
    && (forall n :: n in nodes ==> n.id > 0)
    && (forall e :: e in edges ==> HasNode(nodes, e.from) && HasNode(nodes, e.to))
  }

  ghost predicate HasNode(nodes: seq<GraphNode>, id: int) {
    exists n :: n in nodes && n.id == id
  }

  /** The id of the first dummy that the next edge after these would use. */
  function FirstDummy(vlayer: map<int, nat>, edges: seq<GraphEdge>): int {
    if edges == [] then -1
    else FirstDummy(vlayer, edges[..|edges| - 1]) - DummyCount(vlayer, edges[|edges| - 1])
  }

  /** The chains of all edges, one after the other. */
  function AllSegments(vlayer: map<int, nat>, edges: seq<GraphEdge>): seq<Segment> {
    if edges == [] then []
    else
      var before := edges[..|edges| - 1];
      AllSegments(vlayer, before) + EdgeSegments(vlayer, edges[|edges| - 1], FirstDummy(vlayer, before))
  }

  /** A connector path for the edge: it starts and ends where the edge does, every connector goes down
      exactly one layer, all inner vertices are dummies, and only the last connector is captioned. */
  ghost predicate Routes(vlayer: map<int, nat>, e: GraphEdge, chain: seq<Segment>) {
    && |chain| >= 1 && chain[0].from == e.from && chain[|chain| - 1].to == e.to
    && (forall i, j :: 0 <= i && j == i + 1 < |chain| ==> chain[i].to == chain[j].from < 0)
    && (forall i :: 0 <= i < |chain| ==>
          && chain[i].from in vlayer && chain[i].to in vlayer
          && vlayer[chain[i].to] == vlayer[chain[i].from] + 1
          && chain[i].kind == e.kind
          && chain[i].caption == if i == |chain| - 1 then e.caption else None)
  }

  ghost predicate DummiesAt(vlayer: map<int, nat>, first: int, layer: int, count: int) {
    forall d :: first - count < d <= first ==> d in vlayer && vlayer[d] == layer + (first - d)
  }

  lemma ChainRoutes(vlayer: map<int, nat>, e: GraphEdge, first: int)
    requires e.from in vlayer && e.to in vlayer && vlayer[e.from] < vlayer[e.to] && first < 0
    requires DummiesAt(vlayer, first, vlayer[e.from] + 1, vlayer[e.to] - vlayer[e.from] - 1)
    ensures Routes(vlayer, e, ChainSegments(e, vlayer[e.to] - vlayer[e.from], first))
  {
  }

  ghost predicate Agrees(before: map<int, nat>, after: map<int, nat>) {
    forall v :: v in before ==> v in after && after[v] == before[v]
  }

  /** Every climbing edge among these has its dummies in place. */
  ghost predicate AllDummiesAt(start: map<int, nat>, vlayer: map<int, nat>, edges: seq<GraphEdge>) {
    forall k :: 0 <= k < |edges| ==>
      DummiesAt(vlayer, FirstDummy(start, edges[..k]), BelowSource(start, edges[k]), DummyCount(start, edges[k]))
  }

  lemma OneMoreEdge(start: map<int, nat>, s: Split, r: Split, edges: seq<GraphEdge>, k: nat)
    requires k < |edges| && edges[k].from in start && edges[k].to in start
    requires Agrees(start, s.vlayer) && AllDummiesAt(start, s.vlayer, edges[..k])
    requires s.nextDummy == FirstDummy(start, edges[..k]) && s.segments == AllSegments(start, edges[..k])
    requires r.segments == s.segments + EdgeSegments(s.vlayer, edges[k], s.nextDummy)
    requires r.nextDummy == s.nextDummy - DummyCount(s.vlayer, edges[k])
    requires Extends(s.vlayer, r.vlayer, s.nextDummy, BelowSource(s.vlayer, edges[k]), DummyCount(s.vlayer, edges[k]))
    ensures Agrees(start, r.vlayer) && AllDummiesAt(start, r.vlayer, edges[..k + 1])
    ensures r.nextDummy == FirstDummy(start, edges[..k + 1]) && r.segments == AllSegments(start, edges[..k + 1])
  {
    hide AllDummiesAt, Extends, DummiesAt, BelowSource, DummyCount, EdgeSegments;
    var e := edges[k];
    assert edges[..k + 1][..k] == edges[..k];
    SameChain(start, s.vlayer, e, s.nextDummy);
    WhatExtendsAdds(s.vlayer, r.vlayer, s.nextDummy, BelowSource(start, e), DummyCount(start, e));
    DummiesStay(start, s.vlayer, r.vlayer, edges, k);
  }

  lemma DummiesStay(start: map<int, nat>, before: map<int, nat>, after: map<int, nat>, edges: seq<GraphEdge>, k: nat)
    requires k < |edges| && Agrees(before, after) && AllDummiesAt(start, before, edges[..k])
    requires DummiesAt(after, FirstDummy(start, edges[..k]), BelowSource(start, edges[k]), DummyCount(start, edges[k]))
    ensures AllDummiesAt(start, after, edges[..k + 1])
  {
    hide FirstDummy, DummiesAt, BelowSource, DummyCount, Agrees;
    var more := edges[..k + 1];
    forall j | 0 <= j < |more|
      ensures DummiesAt(after, FirstDummy(start, more[..j]), BelowSource(start, more[j]), DummyCount(start, more[j]))
    {
      assert more[..j] == edges[..j];
      if j < k {
        assert edges[..k][..j] == edges[..j] && edges[..k][j] == edges[j];
        KeepDummies(before, after, FirstDummy(start, edges[..j]), BelowSource(start, edges[j]),
                    DummyCount(start, edges[j]));
      }
    }
  }

  lemma SameChain(start: map<int, nat>, vlayer: map<int, nat>, e: GraphEdge, first: int)
    requires Agrees(start, vlayer) && e.from in start && e.to in start
    ensures EdgeSegments(vlayer, e, first) == EdgeSegments(start, e, first)
    ensures DummyCount(vlayer, e) == DummyCount(start, e) && BelowSource(vlayer, e) == BelowSource(start, e)
  {
  }

  lemma WhatExtendsAdds(before: map<int, nat>, after: map<int, nat>, first: int, layer: int, count: int)
    requires Extends(before, after, first, layer, count)
    ensures Agrees(before, after) && DummiesAt(after, first, layer, count)
  {
  }

  lemma KeepDummies(before: map<int, nat>, after: map<int, nat>, first: int, layer: int, count: int)
    requires Agrees(before, after) && DummiesAt(before, first, layer, count)
    ensures DummiesAt(after, first, layer, count)
  {
  }

  /** The ids of the nodes on layer l, in plan order. */
  function NodesOn(nodes: seq<GraphNode>, l: int): seq<int> {
    if nodes == [] then []
    else
      var last := nodes[|nodes| - 1];
      NodesOn(nodes[..|nodes| - 1], l) + if last.layer == l then [last.id] else []
  }

  /** The nodes of a layer, and in the order of the plan. */
  lemma {:induction false} NodesOnAre(nodes: seq<GraphNode>, l: int, i: nat, j: nat) returns (a: nat, b: nat)
    requires i < j < |nodes| && nodes[i].layer == l && nodes[j].layer == l
    ensures a < b < |NodesOn(nodes, l)| && NodesOn(nodes, l)[a] == nodes[i].id && NodesOn(nodes, l)[b] == nodes[j].id
  {
    var init := nodes[..|nodes| - 1];
    if j < |init| {
      a, b := NodesOnAre(init, l, i, j);
    } else {
      a := PositionOn(init, l, i);
      b := |NodesOn(init, l)|;
    }
  }

  lemma {:induction false} PositionOn(nodes: seq<GraphNode>, l: int, i: nat) returns (a: nat)
    requires i < |nodes| && nodes[i].layer == l
    ensures a < |NodesOn(nodes, l)| && NodesOn(nodes, l)[a] == nodes[i].id
  {
    var init := nodes[..|nodes| - 1];
    if i < |init| {
      a := PositionOn(init, l, i);
    } else {
      a := |NodesOn(init, l)|;
    }
  }

  /** The dummies on layer l: one for each edge that skips the layer, in edge order. */
  function DummiesOn(start: map<int, nat>, edges: seq<GraphEdge>, l: int): seq<int> {
    if edges == [] then []
    else
      var before, e := edges[..|edges| - 1], edges[|edges| - 1];
      DummiesOn(start, before, l) + DummyOn(FirstDummy(start, before), BelowSource(start, e), DummyCount(start, e), l)
  }

  /** Each row holds its nodes and then its dummies. */
  ghost predicate RowsAre(nodes: seq<GraphNode>, edges: seq<GraphEdge>, items: seq<seq<int>>) {
    && |items| == MaxLayer(nodes) + 1
    && forall l :: 0 <= l < |items| ==> items[l] == NodesOn(nodes, l) + DummiesOn(LayerMap(nodes), edges, l)
  }

  lemma RowsAreAfter(nodes: seq<GraphNode>, s: Split, r: Split, edges: seq<GraphEdge>, k: nat)
    requires k < |edges| && RowsAre(nodes, edges[..k], s.items)
    requires Agrees(LayerMap(nodes), s.vlayer) && edges[k].from in LayerMap(nodes) && edges[k].to in LayerMap(nodes)
    requires s.nextDummy == FirstDummy(LayerMap(nodes), edges[..k])
    requires RowsGrew(s.items, r.items, s.nextDummy, BelowSource(s.vlayer, edges[k]), DummyCount(s.vlayer, edges[k]))
    ensures RowsAre(nodes, edges[..k + 1], r.items)
  {
    hide Agrees, BelowSource, DummyCount, FirstDummy, NodesOn, LayerMap, DummyOn;
    SameChain(LayerMap(nodes), s.vlayer, edges[k], s.nextDummy);
    var more := edges[..k + 1];
    assert more[..k] == edges[..k] && more[k] == edges[k];
  }

  function LayerMap(nodes: seq<GraphNode>): map<int, nat> {
    if nodes == [] then map[] else LayerMap(nodes[..|nodes| - 1])[nodes[|nodes| - 1].id := nodes[|nodes| - 1].layer]
  }

  /** Nodes into their rows, then every edge into a chain of connectors. */
  method SplitAll(nodes: seq<GraphNode>, edges: seq<GraphEdge>) returns (r: Split)
    requires IsPlanGraph(nodes, edges)
    ensures Placed(r.vlayer, r.items, r.nextDummy)
    ensures Agrees(LayerMap(nodes), r.vlayer) && AllDummiesAt(LayerMap(nodes), r.vlayer, edges)
    ensures r.segments == AllSegments(LayerMap(nodes), edges) && RowsAre(nodes, edges, r.items)
    ensures forall e :: e in edges ==> e.from in LayerMap(nodes) && e.to in LayerMap(nodes)
  {
    EndsHaveLayers(nodes, edges);
    hide Placed, Extends, AllDummiesAt, IsPlanGraph, LayerMap, HasNode, DummyCount, EdgeSegments, BelowSource, RowsAre,
         RowsGrew;
    r := StartSplit(nodes);
    ghost var start := LayerMap(nodes);
    assert edges[..0] == [];
    NoEdges(start);
    for k := 0 to |edges|
      invariant Placed(r.vlayer, r.items, r.nextDummy)
      invariant Agrees(start, r.vlayer) && AllDummiesAt(start, r.vlayer, edges[..k])
      invariant r.nextDummy == FirstDummy(start, edges[..k]) && r.segments == AllSegments(start, edges[..k])
      invariant RowsAre(nodes, edges[..k], r.items)
    {
      ghost var s := r;
      r := SplitEdge(r, edges[k]);
      OneMoreEdge(start, s, r, edges, k);
      RowsAreAfter(nodes, s, r, edges, k);
    }
    assert edges[..|edges|] == edges;
  }

  lemma EndsHaveLayers(nodes: seq<GraphNode>, edges: seq<GraphEdge>)
    requires IsPlanGraph(nodes, edges)
    ensures IsPlanGraph(nodes, [])
    ensures forall e :: e in edges ==> e.from in LayerMap(nodes) && e.to in LayerMap(nodes)
  {
    forall e | e in edges
      ensures e.from in LayerMap(nodes) && e.to in LayerMap(nodes)
    {
      NodeHasLayer(nodes, e.from);
      NodeHasLayer(nodes, e.to);
    }
  }

  lemma NoEdges(start: map<int, nat>)
    ensures AllDummiesAt(start, start, []) && Agrees(start, start)
  {
  }

  lemma {:induction false} NodeHasLayer(nodes: seq<GraphNode>, id: int)
    requires HasNode(nodes, id)
    ensures id in LayerMap(nodes)
  {
    var n :| n in nodes && n.id == id;
    if n != nodes[|nodes| - 1] {
      assert n in nodes[..|nodes| - 1];
      NodeHasLayer(nodes[..|nodes| - 1], id);
    }
  }

  function MaxLayer(nodes: seq<GraphNode>): (m: nat)
    ensures forall n :: n in nodes ==> n.layer <= m
  {
    if nodes == [] then 0
    else
      var m := MaxLayer(nodes[..|nodes| - 1]);
      var last := nodes[|nodes| - 1].layer;
      assert forall n :: n in nodes ==> n in nodes[..|nodes| - 1] || n == nodes[|nodes| - 1];
      if last > m then last else m
  }

  method StartSplit(nodes: seq<GraphNode>) returns (r: Split)
    requires IsPlanGraph(nodes, [])
    ensures Placed(r.vlayer, r.items, -1) && r.nextDummy == -1 && r.segments == []
    ensures r.vlayer == LayerMap(nodes) && RowsAre(nodes, [], r.items)
  {
    var vlayer: map<int, nat> := map[];
    var items: seq<seq<int>> := seq(MaxLayer(nodes) + 1, _ => []);
    hide Placed;
    NothingPlaced(items);
    for i := 0 to |nodes|
      invariant HasRows(nodes[..i], items) && |items| == MaxLayer(nodes) + 1
      invariant vlayer == LayerMap(nodes[..i])
      invariant Placed(vlayer, items, -1)
    {
      var node := nodes[i];
      assert node in nodes && nodes[..i + 1] == nodes[..i] + [node];
      NotYetPlaced(nodes, i);
      AddNode(vlayer, items, node.id, node.layer);
      OneMoreNode(nodes[..i], items, node);
      vlayer := vlayer[node.id := node.layer];
      items := items[node.layer := items[node.layer] + [node.id]];
    }
    assert nodes[..|nodes|] == nodes;
    NodesAlone(nodes, items);
    r := Split(vlayer, items, [], -1);
  }

  /** Each row holds its nodes. */
  ghost predicate HasRows(nodes: seq<GraphNode>, items: seq<seq<int>>) {
    forall l :: 0 <= l < |items| ==> items[l] == NodesOn(nodes, l)
  }

  lemma NothingPlaced(items: seq<seq<int>>)
    requires forall l :: 0 <= l < |items| ==> items[l] == []
    ensures Placed(map[], items, -1)
  {
  }

  lemma NotYetPlaced(nodes: seq<GraphNode>, i: nat)
    requires IsPlanGraph(nodes, []) && i < |nodes|
    ensures nodes[i].id > 0 && nodes[i].id !in LayerMap(nodes[..i])
  {
    assert nodes[i] in nodes;
    if nodes[i].id in LayerMap(nodes[..i]) {
      var j := LayerMapHas(nodes[..i], nodes[i].id);
      assert false;
    }
  }

  lemma {:induction false} LayerMapHas(nodes: seq<GraphNode>, id: int) returns (j: nat)
    requires id in LayerMap(nodes)
    ensures j < |nodes| && nodes[j].id == id
  {
    if nodes[|nodes| - 1].id == id {
      j := |nodes| - 1;
    } else {
      j := LayerMapHas(nodes[..|nodes| - 1], id);
    }
  }

  lemma OneMoreNode(nodes: seq<GraphNode>, items: seq<seq<int>>, node: GraphNode)
    requires HasRows(nodes, items) && node.layer < |items|
    ensures HasRows(nodes + [node], items[node.layer := items[node.layer] + [node.id]])
  {
    assert (nodes + [node])[..|nodes|] == nodes;
  }

  lemma NodesAlone(nodes: seq<GraphNode>, items: seq<seq<int>>)
    requires HasRows(nodes, items) && |items| == MaxLayer(nodes) + 1
    ensures RowsAre(nodes, [], items)
  {
    assert forall l :: 0 <= l < |items| ==> NodesOn(nodes, l) + [] == NodesOn(nodes, l);
  }

  lemma AddNode(vlayer: map<int, nat>, items: seq<seq<int>>, id: int, layer: nat)
    requires Placed(vlayer, items, -1) && layer < |items| && id > 0 && id !in vlayer
    ensures Placed(vlayer[id := layer], items[layer := items[layer] + [id]], -1)
  {
    var row := items[layer] + [id];
    forall l | 0 <= l < |items|
      ensures id !in items[l]
    {
      assert id !in vlayer;
    }
    assert forall v :: v in row <==> v in items[layer] || v == id;
    assert Distinct(row);
  }

  // ---------- Placing the items of each row ----------

  function Width(item: int): nat {
    if item > 0 then BOX_W else 1
  }

  /** Where item k of a row begins when the row begins at column zero. */
  function Left(row: seq<int>, k: nat): nat
    requires k <= |row|
  {
    if k == 0 then 0 else Left(row, k - 1) + Width(row[k - 1]) + COL_GAP
  }

  function RowWidth(row: seq<int>): nat {
    if row == [] then 0
    else
      assert Left(row, |row|) >= COL_GAP;
      Left(row, |row|) - COL_GAP
  }

  /** The first k items of the row stand side by side, shifted by the offset, each with its centre. */
  ghost predicate RowIsAt(vleft: map<int, nat>, vx: map<int, nat>, row: seq<int>, k: int, offset: nat)
    requires k <= |row|
  {
    forall j :: 0 <= j < k ==> ItemIsAt(vleft, vx, row, j, offset)
  }

  ghost predicate ItemIsAt(vleft: map<int, nat>, vx: map<int, nat>, row: seq<int>, j: nat, offset: nat)
    requires j < |row|
  {
    && row[j] in vleft && row[j] in vx
    && vleft[row[j]] == offset + Left(row, j)
    && vx[row[j]] == offset + Left(row, j) + Width(row[j]) / 2
  }

  /** Only items of the row may have moved. */
  ghost predicate MovesOnly(row: seq<int>, before: map<int, nat>, after: map<int, nat>) {
    forall v :: v in before && v !in row ==> v in after && after[v] == before[v]
  }

  /** Putting item k in place leaves the other items of the row where they are. */
  lemma PlaceOne(row: seq<int>, vleft: map<int, nat>, vx: map<int, nat>, k: nat, offset: nat)
    requires Distinct(row) && k < |row|
    ensures var vleft' := vleft[row[k] := offset + Left(row, k)];
      var vx' := vx[row[k] := offset + Left(row, k) + Width(row[k]) / 2];
      && ItemIsAt(vleft', vx', row, k, offset)
      && forall j, o: nat :: 0 <= j < |row| && j != k && ItemIsAt(vleft, vx, row, j, o) ==>
        ItemIsAt(vleft', vx', row, j, o)
  {
    hide Left, Width;
  }

  lemma {:induction false} ItemsAreApart(row: seq<int>, j: nat, k: nat)
    requires j < k <= |row|
    ensures Left(row, j) + Width(row[j]) + COL_GAP <= Left(row, k)
    decreases k
  {
    if j + 1 < k {
      ItemsAreApart(row, j, k - 1);
    }
  }

  lemma ItemFits(row: seq<int>, j: nat)
    requires j < |row|
    ensures Left(row, j) + Width(row[j]) <= RowWidth(row)
  {
    ItemsAreApart(row, j, |row|);
  }

  /** First pass: every row from column zero. */
  method PlaceRow(row: seq<int>, vleft0: map<int, nat>, vx0: map<int, nat>)
    returns (vleft: map<int, nat>, vx: map<int, nat>, width: nat)
    requires Distinct(row)
    ensures RowIsAt(vleft, vx, row, |row|, 0) && width == RowWidth(row)
    ensures MovesOnly(row, vleft0, vleft) && MovesOnly(row, vx0, vx)
  {
    vleft, vx := vleft0, vx0;
    var cursor := 0;
    hide Width, ItemIsAt, Distinct;
    for k := 0 to |row|
      invariant cursor == Left(row, k)
      invariant RowIsAt(vleft, vx, row, k, 0)
      invariant MovesOnly(row, vleft0, vleft) && MovesOnly(row, vx0, vx)
    {
      PlaceOne(row, vleft, vx, k, 0);
      var width := Width(row[k]);
      vleft := vleft[row[k] := cursor];
      vx := vx[row[k] := cursor + width / 2];
      cursor := cursor + width + COL_GAP;
    }
    width := if cursor >= COL_GAP then cursor - COL_GAP else 0;
  }

  /** Second pass: the row moves right by its offset. */
  method ShiftRow(row: seq<int>, vleft0: map<int, nat>, vx0: map<int, nat>, offset: nat)
    returns (vleft: map<int, nat>, vx: map<int, nat>)
    requires Distinct(row) && RowIsAt(vleft0, vx0, row, |row|, 0)
    ensures RowIsAt(vleft, vx, row, |row|, offset)
    ensures MovesOnly(row, vleft0, vleft) && MovesOnly(row, vx0, vx)
  {
    vleft, vx := vleft0, vx0;
    for k := 0 to |row|
      invariant RowIsAt(vleft, vx, row, k, offset)
      invariant forall j :: k <= j < |row| ==> ItemIsAt(vleft, vx, row, j, 0)
      invariant MovesOnly(row, vleft0, vleft) && MovesOnly(row, vx0, vx)
    {
      PlaceOne(row, vleft, vx, k, offset);
      assert ItemIsAt(vleft, vx, row, k, 0);
      var left, centre := vleft[row[k]], vx[row[k]];
      hide Left, Width, Distinct, ItemIsAt;
      vleft := vleft[row[k] := left + offset];
      vx := vx[row[k] := centre + offset];
    }
  }

  ghost predicate RowsAreDisjoint(items: seq<seq<int>>) {
    && (forall l :: 0 <= l < |items| ==> Distinct(items[l]))
    && (forall l, m, v :: 0 <= l < |items| && 0 <= m < |items| && v in items[l] && v in items[m] ==> l == m)
  }

  /** A row that shares no item with another is untouched when that one is placed. */
  lemma RowStays(row: seq<int>, other: seq<int>, vleft0: map<int, nat>, vx0: map<int, nat>,
                 vleft: map<int, nat>, vx: map<int, nat>, offset: nat)
    requires RowIsAt(vleft0, vx0, row, |row|, offset)
    requires forall v :: v in row ==> v !in other
    requires MovesOnly(other, vleft0, vleft) && MovesOnly(other, vx0, vx)
    ensures RowIsAt(vleft, vx, row, |row|, offset)
  {
    hide Left, Width;
    forall j | 0 <= j < |row|
      ensures ItemIsAt(vleft, vx, row, j, offset)
    {
      assert row[j] in row && ItemIsAt(vleft0, vx0, row, j, offset);
    }
  }

  /** Where row l starts once the rows are centred. */
  function Offset(items: seq<seq<int>>, l: nat, width: nat): nat
    requires l < |items|
  {
    if width >= RowWidth(items[l]) then (width - RowWidth(items[l])) / 2 else 0
  }

  /** A centred row has as much room to its left as to its right, up to one column. */
  lemma OffsetCentres(items: seq<seq<int>>, l: nat, width: nat)
    requires l < |items| && RowWidth(items[l]) <= width
    ensures var left := Offset(items, l, width);
      var right := width - RowWidth(items[l]) - left;
      left <= right <= left + 1
  {
  }

  function CountNodes(row: seq<int>): nat {
    if row == [] then 0 else CountNodes(row[..|row| - 1]) + if row[|row| - 1] > 0 then 1 else 0
  }

  /** A row takes 24 columns for each node, one for each dummy and 4 between neighbours. */
  lemma {:induction false} RowWidthIs(row: seq<int>)
    requires row != []
    ensures RowWidth(row) == 24 * CountNodes(row) + (|row| - CountNodes(row)) + 4 * (|row| - 1)
  {
    LeftIs(row, |row|);
    assert row[..|row|] == row;
  }

  lemma {:induction false} LeftIs(row: seq<int>, k: nat)
    requires k <= |row|
    ensures CountNodes(row[..k]) <= k
    ensures Left(row, k) == 24 * CountNodes(row[..k]) + (k - CountNodes(row[..k])) + 4 * k
  {
    if k > 0 {
      LeftIs(row, k - 1);
      assert row[..k][..k - 1] == row[..k - 1] && row[..k][k - 1] == row[k - 1];
    }
  }

  /** The centre of a box is 12 columns to the right of where it starts, that of a dummy is where it stands;
      rows are 4 lines high with 2 between them. */
  lemma CentresAndHeights(vleft: map<int, nat>, vx: map<int, nat>, row: seq<int>, j: nat, offset: nat, rows: nat)
    requires j < |row| && ItemIsAt(vleft, vx, row, j, offset)
    ensures row[j] in vleft && row[j] in vx && vx[row[j]] == vleft[row[j]] + if row[j] > 0 then 12 else 0
    ensures Height(rows) == if rows == 0 then 0 else 6 * rows - 2
  {
  }

  /** The width of the widest of the first k rows. */
  ghost predicate IsWidest(items: seq<seq<int>>, k: nat, width: nat)
    requires k <= |items|
  {
    && (forall l :: 0 <= l < k ==> RowWidth(items[l]) <= width)
    && (width == 0 || exists l :: 0 <= l < k && RowWidth(items[l]) == width)
  }

  /** Every row in its centred place. */
  method PlaceItems(items: seq<seq<int>>) returns (vleft: map<int, nat>, vx: map<int, nat>, width: nat)
    requires RowsAreDisjoint(items)
    ensures IsWidest(items, |items|, width)
    ensures forall l :: 0 <= l < |items| ==> RowIsAt(vleft, vx, items[l], |items[l]|, Offset(items, l, width))
  {
    vleft, vx, width := map[], map[], 0;
    hide RowIsAt, Distinct, RowWidth;
    for i := 0 to |items|
      invariant forall l :: 0 <= l < i ==> RowIsAt(vleft, vx, items[l], |items[l]|, 0)
      invariant IsWidest(items, i, width)
    {
      ghost var vleft0, vx0 := vleft, vx;
      var w;
      vleft, vx, w := PlaceRow(items[i], vleft, vx);
      forall l | 0 <= l < i
        ensures RowIsAt(vleft, vx, items[l], |items[l]|, 0)
      {
        RowStays(items[l], items[i], vleft0, vx0, vleft, vx, 0);
      }
      width := if w > width then w else width;
    }
    for i := 0 to |items|
      invariant forall l :: 0 <= l < i ==> RowIsAt(vleft, vx, items[l], |items[l]|, Offset(items, l, width))
      invariant forall l :: i <= l < |items| ==> RowIsAt(vleft, vx, items[l], |items[l]|, 0)
    {
      ghost var vleft0, vx0 := vleft, vx;
      vleft, vx := ShiftRow(items[i], vleft, vx, Offset(items, i, width));
      forall l | 0 <= l < |items| && l != i
        ensures RowIsAt(vleft, vx, items[l], |items[l]|, if l < i then Offset(items, l, width) else 0)
      {
        RowStays(items[l], items[i], vleft0, vx0, vleft, vx, if l < i then Offset(items, l, width) else 0);
      }
    }
  }

  // ---------- The whole layout ----------

  datatype Layout = Layout(
    vx: map<int, nat>,
    vleft: map<int, nat>,
    vlayer: map<int, nat>,
    items: seq<seq<int>>,
    segments: seq<Segment>,
    width: nat,
    height: nat)

  /** Items of one layer lie inside the width, and any two of them are a gap apart. */
  ghost predicate RowsAreApart(layout: Layout) {
    forall l, j, k :: 0 <= l < |layout.items| && 0 <= j < |layout.items[l]| && 0 <= k < |layout.items[l]| ==>
      && layout.items[l][j] in layout.vleft && layout.items[l][k] in layout.vleft
      && layout.vleft[layout.items[l][j]] + Width(layout.items[l][j]) <= layout.width
      && (j < k ==> layout.vleft[layout.items[l][j]] + Width(layout.items[l][j]) + COL_GAP
                    <= layout.vleft[layout.items[l][k]])
  }

  /** A box for each row and a channel between any two. */
  function Height(rows: nat): nat {
    rows * BOX_H + (if rows > 0 then rows - 1 else 0) * CHANNEL
  }

  /** The connectors of edge k. */
  function ChainOf(start: map<int, nat>, edges: seq<GraphEdge>, k: nat): seq<Segment>
    requires k < |edges|
  {
    EdgeSegments(start, edges[k], FirstDummy(start, edges[..k]))
  }

  method LayOut(nodes: seq<GraphNode>, edges: seq<GraphEdge>) returns (layout: Layout)
    requires IsPlanGraph(nodes, edges)
    ensures Agrees(LayerMap(nodes), layout.vlayer)
    ensures RowsAre(nodes, edges, layout.items)
    ensures IsWidest(layout.items, |layout.items|, layout.width)
    ensures forall l :: 0 <= l < |layout.items| ==>
      RowIsAt(layout.vleft, layout.vx, layout.items[l], |layout.items[l]|, Offset(layout.items, l, layout.width))
    ensures layout.segments == AllSegments(LayerMap(nodes), edges)
    ensures forall k :: 0 <= k < |edges| && Climbs(nodes, edges[k]) ==>
      Routes(layout.vlayer, edges[k], ChainOf(LayerMap(nodes), edges, k))
    ensures EachInItsRow(layout.vlayer, layout.items)
    ensures RowsAreApart(layout)
    ensures layout.height == Height(|layout.items|)
  {
    hide *;
    var split := SplitAll(nodes, edges);
    PlacedIsDisjoint(split.vlayer, split.items, split.nextDummy);
    var vleft, vx, width := PlaceItems(split.items);
    layout := Layout(vx, vleft, split.vlayer, split.items, split.segments, width, Height(|split.items|));
    forall k | 0 <= k < |edges| && Climbs(nodes, edges[k])
      ensures Routes(layout.vlayer, edges[k], ChainOf(LayerMap(nodes), edges, k))
    {
      ClimbsMeans(nodes, edges[k]);
      ChainOfRoutes(LayerMap(nodes), layout.vlayer, edges, k);
    }
    RowsFit(layout);
  }

  /** The items of row l are exactly the vertices of layer l. */
  ghost predicate EachInItsRow(vlayer: map<int, nat>, items: seq<seq<int>>) {
    && (forall l, v :: 0 <= l < |items| && v in items[l] ==> v in vlayer && vlayer[v] == l)
    && (forall v :: v in vlayer ==> vlayer[v] < |items| && v in items[vlayer[v]])
  }

  lemma ClimbsMeans(nodes: seq<GraphNode>, e: GraphEdge)
    requires Climbs(nodes, e)
    ensures e.from in LayerMap(nodes) && e.to in LayerMap(nodes) && LayerMap(nodes)[e.from] < LayerMap(nodes)[e.to]
  {
  }

  ghost predicate Climbs(nodes: seq<GraphNode>, e: GraphEdge) {
    var start := LayerMap(nodes);
    e.from in start && e.to in start && start[e.from] < start[e.to]
  }

  lemma ChainOfRoutes(start: map<int, nat>, vlayer: map<int, nat>, edges: seq<GraphEdge>, k: nat)
    requires k < |edges| && Agrees(start, vlayer) && AllDummiesAt(start, vlayer, edges)
    requires edges[k].from in start && edges[k].to in start && start[edges[k].from] < start[edges[k].to]
    ensures Routes(vlayer, edges[k], ChainOf(start, edges, k))
  {
    FirstDummyIsNegative(start, edges[..k]);
    ChainRoutes(vlayer, edges[k], FirstDummy(start, edges[..k]));
  }

  lemma PlacedIsDisjoint(vlayer: map<int, nat>, items: seq<seq<int>>, nextDummy: int)
    requires Placed(vlayer, items, nextDummy)
    ensures RowsAreDisjoint(items) && EachInItsRow(vlayer, items)
  {
    forall l, m, v | 0 <= l < |items| && 0 <= m < |items| && v in items[l] && v in items[m]
      ensures l == m
    {
      assert vlayer[v] == l && vlayer[v] == m;
    }
  }

  lemma {:induction false} FirstDummyIsNegative(vlayer: map<int, nat>, edges: seq<GraphEdge>)
    ensures FirstDummy(vlayer, edges) < 0
  {
    if edges != [] {
      FirstDummyIsNegative(vlayer, edges[..|edges| - 1]);
    }
  }

  lemma RowsFit(layout: Layout)
    requires IsWidest(layout.items, |layout.items|, layout.width)
    requires forall l :: 0 <= l < |layout.items| ==>
      RowIsAt(layout.vleft, layout.vx, layout.items[l], |layout.items[l]|, Offset(layout.items, l, layout.width))
    ensures RowsAreApart(layout)
  {
    forall l, j, k | 0 <= l < |layout.items| && 0 <= j < |layout.items[l]| && 0 <= k < |layout.items[l]|
      ensures
        && layout.items[l][j] in layout.vleft && layout.items[l][k] in layout.vleft
        && layout.vleft[layout.items[l][j]] + Width(layout.items[l][j]) <= layout.width
        && (j < k ==> layout.vleft[layout.items[l][j]] + Width(layout.items[l][j]) + COL_GAP
                      <= layout.vleft[layout.items[l][k]])
    {
      var row := layout.items[l];
      assert RowIsAt(layout.vleft, layout.vx, row, |row|, Offset(layout.items, l, layout.width));
      assert ItemIsAt(layout.vleft, layout.vx, row, j, Offset(layout.items, l, layout.width));
      assert ItemIsAt(layout.vleft, layout.vx, row, k, Offset(layout.items, l, layout.width));
      ItemFits(row, j);
      if j < k {
        ItemsAreApart(row, j, k);
      }
    }
  }

  lemma {:induction false} LayerMapHolds(nodes: seq<GraphNode>, n: GraphNode)
    requires n in nodes && IsPlanGraph(nodes, [])
    ensures n.id in LayerMap(nodes) && LayerMap(nodes)[n.id] == n.layer
  {
    var last := nodes[|nodes| - 1];
    if n != last {
      var init := nodes[..|nodes| - 1];
      assert n in init;
      LayerMapHolds(init, n);
    }
  }

  /** On an acyclic graph the computed layers make every edge climb, so the layout draws all of them. */
  lemma LayersClimb(nodes: seq<GraphNode>, edges: seq<GraphEdge>, e: GraphEdge)
    requires IsPlanGraph(nodes, edges) && Acyclic(EdgePairs(edges)) && e in edges
    requires forall n :: n in nodes ==> LongestTo(EdgePairs(edges), n.id, n.layer)
    ensures Climbs(nodes, e)
  {
    var E := EdgePairs(edges);
    var a :| a in nodes && a.id == e.from;
    var b :| b in nodes && b.id == e.to;
    LayerMapHolds(nodes, a);
    LayerMapHolds(nodes, b);
    var p :| IsWalk(E, p) && Last(p) == a.id && |p| == a.layer + 1;
    var q := p + [b.id];
    assert (a.id, b.id) in E;
    assert IsWalk(E, q) && Last(q) == b.id;
  }
}
