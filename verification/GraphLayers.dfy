/** Layer assignment for the plan graph view: memoised longest paths with a cycle guard. */
module GraphLayers {
  import opened Wrappers
  import opened Graphs

  datatype EdgeKind = Data | Control

  datatype GraphEdge = GraphEdge(from: int, to: int, kind: EdgeKind, caption: Option<string>)

  /** A node placed on a layer. */
  datatype GraphNode = GraphNode(id: int, layer: nat)

  function EdgePairs(edges: seq<GraphEdge>): Edges {
    set e | e in edges :: (e.from, e.to)
  }

  /** The parent lists hold exactly the sources of the edges into each node. */
  ghost predicate AreParents(V: set<int>, E: Edges, parents: map<int, seq<int>>) {
    && parents.Keys == V
    && forall v {:trigger parents[v]} :: v in V ==> forall u :: u in parents[v] <==> (u, v) in E
  }

  method ParentsFromEdges(ids: set<int>, edges: seq<GraphEdge>) returns (parents: map<int, seq<int>>)
    requires forall e :: e in edges ==> e.from in ids && e.to in ids
    ensures AreParents(ids, EdgePairs(edges), parents)
  {
    parents := map v | v in ids :: [];
    for i := 0 to |edges|
      invariant AreParents(ids, EdgePairs(edges[..i]), parents)
    {
      var e := edges[i];
      assert edges[..i + 1] == edges[..i] + [e];
      assert forall u, v :: (u, v) in EdgePairs(edges[..i + 1]) <==>
        (u, v) in EdgePairs(edges[..i]) || (u == e.from && v == e.to);
      parents := parents[e.to := parents[e.to] + [e.from]];
    }
    assert edges[..|edges|] == edges;
  }

  /** The memo agrees with the levels as far as it goes. */
  ghost predicate DepthsAre(V: set<int>, level: map<int, nat>, depth: map<int, nat>) {
    forall v :: v in depth ==> v in V && v in level && depth[v] == level[v]
  }

  /** The memo table of the layer computation. */
  class LayerTable {
    var depth: map<int, nat>
    var visiting: set<int>
    ghost var guarded: bool

    constructor ()
      ensures depth == map[] && visiting == {} && !guarded
    {
      depth := map[];
      visiting := {};
      guarded := false;
    }

    /** The graph has levels, the memo agrees with them, and every node being visited lies deeper
        than the node asked for. */
    ghost predicate Descending(V: set<int>, E: Edges, level: map<int, nat>, id: int)
      reads this
    {
      && Levels(V, E, level) && id in V
      && DepthsAre(V, level, depth)
      && (forall v :: v in visiting ==> v in V && level[id] < level[v])
    }

    /** On any finite graph the recursion ends and restores the visiting set. On an acyclic one the
        result is the longest-path level and the cycle guard is never taken. */
    method LayerOf(id: int, parents: map<int, seq<int>>, ghost V: set<int>, ghost E: Edges, ghost level: map<int, nat>)
      returns (d: nat)
      requires Closed(V, E) && AreParents(V, E, parents) && id in V
      modifies this
      ensures visiting == old(visiting)
      ensures depth.Keys >= old(depth.Keys)
      ensures old(depth.Keys) <= V ==> depth.Keys <= V
      ensures id !in old(visiting) ==> id in depth
      ensures old(Descending(V, E, level, id)) ==>
        && d == level[id] && guarded == old(guarded) && id in depth
        && DepthsAre(V, level, depth)
      decreases V - visiting
    {
      if id in depth {
        return depth[id];
      }
      if id in visiting {
        guarded := true;
        return 0;
      }
      ghost var descending := Descending(V, E, level, id);
      ghost var outer := visiting;
      visiting := visiting + {id};
      var ps := parents[id];
      var best: Option<nat> := None;
      for k := 0 to |ps|
        invariant visiting == outer + {id} && depth.Keys >= old(depth.Keys)
        invariant old(depth.Keys) <= V ==> depth.Keys <= V
        invariant descending ==> guarded == old(guarded)
        invariant descending ==> DepthsAre(V, level, depth)
        invariant descending ==> best.Some? == (k > 0)
        invariant descending && best.Some? ==> forall j :: 0 <= j < k ==> ps[j] in V && level[ps[j]] <= best.value
        invariant descending && best.Some? ==> exists j :: 0 <= j < k && ps[j] in V && level[ps[j]] == best.value
      {
        var p := ps[k];
        assert p in ps && (p, id) in E;
        var dp := LayerOf(p, parents, V, E, level);
        best := if best.Some? && best.value >= dp then best else Some(dp);
      }
      d := if best.Some? then best.value + 1 else 0;
      if descending {
        ParentsDecide(V, E, level, id, ps, best);
      }
      visiting := visiting - {id};
      depth := depth[id := d];
    }
  }

  /** The level of a node is one more than its highest parent, or zero without parents. */
  lemma ParentsDecide(V: set<int>, E: Edges, level: map<int, nat>, id: int, ps: seq<int>, best: Option<nat>)
    requires Levels(V, E, level) && Closed(V, E) && id in V
    requires forall u :: u in ps <==> (u, id) in E
    requires best.Some? == (|ps| > 0)
    requires best.Some? ==> forall j :: 0 <= j < |ps| ==> ps[j] in V && level[ps[j]] <= best.value
    requires best.Some? ==> exists j :: 0 <= j < |ps| && ps[j] in V && level[ps[j]] == best.value
    ensures level[id] == if best.Some? then best.value + 1 else 0
  {
    assert Supported(E, level, id);
    if best.Some? {
      var j :| 0 <= j < |ps| && ps[j] in V && level[ps[j]] == best.value;
      var p := ps[j];
      assert p in ps;
      assert (p, id) in E && p in V;
      assert level[p] < level[id];
      var u :| u in level && (u, id) in E && level[u] + 1 == level[id];
      assert u in ps;
    }
  }

  /** Assigns every id its layer; on an acyclic graph that is its longest-path depth. */
  method BuildLayers(ids: seq<int>, edges: seq<GraphEdge>) returns (nodes: seq<GraphNode>)
    requires forall e :: e in edges ==> e.from in ids && e.to in ids
    ensures |nodes| == |ids| && forall i :: 0 <= i < |ids| ==> nodes[i].id == ids[i]
    ensures Acyclic(EdgePairs(edges)) ==>
      forall i :: 0 <= i < |nodes| ==> LongestTo(EdgePairs(edges), nodes[i].id, nodes[i].layer)
  {
    ghost var V, E := Elems(ids), EdgePairs(edges);
    var parents := ParentsFromEdges(Elems(ids), edges);
    ghost var acyclic := Acyclic(E);
    ghost var level: map<int, nat> := map[];
    if acyclic {
      level := AcyclicHasLevels(V, E);
    }
    var table := new LayerTable();
    nodes := [];
    for i := 0 to |ids|
      invariant table.visiting == {} && |nodes| == i
      invariant forall j :: 0 <= j < i ==> nodes[j].id == ids[j]
      invariant acyclic ==> DepthsAre(V, level, table.depth)
      invariant acyclic ==> forall j :: 0 <= j < i ==> ids[j] in V && nodes[j].layer == level[ids[j]]
    {
      var d := table.LayerOf(ids[i], parents, V, E, level);
      nodes := nodes + [GraphNode(ids[i], d)];
    }
    if acyclic {
      forall i | 0 <= i < |nodes|
        ensures LongestTo(E, nodes[i].id, nodes[i].layer)
      {
        LevelsAreLongestPaths(V, E, level, ids[i]);
      }
    }
  }

  lemma LongestIsLevel(V: set<int>, E: Edges, level: map<int, nat>, v: int, d: nat)
    requires Closed(V, E) && Levels(V, E, level) && v in V && LongestTo(E, v, d)
    ensures d == level[v]
  {
    LevelsAreLongestPaths(V, E, level, v);
    var p :| IsWalk(E, p) && Last(p) == v && |p| == d + 1;
    var q :| IsWalk(E, q) && Last(q) == v && |q| == level[v] + 1;
  }

  /** Layers by longest path are levels, and the sort emits the nodes layer by layer for the very layers
      drawn here. */
  lemma SortFollowsLayers(V: set<int>, E: Edges, layer: map<int, nat>)
    requires Closed(V, E) && Acyclic(E) && layer.Keys == V
    requires forall v :: v in V ==> LongestTo(E, v, layer[v])
    ensures Levels(V, E, layer) && NonDecreasing(layer, KahnOrder(V, E))
  {
    var level := AcyclicHasLevels(V, E);
    forall v | v in V
      ensures layer[v] == level[v]
    {
      LongestIsLevel(V, E, level, v, layer[v]);
    }
    assert layer == level;
    KahnOrderIsLayered(V, E, level);
  }
}
