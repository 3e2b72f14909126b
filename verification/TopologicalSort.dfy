/** Kahn's algorithm over the data and decision-control edges of a plan. */
module TopologicalSort {
  import opened Wrappers
  import opened Graphs
  import opened Sorting
  import opened Plans

  datatype PlanError =
    | MissingReference(node: int, ref: int)
    | DependencyCycle
    | NestingTooDeep(node: int, depth: int)
    | MissingSubplan(node: int)
    | TooManyNodes(count: int, max: int)
    | TooManySubplans(count: int, max: int)
    | ContractBroken(node: int)
    | UnknownTools(names: seq<string>)
    | TierOutOfRange(node: int, tier: int)

  // ---------- Sorting id lists ----------

  predicate AtMost(a: int, b: int) {
    a <= b
  }

  lemma SortListsAscending(s: seq<int>)
    requires Distinct(s)
    ensures Sort(AtMost, s) == Ascending(Elems(s))
  {
    SortOrders(AtMost, s);
    var r := Sort(AtMost, s);
    assert forall i, j :: 0 <= i < j < |r| ==> AtMost(r[i], r[j]) && r[i] != r[j];
    assert Elems(r) == Elems(s);
    AscendingIsUnique(r, Ascending(Elems(s)));
  }

  method SortedList(s: set<int>) returns (r: seq<int>)
    ensures r == Ascending(s)
  {
    var list: seq<int> := [];
    var rest := s;
    while rest != {}
      invariant rest <= s && Distinct(list)
      invariant forall x :: x in list <==> x in s && x !in rest
      decreases rest
    {
      Inhabited(rest);
      var x :| x in rest;
      rest := rest - {x};
      list := list + [x];
    }
    assert forall x :: x in list <==> x in s;
    assert Elems(list) == s;
    SortListsAscending(list);
    r := Sort(AtMost, list);
  }

  // ---------- Topological sort ----------

  lemma EdgesGrow(nodes: seq<Node>, i: nat)
    requires i < |nodes|
    ensures EdgesOf(nodes[..i + 1]) == EdgesOf(nodes[..i]) + NodeEdges(nodes[i])
  {
    assert nodes[..i + 1] == nodes[..i] + [nodes[i]];
  }

  /** The id's edge: from a listed dependency to the node, or from the node to a listed target. */
  ghost predicate IsEdgeOf(e: (int, int), node: int, ids: seq<int>, incoming: bool) {
    if incoming then e.1 == node && e.0 in ids else e.0 == node && e.1 in ids
  }

  /** Adds one edge per listed id, or reports the first id that names no node. */
  method AddEdges(edges: Edges, node: int, ids: seq<int>, incoming: bool, allIds: set<int>)
    returns (r: Result<Edges, PlanError>)
    ensures r.Success? <==> Elems(ids) <= allIds
    ensures r.Success? ==> forall e :: e in r.value <==> e in edges || IsEdgeOf(e, node, ids, incoming)
    ensures r.Failure? ==> exists id :: id in ids && id !in allIds && r.error == MissingReference(node, id)
  {
    var result := edges;
    for i := 0 to |ids|
      invariant Elems(ids[..i]) <= allIds
      invariant forall e :: e in result <==> e in edges || IsEdgeOf(e, node, ids[..i], incoming)
    {
      if ids[i] !in allIds {
        return Failure(MissingReference(node, ids[i]));
      }
      assert ids[..i + 1] == ids[..i] + [ids[i]];
      result := result + {if incoming then (ids[i], node) else (node, ids[i])};
    }
    assert ids[..|ids|] == ids;
    return Success(result);
  }

  ghost predicate IsControlEdge(e: (int, int), node: int, branches: seq<Branch>) {
    e.0 == node && e.1 in TargetsOf(branches)
  }

  lemma ControlEdgesGrow(node: int, branches: seq<Branch>, i: nat)
    requires i < |branches|
    ensures forall e :: IsControlEdge(e, node, branches[..i + 1]) <==>
      IsControlEdge(e, node, branches[..i]) || IsEdgeOf(e, node, branches[i].targets, false)
  {
    assert branches[..i + 1][..i] == branches[..i];
  }

  lemma NodeEdgesAre(node: Node, e: (int, int))
    ensures e in NodeEdges(node) <==>
      || IsEdgeOf(e, node.id, node.contextNeeded, true)
      || (node.kind.Decision? && IsControlEdge(e, node.id, node.branches))
  {
    var u, v := e.0, e.1;
    assert e == (u, v);
    if u in node.contextNeeded && v == node.id {
      assert (u, node.id) in NodeEdges(node);
    }
    if node.kind.Decision? && IsControlEdge(e, node.id, node.branches) {
      assert v in ControlTargets(node);
      assert (node.id, v) in NodeEdges(node);
    }
  }

  /** The declared edges of one node, or the first reference that names no node. */
  method CollectEdges(node: Node, allIds: set<int>) returns (r: Result<Edges, PlanError>)
    ensures r.Success? <==> Refs(node) <= allIds
    ensures r.Success? ==> r.value == NodeEdges(node)
    ensures r.Failure? ==> exists id :: id in Refs(node) - allIds && r.error == MissingReference(node.id, id)
  {
    r := AddEdges({}, node.id, node.contextNeeded, true, allIds);
    if r.Failure? || !node.kind.Decision? {
      assert !node.kind.Decision? ==> Refs(node) == Elems(node.contextNeeded);
      forall e { NodeEdgesAre(node, e); }
      return;
    }
    var edges := r.value;
    for i := 0 to |node.branches|
      invariant Elems(node.contextNeeded) <= allIds
      invariant TargetsOf(node.branches[..i]) <= allIds
      invariant forall e :: e in edges <==>
        IsEdgeOf(e, node.id, node.contextNeeded, true) || IsControlEdge(e, node.id, node.branches[..i])
    {
      r := AddEdges(edges, node.id, node.branches[i].targets, false, allIds);
      if r.Failure? {
        var id :| id in node.branches[i].targets && id !in allIds && r.error == MissingReference(node.id, id);
        TargetsInclude(node.branches, i, id);
        return;
      }
      ControlEdgesGrow(node.id, node.branches, i);
      assert node.branches[..i + 1][..i] == node.branches[..i];
      edges := r.value;
    }
    assert node.branches[..|node.branches|] == node.branches;
    forall e { NodeEdgesAre(node, e); }
    return Success(edges);
  }

  ghost predicate IsTargetList(V: set<int>, E: Edges, u: int, targets: seq<int>) {
    Distinct(targets) && forall v :: v in targets <==> v in V && (u, v) in E
  }

  /** Adjacency lists: the list of u holds each target of u once. */
  ghost predicate Lists(V: set<int>, E: Edges, graph: map<int, seq<int>>) {
    graph.Keys == V && forall u :: u in V ==> IsTargetList(V, E, u, graph[u])
  }

  ghost predicate Degrees(V: set<int>, E: Edges, visited: set<int>, inDegree: map<int, int>) {
    && inDegree.Keys == V
    && forall v :: v in V ==> inDegree[v] == Outstanding(V, E, v, visited)
  }

  lemma ListEdge(V: set<int>, E: Edges, graph: map<int, seq<int>>, u: int, v: int)
    requires Lists(V, E, graph) && u in V && v in V && (u, v) !in E
    ensures Lists(V, E + {(u, v)}, graph[u := graph[u] + [v]])
  {
    var after := graph[u := graph[u] + [v]];
    forall w | w in V
      ensures IsTargetList(V, E + {(u, v)}, w, after[w])
    {
      assert IsTargetList(V, E, w, graph[w]);
    }
  }

  lemma PredsGrow(V: set<int>, E: Edges, u: int, v: int, w: int)
    requires u in V && (u, v) !in E
    ensures Outstanding(V, E + {(u, v)}, w, {}) == Outstanding(V, E, w, {}) + if w == v then 1 else 0
  {
    var before, after := Preds(V, E, w), Preds(V, E + {(u, v)}, w);
    assert before - {} == before && after - {} == after;
    if w == v {
      assert u !in before && after == before + {u};
    } else {
      assert after == before;
    }
  }

  lemma CountEdge(V: set<int>, E: Edges, inDegree: map<int, int>, u: int, v: int)
    requires Degrees(V, E, {}, inDegree) && u in V && v in V && (u, v) !in E
    ensures Degrees(V, E + {(u, v)}, {}, inDegree[v := inDegree[v] + 1])
  {
    hide Outstanding;
    var after := inDegree[v := inDegree[v] + 1];
    forall w | w in V
      ensures after[w] == Outstanding(V, E + {(u, v)}, w, {})
    {
      PredsGrow(V, E, u, v, w);
    }
  }

  lemma SomeEdge(E: Edges)
    requires E != {}
    ensures exists e :: e in E
  {
    if forall e: (int, int) :: e !in E {
      assert false;
    }
  }

  lemma NothingTallied(V: set<int>, graph: map<int, seq<int>>, inDegree: map<int, int>)
    requires graph.Keys == V && inDegree.Keys == V
    requires forall v :: v in V ==> graph[v] == [] && inDegree[v] == 0
    ensures Lists(V, {}, graph) && Degrees(V, {}, {}, inDegree)
  {
    forall v | v in V
      ensures Outstanding(V, {}, v, {}) == 0
    {
      assert Preds(V, {}, v) - {} == {};
    }
  }

  /** Adjacency lists and in-degrees, filled edge by edge in whatever order the set yields them. */
  method Tally(V: set<int>, E: Edges) returns (graph: map<int, seq<int>>, inDegree: map<int, int>)
    requires Closed(V, E)
    ensures Lists(V, E, graph) && Degrees(V, E, {}, inDegree)
  {
    hide Lists, Degrees;
    graph := map v | v in V :: [];
    inDegree := map v | v in V :: 0;
    NothingTallied(V, graph, inDegree);
    var rest := E;
    assert E - rest == {};
    while rest != {}
      invariant rest <= E
      invariant Lists(V, E - rest, graph) && Degrees(V, E - rest, {}, inDegree)
      decreases rest
    {
      SomeEdge(rest);
      var edge :| edge in rest;
      graph, inDegree := TallyEdge(V, E - rest, graph, inDegree, edge.0, edge.1);
      assert edge == (edge.0, edge.1);
      assert E - (rest - {edge}) == (E - rest) + {edge};
      rest := rest - {edge};
    }
    assert E - rest == E;
  }

  method TallyEdge(V: set<int>, ghost E: Edges, graph: map<int, seq<int>>, inDegree: map<int, int>, source: int,
                   target: int)
    returns (graph': map<int, seq<int>>, inDegree': map<int, int>)
    requires Lists(V, E, graph) && Degrees(V, E, {}, inDegree)
    requires source in V && target in V && (source, target) !in E
    ensures Lists(V, E + {(source, target)}, graph') && Degrees(V, E + {(source, target)}, {}, inDegree')
  {
    ListEdge(V, E, graph, source, target);
    CountEdge(V, E, inDegree, source, target);
    graph' := graph[source := graph[source] + [target]];
    inDegree' := inDegree[target := inDegree[target] + 1];
  }

  ghost predicate IsMissing(nodes: seq<Node>, error: PlanError) {
    exists n, id :: n in nodes && id in Refs(n) - Ids(nodes) && error == MissingReference(n.id, id)
  }

  /** The node lists the id as context or, for a decision, under a branch. */
  ghost predicate NamesId(n: Node, id: int) {
    || id in n.contextNeeded
    || (n.kind == Decision && exists i :: 0 <= i < |n.branches| && id in n.branches[i].targets)
  }

  /** The error names a node of the plan and an id it refers to that no node has. */
  lemma MissingMeans(nodes: seq<Node>, error: PlanError)
    requires IsMissing(nodes, error)
    ensures error.MissingReference?
    ensures forall n :: n in nodes ==> n.id != error.ref
    ensures exists n :: n in nodes && n.id == error.node && NamesId(n, error.ref)
  {
    var n :| n in nodes && n.id == error.node && error.ref in Refs(n) - Ids(nodes);
    TargetsOfAre(n.branches, error.ref);
    forall m | m in nodes
      ensures m.id != error.ref
    {
      IdIsListed(nodes, m);
    }
  }

  method TopoSort(plan: Plan) returns (r: Result<seq<int>, PlanError>)
    ensures r.Success? <==>
      DistinctIds(plan.nodes) && RefsExist(plan.nodes) && Acyclic(EdgesOf(plan.nodes))
    ensures r.Success? ==> Closed(Ids(plan.nodes), EdgesOf(plan.nodes))
    ensures r.Success? ==> r.value == KahnOrder(Ids(plan.nodes), EdgesOf(plan.nodes))
    ensures r == Failure(DependencyCycle) <==>
      RefsExist(plan.nodes) && !(DistinctIds(plan.nodes) && Acyclic(EdgesOf(plan.nodes)))
    ensures r.Failure? && r.error != DependencyCycle ==> IsMissing(plan.nodes, r.error)
  {
    var allIds := Ids(plan.nodes);
    var edges: Edges := {};
    for i := 0 to |plan.nodes|
      invariant forall n :: n in plan.nodes[..i] ==> Refs(n) <= allIds
      invariant edges == EdgesOf(plan.nodes[..i])
    {
      var found := CollectEdges(plan.nodes[i], allIds);
      if found.Failure? {
        assert plan.nodes[i] in plan.nodes;
        return Failure(found.error);
      }
      EdgesGrow(plan.nodes, i);
      assert plan.nodes[..i + 1] == plan.nodes[..i] + [plan.nodes[i]];
      edges := edges + found.value;
    }
    assert plan.nodes[..|plan.nodes|] == plan.nodes;
    RefsExistIffClosed(plan.nodes);

    var graph, inDegree := Tally(allIds, edges);
    var sortedIds := Visit(allIds, edges, graph, inDegree);

    ElemsIsSmall(IdList(plan.nodes));
    if Distinct(IdList(plan.nodes)) {
      DistinctHasSize(IdList(plan.nodes));
    }
    KahnOrderIsComplete(allIds, edges);
    KahnOrderIsForward(allIds, edges);
    DistinctIsSmall(sortedIds, allIds);
    if |sortedIds| != |plan.nodes| {
      return Failure(DependencyCycle);
    }
    return Success(sortedIds);
  }

  /** How many predecessors of v are still outstanding. */
  ghost function Outstanding(V: set<int>, E: Edges, v: int, visited: set<int>): nat {
    |Preds(V, E, v) - visited|
  }

  lemma OutstandingDrops(V: set<int>, E: Edges, u: int, v: int, visited: set<int>)
    requires u in V && (u, v) in E && u !in visited
    ensures Outstanding(V, E, v, visited + {u}) == Outstanding(V, E, v, visited) - 1
    ensures Outstanding(V, E, v, visited + {u}) == 0 <==> Preds(V, E, v) <= visited + {u}
  {
    assert Preds(V, E, v) - (visited + {u}) == (Preds(V, E, v) - visited) - {u};
    assert Outstanding(V, E, v, visited + {u}) == 0 <==> Preds(V, E, v) - (visited + {u}) == {};
  }

  lemma RootsHaveNoEdges(V: set<int>, E: Edges, inDegree: map<int, int>)
    requires Degrees(V, E, {}, inDegree)
    ensures inDegree.Keys == V && forall v :: v in Roots(V, E) <==> v in V && inDegree[v] == 0
  {
    forall v | v in V
      ensures inDegree[v] == 0 <==> v in Roots(V, E)
    {
      assert Preds(V, E, v) - {} == Preds(V, E, v);
    }
  }

  method StartQueue(V: set<int>, E: Edges, inDegree: map<int, int>) returns (queue: seq<int>)
    requires Degrees(V, E, {}, inDegree)
    ensures queue == Ascending(Roots(V, E))
  {
    RootsHaveNoEdges(V, E, inDegree);
    var zero := set v | v in V && inDegree[v] == 0;
    assert zero == Roots(V, E);
    queue := SortedList(zero);
  }

  ghost predicate HalfSettled(V: set<int>, E: Edges, visited: set<int>, u: int, passed: seq<int>,
                              inDegree: map<int, int>) {
    && inDegree.Keys == V
    && forall v :: v in V ==> inDegree[v] == Outstanding(V, E, v, if v in passed then visited + {u} else visited)
  }

  ghost predicate FreedSoFar(V: set<int>, E: Edges, seen: set<int>, passed: seq<int>, freed: seq<int>) {
    && StrictlyAscending(freed)
    && forall v :: v in freed <==> v in passed && Preds(V, E, v) <= seen
  }

  lemma PassNeighbour(V: set<int>, E: Edges, visited: set<int>, u: int, passed: seq<int>, inDegree: map<int, int>,
                      v: int)
    requires HalfSettled(V, E, visited, u, passed, inDegree)
    requires u in V && u !in visited && v in V && (u, v) in E && v !in passed
    ensures HalfSettled(V, E, visited, u, passed + [v], inDegree[v := inDegree[v] - 1])
    ensures inDegree[v] == 1 <==> Preds(V, E, v) <= visited + {u}
  {
    hide Outstanding, Preds;
    OutstandingDrops(V, E, u, v, visited);
    assert forall w :: w in passed + [v] <==> w in passed || w == v;
  }

  lemma AllPassed(V: set<int>, E: Edges, visited: set<int>, u: int, passed: seq<int>, inDegree: map<int, int>)
    requires HalfSettled(V, E, visited, u, passed, inDegree)
    requires forall v :: v in passed <==> v in V && (u, v) in E
    ensures Degrees(V, E, visited + {u}, inDegree)
  {
    forall v | v in V
      ensures inDegree[v] == Outstanding(V, E, v, visited + {u})
    {
      if (u, v) !in E {
        assert Preds(V, E, v) - (visited + {u}) == Preds(V, E, v) - visited;
      }
    }
  }

  /** Take one edge off every neighbour of a visited node; list the neighbours left with none. */
  method SettleEdges(V: set<int>, E: Edges, ghost done: seq<int>, nodeId: int, neighbours: seq<int>,
                     degrees: map<int, int>)
    returns (inDegree: map<int, int>, freed: seq<int>)
    requires Degrees(V, E, Elems(done), degrees) && nodeId in V && nodeId !in done
    requires StrictlyAscending(neighbours) && forall v :: v in neighbours <==> v in V && (nodeId, v) in E
    ensures Degrees(V, E, Elems(done) + {nodeId}, inDegree)
    ensures StrictlyAscending(freed) && Elems(freed) == Freed(V, E, done, nodeId)
  {
    inDegree := degrees;
    freed := [];
    ghost var visited := Elems(done);
    StartSettling(V, E, visited, nodeId, degrees);
    assert neighbours[..0] == [];
    hide *;
    for k := 0 to |neighbours|
      invariant inDegree.Keys == V
      invariant HalfSettled(V, E, visited, nodeId, neighbours[..k], inDegree)
      invariant FreedSoFar(V, E, visited + {nodeId}, neighbours[..k], freed)
    {
      var neighbour := neighbours[k];
      assert neighbour in neighbours;
      SettleOne(V, E, visited, nodeId, neighbours, k, inDegree, freed);
      inDegree := inDegree[neighbour := inDegree[neighbour] - 1];
      if inDegree[neighbour] == 0 {
        freed := freed + [neighbour];
      }
    }
    assert neighbours[..|neighbours|] == neighbours;
    AllPassed(V, E, visited, nodeId, neighbours, inDegree);
    AllFreed(V, E, done, nodeId, neighbours, freed);
  }

  lemma StartSettling(V: set<int>, E: Edges, visited: set<int>, u: int, degrees: map<int, int>)
    requires Degrees(V, E, visited, degrees)
    ensures degrees.Keys == V && HalfSettled(V, E, visited, u, [], degrees)
    ensures FreedSoFar(V, E, visited + {u}, [], [])
  {
    hide Outstanding, Preds;
  }

  /** One neighbour loses an edge; it is freed if that was its last. */
  lemma SettleOne(V: set<int>, E: Edges, visited: set<int>, u: int, neighbours: seq<int>, k: nat,
                  inDegree: map<int, int>, freed: seq<int>)
    requires u in V && u !in visited && k < |neighbours| && StrictlyAscending(neighbours)
    requires forall v :: v in neighbours <==> v in V && (u, v) in E
    requires inDegree.Keys == V && HalfSettled(V, E, visited, u, neighbours[..k], inDegree)
    requires FreedSoFar(V, E, visited + {u}, neighbours[..k], freed)
    ensures neighbours[k] in V
    ensures HalfSettled(V, E, visited, u, neighbours[..k + 1], inDegree[neighbours[k] := inDegree[neighbours[k]] - 1])
    ensures FreedSoFar(V, E, visited + {u}, neighbours[..k + 1],
                       if inDegree[neighbours[k]] == 1 then freed + [neighbours[k]] else freed)
  {
    hide HalfSettled, Preds;
    var v, passed := neighbours[k], neighbours[..k];
    assert neighbours[..k + 1] == passed + [v];
    assert v in neighbours && v !in passed;
    PassNeighbour(V, E, visited, u, passed, inDegree, v);
    assert forall i :: 0 <= i < |freed| ==> freed[i] in freed && freed[i] in passed;
  }

  lemma AllFreed(V: set<int>, E: Edges, done: seq<int>, u: int, neighbours: seq<int>, freed: seq<int>)
    requires FreedSoFar(V, E, Elems(done) + {u}, neighbours, freed)
    requires forall v :: v in neighbours <==> v in V && (u, v) in E
    ensures StrictlyAscending(freed) && Elems(freed) == Freed(V, E, done, u)
  {
    hide Preds;
    forall v
      ensures v in freed <==> v in Freed(V, E, done, u)
    {
    }
  }

  method Visit(V: set<int>, E: Edges, graph: map<int, seq<int>>, degrees: map<int, int>) returns (sortedIds: seq<int>)
    requires Closed(V, E) && Lists(V, E, graph) && Degrees(V, E, {}, degrees)
    ensures sortedIds == KahnOrder(V, E)
  {
    var inDegree := degrees;
    var queue := StartQueue(V, E, inDegree);
    sortedIds := [];
    KahnStart(V, E);
    assert Elems(sortedIds) == {};
    while queue != []
      invariant KahnState(V, E, sortedIds, queue)
      invariant KahnFrom(V, E, sortedIds, queue) == KahnOrder(V, E)
      invariant Degrees(V, E, Elems(sortedIds), inDegree)
      decreases V - Elems(sortedIds)
    {
      ghost var done, waiting := sortedIds, queue;
      var nodeId := queue[0];
      queue := queue[1..];
      sortedIds := sortedIds + [nodeId];
      HeadIsNew(V, E, done, waiting);
      SortListsAscending(graph[nodeId]);
      var neighbours := Sort(AtMost, graph[nodeId]);
      assert forall v :: v in neighbours <==> v in Elems(neighbours);
      var freed;
      inDegree, freed := SettleEdges(V, E, done, nodeId, neighbours, inDegree);
      queue := queue + freed;
      KahnAdvance(V, E, done, waiting, freed);
      AscendingIsUnique(freed, Ascending(Freed(V, E, done, nodeId)));
    }
  }

  lemma HeadIsNew(V: set<int>, E: Edges, done: seq<int>, queue: seq<int>)
    requires KahnState(V, E, done, queue) && queue != []
    ensures queue[0] in V && queue[0] !in done
    ensures Elems(done + [queue[0]]) == Elems(done) + {queue[0]}
  {
    assert queue[0] == (done + queue)[|done|] && queue[0] in Elems(done + queue);
    DistinctParts(done, queue);
  }

  /** An accepted order is complete, repeats nothing, keeps dependencies first and lists the
      nodes layer by layer; it does not depend on how the edges were stored. */
  lemma TopoSortIsSound(plan: Plan, level: map<int, nat>)
    requires DistinctIds(plan.nodes) && RefsExist(plan.nodes) && Acyclic(EdgesOf(plan.nodes))
    ensures Closed(Ids(plan.nodes), EdgesOf(plan.nodes))
    ensures var order := KahnOrder(Ids(plan.nodes), EdgesOf(plan.nodes));
      && Sorted(plan.(sortedIds := order))
      && |order| == |plan.nodes|
      && (Levels(Ids(plan.nodes), EdgesOf(plan.nodes), level) ==> NonDecreasing(level, order))
  {
    var V, E := Ids(plan.nodes), EdgesOf(plan.nodes);
    RefsExistIffClosed(plan.nodes);
    KahnOrderIsForward(V, E);
    KahnOrderIsComplete(V, E);
    DistinctHasSize(IdList(plan.nodes));
    if Levels(V, E, level) {
      KahnOrderIsLayered(V, E, level);
    }
  }
}
