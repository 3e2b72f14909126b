/** The layers of the text view of a plan: longest-path depths listed row by row, and how the rows
    relate to the order in which the plan was sorted. */
module DagLayers {
  import opened Graphs
  import opened GraphLayers
  import opened Sorting
  import opened TieBreaking
  import opened TopologicalSort
  import opened Plans
  import opened Validator
  import opened NodeContracts

  datatype DagNode = DagNode(id: int, contextNeeded: seq<int>, branchTargets: seq<int>)

  function DagIds(nodes: seq<DagNode>): set<int> {
    set n | n in nodes :: n.id
  }

  /** Edges between known ids: into a node from its context, out of it to its branch targets. */
  ghost predicate IsDagEdge(nodes: seq<DagNode>, ids: set<int>, u: int, v: int) {
    && u in ids && v in ids
    && exists n :: n in nodes && ((n.id == v && u in n.contextNeeded) || (n.id == u && v in n.branchTargets))
  }

  ghost function DagEdges(nodes: seq<DagNode>): (E: Edges)
    ensures Closed(DagIds(nodes), E)
    ensures forall u, v :: (u, v) in E <==> IsDagEdge(nodes, DagIds(nodes), u, v)
  {
    var ids := DagIds(nodes);
    set u, v | u in ids && v in ids && IsDagEdge(nodes, ids, u, v) :: (u, v)
  }

  /** The parent sets, filled node by node. */
  ghost predicate AreParentSets(nodes: seq<DagNode>, ids: set<int>, parents: map<int, set<int>>) {
    && parents.Keys == ids
    && forall v {:trigger parents[v]} :: v in ids ==> forall u :: u in parents[v] <==> IsDagEdge(nodes, ids, u, v)
  }

  method AddTargets(id: int, targets: seq<int>, before: map<int, set<int>>) returns (parents: map<int, set<int>>)
    ensures parents.Keys == before.Keys
    ensures forall v :: v in parents ==> parents[v] == before[v] + if v in targets then {id} else {}
  {
    parents := before;
    for i := 0 to |targets|
      invariant parents.Keys == before.Keys
      invariant forall v :: v in parents ==> parents[v] == before[v] + if v in targets[..i] then {id} else {}
    {
      assert targets[..i + 1] == targets[..i] + [targets[i]];
      if targets[i] in parents {
        parents := parents[targets[i] := parents[targets[i]] + {id}];
      }
    }
    assert targets[..|targets|] == targets;
  }

  method Parents(nodes: seq<DagNode>) returns (parents: map<int, set<int>>)
    ensures AreParentSets(nodes, DagIds(nodes), parents)
  {
    var ids := DagIds(nodes);
    parents := map v | v in ids :: {};
    for i := 0 to |nodes|
      invariant AreParentSets(nodes[..i], ids, parents)
    {
      var node := nodes[i];
      assert node in nodes && node.id in ids;
      ghost var before := parents;
      parents := parents[node.id := parents[node.id] + set d | d in node.contextNeeded && d in ids];
      ghost var middle := parents;
      parents := AddTargets(node.id, node.branchTargets, parents);
      assert nodes[..i + 1] == nodes[..i] + [node];
      ParentsGrow(nodes[..i], node, ids, before, middle, parents);
    }
    assert nodes[..|nodes|] == nodes;
  }

  lemma ParentsGrow(nodes: seq<DagNode>, node: DagNode, ids: set<int>,
                    before: map<int, set<int>>, middle: map<int, set<int>>, after: map<int, set<int>>)
    requires AreParentSets(nodes, ids, before) && node.id in ids && after.Keys == ids
    requires middle == before[node.id := before[node.id] + set d | d in node.contextNeeded && d in ids]
    requires forall v :: v in after ==> after[v] == middle[v] + if v in node.branchTargets then {node.id} else {}
    ensures AreParentSets(nodes + [node], ids, after)
  {
    forall u, v | v in ids
      ensures u in after[v] <==> IsDagEdge(nodes + [node], ids, u, v)
    {
      assert u in before[v] <==> IsDagEdge(nodes, ids, u, v);
    }
  }

  /** The parents as lists, in some order. */
  method ListParents(ids: set<int>, sets: map<int, set<int>>) returns (parents: map<int, seq<int>>)
    requires sets.Keys == ids
    ensures parents.Keys == ids && forall v :: v in ids ==> forall u :: u in parents[v] <==> u in sets[v]
  {
    parents := map[];
    var rest := ids;
    while rest != {}
      invariant rest <= ids && parents.Keys == ids - rest
      invariant forall v :: v in parents ==> forall u :: u in parents[v] <==> u in sets[v]
      decreases rest
    {
      Inhabited(rest);
      var v :| v in rest;
      var list := SortedList(sets[v]);
      assert Elems(list) == sets[v];
      assert forall u :: u in list <==> u in Elems(list);
      parents := parents[v := list];
      rest := rest - {v};
    }
  }

  /** Every id stands in one row, and each row ascends. */
  ghost predicate AreRows(depth: map<int, nat>, rows: seq<seq<int>>) {
    && (forall v :: v in depth ==> depth[v] < |rows|)
    && (forall l :: 0 <= l < |rows| ==> IsRow(depth, l, rows[l]))
  }

  ghost predicate IsRow(depth: map<int, nat>, l: int, row: seq<int>) {
    StrictlyAscending(row) && forall v :: v in row <==> v in depth && depth[v] == l
  }

  function Deepest(depth: map<int, nat>, ids: seq<int>): (m: nat)
    requires forall id :: id in ids ==> id in depth
    ensures forall id :: id in ids ==> depth[id] <= m
    ensures m == 0 || exists id :: id in ids && depth[id] == m
  {
    if ids == [] then 0
    else
      var last := ids[|ids| - 1];
      var m := Deepest(depth, ids[..|ids| - 1]);
      assert ids == ids[..|ids| - 1] + [last];
      if depth[last] > m then depth[last] else m
  }

  /** Appends every id, in ascending order, to the row of its depth. */
  method FillRows(depth: map<int, nat>) returns (rows: seq<seq<int>>)
    ensures AreRows(depth, rows) && |rows| >= 1
    ensures |rows| == 1 || rows[|rows| - 1] != []
  {
    hide *;
    var ids := SortedList(depth.Keys);
    AscendingListsAll(depth.Keys);
    var m := Deepest(depth, ids);
    rows := seq(m + 1, _ => []);
    NothingFilled(depth, ids, rows);
    for i := 0 to |ids|
      invariant |rows| == m + 1 && AllHoldFirst(depth, ids[..i], rows)
    {
      assert ids[i] in ids;
      var l := depth[ids[i]];
      RowsGrow(depth, ids, i, rows);
      rows := rows[l := rows[l] + [ids[i]]];
    }
    assert ids[..|ids|] == ids;
    RowsAreFull(depth, ids, rows, m);
  }

  lemma AscendingListsAll(s: set<int>)
    ensures StrictlyAscending(Ascending(s)) && forall id :: id in Ascending(s) <==> id in s
  {
    assert forall id :: id in Ascending(s) <==> id in Elems(Ascending(s));
  }

  /** Every row holds its ids among the given ones. */
  ghost predicate AllHoldFirst(depth: map<int, nat>, ids: seq<int>, rows: seq<seq<int>>) {
    forall l :: 0 <= l < |rows| ==> HoldsFirst(depth, ids, l, rows[l])
  }

  lemma NothingFilled(depth: map<int, nat>, ids: seq<int>, rows: seq<seq<int>>)
    requires forall l :: 0 <= l < |rows| ==> rows[l] == []
    ensures AllHoldFirst(depth, ids[..0], rows)
  {
  }

  lemma RowsGrow(depth: map<int, nat>, ids: seq<int>, i: nat, rows: seq<seq<int>>)
    requires i < |ids| && StrictlyAscending(ids) && ids[i] in depth && depth[ids[i]] < |rows|
    requires AllHoldFirst(depth, ids[..i], rows)
    ensures AllHoldFirst(depth, ids[..i + 1], rows[depth[ids[i]] := rows[depth[ids[i]]] + [ids[i]]])
  {
    hide StrictlyAscending;
    RowGrows(depth, ids, i, rows[depth[ids[i]]]);
    assert ids[..i + 1] == ids[..i] + [ids[i]];
    var after := rows[depth[ids[i]] := rows[depth[ids[i]]] + [ids[i]]];
    forall l | 0 <= l < |rows|
      ensures HoldsFirst(depth, ids[..i + 1], l, after[l])
    {
      assert HoldsFirst(depth, ids[..i], l, rows[l]);
    }
  }

  lemma RowsAreFull(depth: map<int, nat>, ids: seq<int>, rows: seq<seq<int>>, m: nat)
    requires (forall id :: id in ids <==> id in depth) && |rows| == m + 1
    requires AllHoldFirst(depth, ids, rows)
    requires forall id :: id in ids ==> depth[id] <= m
    requires m == 0 || exists id :: id in ids && depth[id] == m
    ensures AreRows(depth, rows) && (m == 0 || rows[m] != [])
  {
    hide StrictlyAscending;
    if m > 0 {
      var id :| id in ids && depth[id] == m;
      assert HoldsFirst(depth, ids, m, rows[m]);
      assert id in rows[m];
    }
    forall l | 0 <= l < |rows|
      ensures IsRow(depth, l, rows[l])
    {
      assert HoldsFirst(depth, ids, l, rows[l]);
    }
  }

  ghost predicate HoldsFirst(depth: map<int, nat>, ids: seq<int>, l: int, row: seq<int>) {
    StrictlyAscending(row) && forall v :: v in row <==> v in ids && v in depth && depth[v] == l
  }

  lemma RowGrows(depth: map<int, nat>, ids: seq<int>, i: nat, row: seq<int>)
    requires i < |ids| && StrictlyAscending(ids) && ids[i] in depth
    requires HoldsFirst(depth, ids[..i], depth[ids[i]], row)
    ensures HoldsFirst(depth, ids[..i + 1], depth[ids[i]], row + [ids[i]])
  {
    assert ids[..i + 1] == ids[..i] + [ids[i]];
    forall k | 0 <= k < |row|
      ensures row[k] < ids[i]
    {
      var v := row[k];
      assert v in row && v in ids[..i];
    }
  }

  /** Row l lists exactly the ids whose longest path has l edges, ascending, and no id is missing. */
  ghost predicate AreLayersOf(nodes: seq<DagNode>, rows: seq<seq<int>>) {
    && (forall l :: 0 <= l < |rows| ==> IsLayer(nodes, l, rows[l]))
    && (forall v :: v in DagIds(nodes) ==> exists l :: 0 <= l < |rows| && v in rows[l])
  }

  ghost predicate IsLayer(nodes: seq<DagNode>, l: nat, row: seq<int>) {
    StrictlyAscending(row) && forall v :: v in row <==> v in DagIds(nodes) && LongestTo(DagEdges(nodes), v, l)
  }

  /** Layers of any plan payload: every id in one ascending row; on an acyclic one, row l holds exactly
      the ids whose longest path has l edges, and the last row is not empty. */
  method Layers(nodes: seq<DagNode>) returns (layers: seq<seq<int>>)
    ensures nodes == [] <==> layers == []
    ensures exists depth: map<int, nat> :: depth.Keys == DagIds(nodes) && AreRows(depth, layers)
    ensures Acyclic(DagEdges(nodes)) ==> AreLayersOf(nodes, layers)
    ensures |layers| > 1 ==> layers[|layers| - 1] != []
  {
    if nodes == [] {
      layers := [];
      assert AreRows(map[], layers) && DagIds(nodes) == {};
      return;
    }
    var depth := Depths(nodes);
    layers := FillRows(depth);
    hide AreRows, AreLayersOf, Levels;
    if Acyclic(DagEdges(nodes)) {
      RowsAreLayers(nodes, depth, layers);
    }
  }

  /** The depth of every id; on an acyclic payload these are the levels. */
  method Depths(nodes: seq<DagNode>) returns (depth: map<int, nat>)
    ensures depth.Keys == DagIds(nodes)
    ensures Acyclic(DagEdges(nodes)) ==> Levels(DagIds(nodes), DagEdges(nodes), depth)
  {
    hide *;
    ghost var V, E := DagIds(nodes), DagEdges(nodes);
    var sets := Parents(nodes);
    var parents := ListParents(DagIds(nodes), sets);
    ParentsAreListed(nodes, sets, parents);
    IdsAreListed(nodes);
    ghost var acyclic := Acyclic(E);
    ghost var level: map<int, nat> := map[];
    if acyclic {
      level := AcyclicHasLevels(V, E);
    }
    var table := new LayerTable();
    NothingIsDeep(V, level);
    for i := 0 to |nodes|
      invariant table.visiting == {} && table.depth.Keys <= V
      invariant forall j :: 0 <= j < i ==> nodes[j].id in table.depth
      invariant acyclic ==> DepthsAre(V, level, table.depth)
    {
      StartDescending(V, E, level, nodes[i].id, table);
      var d := table.LayerOf(nodes[i].id, parents, V, E, level);
    }
    depth := table.depth;
    EveryIdIsReached(nodes, depth.Keys);
    if acyclic {
      DepthsAreLevels(V, E, level, depth);
    }
  }

  lemma IdsAreListed(nodes: seq<DagNode>)
    ensures forall i :: 0 <= i < |nodes| ==> nodes[i].id in DagIds(nodes)
  {
    assert forall i :: 0 <= i < |nodes| ==> nodes[i] in nodes;
  }

  lemma NothingIsDeep(V: set<int>, level: map<int, nat>)
    ensures DepthsAre(V, level, map[])
  {
  }

  lemma DepthsAreLevels(V: set<int>, E: Edges, level: map<int, nat>, depth: map<int, nat>)
    requires Levels(V, E, level) && DepthsAre(V, level, depth) && depth.Keys == V
    ensures depth == level
  {
    LevelsCover(V, E, level);
    hide Levels;
    forall v | v in V
      ensures depth[v] == level[v]
    {
      assert v in depth;
    }
  }

  lemma EveryIdIsReached(nodes: seq<DagNode>, reached: set<int>)
    requires reached <= DagIds(nodes) && forall j :: 0 <= j < |nodes| ==> nodes[j].id in reached
    ensures reached == DagIds(nodes)
  {
  }

  lemma StartDescending(V: set<int>, E: Edges, level: map<int, nat>, id: int, table: LayerTable)
    requires id in V && table.visiting == {}
    ensures Levels(V, E, level) && DepthsAre(V, level, table.depth) ==> table.Descending(V, E, level, id)
  {
  }

  lemma ParentsAreListed(nodes: seq<DagNode>, sets: map<int, set<int>>, parents: map<int, seq<int>>)
    requires AreParentSets(nodes, DagIds(nodes), sets)
    requires parents.Keys == DagIds(nodes) && forall v :: v in parents ==> forall u :: u in parents[v] <==> u in sets[v]
    ensures AreParents(DagIds(nodes), DagEdges(nodes), parents)
  {
    hide IsDagEdge;
  }

  lemma RowsAreLayers(nodes: seq<DagNode>, level: map<int, nat>, rows: seq<seq<int>>)
    requires Levels(DagIds(nodes), DagEdges(nodes), level) && AreRows(level, rows)
    ensures AreLayersOf(nodes, rows)
  {
    hide Levels, DagIds, DagEdges, LongestTo, StrictlyAscending;
    LevelsCover(DagIds(nodes), DagEdges(nodes), level);
    forall l | 0 <= l < |rows|
      ensures IsLayer(nodes, l, rows[l])
    {
      assert IsRow(level, l, rows[l]);
      forall v
        ensures v in rows[l] <==> v in DagIds(nodes) && LongestTo(DagEdges(nodes), v, l)
      {
        if v in DagIds(nodes) {
          LongestExactly(DagIds(nodes), DagEdges(nodes), level, v, l);
        }
      }
    }
    forall v | v in DagIds(nodes)
      ensures exists l :: 0 <= l < |rows| && v in rows[l]
    {
      assert IsRow(level, level[v], rows[level[v]]);
    }
  }

  lemma LongestExactly(V: set<int>, E: Edges, level: map<int, nat>, v: int, l: nat)
    requires Closed(V, E) && Levels(V, E, level) && v in V
    ensures v in level && (LongestTo(E, v, l) <==> level[v] == l)
  {
    hide LongestTo, Closed;
    LevelsCover(V, E, level);
    LevelsAreLongestPaths(V, E, level, v);
    if LongestTo(E, v, l) {
      LongestIsLevel(V, E, level, v, l);
    }
  }

  // ---------- The rows and the sorted order ----------

  function Flatten(rows: seq<seq<int>>): seq<int> {
    if rows == [] then [] else Flatten(rows[..|rows| - 1]) + rows[|rows| - 1]
  }

  /** By layer, then by id. */
  function ByLayer(level: map<int, nat>): (int, int) -> bool {
    (u, v) => u in level && v in level && (level[u] < level[v] || (level[u] == level[v] && u <= v))
  }

  lemma {:induction false} FlattenIsInOrder(level: map<int, nat>, rows: seq<seq<int>>)
    requires forall l :: 0 <= l < |rows| ==> IsRow(level, l, rows[l])
    ensures InOrder(ByLayer(level), Flatten(rows)) && NoRepeats(Flatten(rows))
    ensures forall v :: v in Flatten(rows) <==> v in level && level[v] < |rows|
  {
    if rows != [] {
      var init, last := rows[..|rows| - 1], rows[|rows| - 1];
      FlattenIsInOrder(level, init);
      assert IsRow(level, |rows| - 1, last);
      var before := Flatten(init);
      forall i | 0 <= i < |before|
        ensures before[i] in level && level[before[i]] < |rows| - 1
      {
        var v := before[i];
        assert v in before;
      }
      forall i | 0 <= i < |last|
        ensures last[i] in level && level[last[i]] == |rows| - 1
      {
        var v := last[i];
        assert v in last;
      }
    }
  }

  /** The rows, read one after the other, are the order of the sort exactly when greater ids have no
      lesser greatest predecessor just above. */
  lemma RowsAreTheSortExactlyWhen(V: set<int>, E: Edges, level: map<int, nat>, rows: seq<seq<int>>)
    requires Closed(V, E) && Levels(V, E, level) && AreRows(level, rows)
    ensures Flatten(rows) == KahnOrder(V, E) <==> ParentsKeepPace(E, level)
  {
    hide Levels, IsListing, ParentsKeepPace, KahnOrder, Closed, AreRows;
    var order, flat := KahnOrder(V, E), Flatten(rows);
    TiesAscendExactlyWhen(V, E, level);
    KahnOrderLists(V, E, level);
    FlattenRows(level, rows);
    if LayersAscend(level, order) {
      OrderIsByLayer(V, E, level, order);
      forall z
        ensures z in order <==> z in flat
      {
        assert z in order <==> z in level;
      }
      OrderIsUnique(ByLayer(level), order, flat);
    }
    if flat == order {
      assert InOrder(ByLayer(level), order) && NoRepeats(order);
      forall a, b | 0 <= a < b < |order| && order[a] in level && order[b] in level
        && SameLayer(level, order[a], order[b])
        ensures order[a] < order[b]
      {
        assert ByLayer(level)(order[a], order[b]) && order[a] != order[b];
      }
    }
  }

  lemma FlattenRows(level: map<int, nat>, rows: seq<seq<int>>)
    requires AreRows(level, rows)
    ensures InOrder(ByLayer(level), Flatten(rows)) && NoRepeats(Flatten(rows))
    ensures forall v :: v in Flatten(rows) <==> v in level
  {
    FlattenIsInOrder(level, rows);
  }

  lemma OrderIsByLayer(V: set<int>, E: Edges, level: map<int, nat>, order: seq<int>)
    requires IsListing(V, E, level, order) && LayersAscend(level, order) && level.Keys == V
    ensures InOrder(ByLayer(level), order) && NoRepeats(order)
    ensures forall v :: v in order <==> v in level
  {
    assert forall v :: v in order <==> v in Elems(order);
    forall a, b | 0 <= a < b < |order|
      ensures ByLayer(level)(order[a], order[b])
    {
      assert order[a] in Elems(order) && order[b] in Elems(order);
      LaterIsDeeper(level, order, a, b);
      assert level[order[a]] == level[order[b]] ==> SameLayer(level, order[a], order[b]);
    }
  }

  // ---------- A validated plan and its view ----------

  /** What the view reads of a plan. */
  function ViewOf(nodes: seq<Node>): (view: seq<DagNode>)
    ensures |view| == |nodes|
  {
    seq(|nodes|, i requires 0 <= i < |nodes| =>
      DagNode(nodes[i].id, nodes[i].contextNeeded, AllTargets(nodes[i].branches)))
  }

  lemma ViewHasIds(nodes: seq<Node>)
    ensures DagIds(ViewOf(nodes)) == Ids(nodes)
  {
    var view := ViewOf(nodes);
    forall id | id in Ids(nodes)
      ensures id in DagIds(view)
    {
      var i :| 0 <= i < |nodes| && IdList(nodes)[i] == id;
      assert view[i] in view && view[i].id == id;
    }
    forall n | n in view
      ensures n.id in Ids(nodes)
    {
      var i :| 0 <= i < |view| && view[i] == n;
      assert IdList(nodes)[i] == n.id;
    }
  }

  /** Where every reference exists and only decisions declare branches, the view draws exactly the edges by
      which the plan is sorted. */
  lemma ViewHasEdges(nodes: seq<Node>)
    requires RefsExist(nodes) && forall n :: n in nodes && !n.kind.Decision? ==> n.branches == []
    ensures DagEdges(ViewOf(nodes)) == EdgesOf(nodes)
  {
    var view := ViewOf(nodes);
    ViewHasIds(nodes);
    RefsExistIffClosed(nodes);
    hide Ids, DagIds, EdgesOf, RefsExist;
    forall u, v
      ensures (u, v) in DagEdges(view) <==> (u, v) in EdgesOf(nodes)
    {
      ViewEdge(nodes, u, v);
    }
    assert forall e: (int, int) :: e == (e.0, e.1);
    assert forall e :: e in DagEdges(view) <==> e in EdgesOf(nodes);
  }

  lemma ViewEdge(nodes: seq<Node>, u: int, v: int)
    requires forall n :: n in nodes && !n.kind.Decision? ==> n.branches == []
    requires DagIds(ViewOf(nodes)) == Ids(nodes) && Closed(Ids(nodes), EdgesOf(nodes))
    ensures (u, v) in DagEdges(ViewOf(nodes)) <==> (u, v) in EdgesOf(nodes)
  {
    hide Ids, DagIds;
    var view := ViewOf(nodes);
    if (u, v) in EdgesOf(nodes) {
      var n :| n in nodes && (u, v) in NodeEdges(n);
      var i :| 0 <= i < |nodes| && nodes[i] == n;
      AllTargetsAreTargets(n.branches);
      assert view[i] in view;
      assert v in ControlTargets(n) ==> v in Elems(AllTargets(n.branches));
    }
    if (u, v) in DagEdges(view) {
      var d :| d in view && ((d.id == v && u in d.contextNeeded) || (d.id == u && v in d.branchTargets));
      var i :| 0 <= i < |view| && view[i] == d;
      var n := nodes[i];
      AllTargetsAreTargets(n.branches);
      assert v in d.branchTargets ==> v in Elems(AllTargets(n.branches));
      assert n in nodes && (u, v) in NodeEdges(n);
    }
  }

  /** What the view computes for a validated plan, read row by row, is the order in which the plan was
      sorted exactly when greater ids have no lesser greatest predecessor just above; row or order, the
      layers never decrease along the sorted ids. */
  lemma ViewFollowsTheSort(plan: Plan, isSubplan: bool, s: Settings, rows: seq<seq<int>>, level: map<int, nat>)
    requires WellFormed(plan, isSubplan, s) && AreLayersOf(ViewOf(plan.nodes), rows)
    requires level.Keys == Ids(plan.nodes) && forall l, v :: 0 <= l < |rows| && v in rows[l] ==>
      v in level && level[v] == l
    ensures Closed(Ids(plan.nodes), EdgesOf(plan.nodes))
    ensures var order := KahnOrder(Ids(plan.nodes), EdgesOf(plan.nodes));
      && NonDecreasing(level, order)
      && (Flatten(rows) == order <==> ParentsKeepPace(EdgesOf(plan.nodes), level))
  {
    hide *;
    var V, E := Ids(plan.nodes), EdgesOf(plan.nodes);
    RefsExistIffClosed(plan.nodes);
    OnlyDecisionsBranch(plan, isSubplan, s);
    ViewHasIds(plan.nodes);
    ViewHasEdges(plan.nodes);
    RowsGiveLevels(ViewOf(plan.nodes), rows, level);
    SortFollowsLayers(V, E, level);
    RowsAreTheSortExactlyWhen(V, E, level, rows);
  }

  lemma RowsGiveLevels(nodes: seq<DagNode>, rows: seq<seq<int>>, level: map<int, nat>)
    requires AreLayersOf(nodes, rows) && level.Keys == DagIds(nodes)
    requires forall l, v :: 0 <= l < |rows| && v in rows[l] ==> v in level && level[v] == l
    ensures forall v :: v in DagIds(nodes) ==> LongestTo(DagEdges(nodes), v, level[v])
    ensures AreRows(level, rows)
  {
    hide DagIds, DagEdges, LongestTo, StrictlyAscending;
    forall v | v in DagIds(nodes)
      ensures LongestTo(DagEdges(nodes), v, level[v]) && level[v] < |rows| && v in rows[level[v]]
    {
      var l :| 0 <= l < |rows| && v in rows[l];
      assert IsLayer(nodes, l, rows[l]);
    }
    forall l | 0 <= l < |rows|
      ensures IsRow(level, l, rows[l])
    {
      assert IsLayer(nodes, l, rows[l]);
    }
  }

  lemma OnlyDecisionsBranch(plan: Plan, isSubplan: bool, s: Settings)
    requires WellFormed(plan, isSubplan, s)
    ensures RefsExist(plan.nodes) && Acyclic(EdgesOf(plan.nodes))
    ensures forall n :: n in plan.nodes && !n.kind.Decision? ==> n.branches == []
  {
    hide Acyclic, RefsExist, NestsWithin, AllWellFormed;
    assert forall n :: n in plan.nodes ==> NodeIsFine(n, s.tools, s.tiers);
  }
}
