/** Whole schedules of a tree of runs: permits, progress, termination and the common outcome. */
module Schedules {
  import opened Wrappers
  import opened Graphs
  import opened Plans
  import opened Semantics
  import opened Execution
  import opened Interleaving

  // ---------- Counting over the tree ----------

  /** Either the permits held in a tree of runs, or the steps it can still take at most. */
  datatype Quantity = Permits | Work

  /** The most steps a run of these nodes can take, nested runs included. */
  function Size(nodes: seq<Node>): nat
    decreases nodes
  {
    if nodes == [] then 0 else Size(nodes[..|nodes| - 1]) + 4 + NestedSize(nodes[|nodes| - 1])
  }

  function NestedSize(node: Node): nat
    decreases node
  {
    if node.subplan.Some? then Size(node.subplan.value.nodes) else 0
  }

  function Sum(nodes: seq<Node>, run: Run, what: Quantity): nat
    decreases nodes
  {
    if nodes == [] then 0
    else Sum(nodes[..|nodes| - 1], run, what) + At(nodes[|nodes| - 1], run, what)
  }

  function At(node: Node, run: Run, what: Quantity): nat
    decreases node
  {
    if what.Work? && node.id in run.pending then 4 + NestedSize(node)
    else if node.id !in run.inFlight then 0
    else match run.inFlight[node.id]
      case Queued => if what.Work? then 3 + NestedSize(node) else 0
      case Holding(_) => 1
      case Nested(sub) =>
        (if what.Work? then 1 else 0) + if node.subplan.Some? then Sum(node.subplan.value.nodes, sub, what) else 0
  }

  ghost predicate SameAt(a: Run, b: Run, id: int) {
    && (id in a.pending <==> id in b.pending)
    && (id in a.inFlight <==> id in b.inFlight)
    && (id in a.inFlight ==> a.inFlight[id] == b.inFlight[id])
  }

  lemma {:induction false} SumSame(nodes: seq<Node>, a: Run, b: Run, what: Quantity)
    requires forall n :: n in nodes ==> SameAt(a, b, n.id)
    ensures Sum(nodes, a, what) == Sum(nodes, b, what)
  {
    if nodes != [] {
      SumSame(nodes[..|nodes| - 1], a, b, what);
      assert SameAt(a, b, nodes[|nodes| - 1].id);
    }
  }

  /** A step that touches one node changes the sum by what it changes at that node. */
  lemma {:induction false} SumChange(nodes: seq<Node>, a: Run, b: Run, what: Quantity, node: Node)
    requires DistinctIds(nodes) && node in nodes
    requires forall n :: n in nodes && n.id != node.id ==> SameAt(a, b, n.id)
    ensures Sum(nodes, b, what) + At(node, a, what) == Sum(nodes, a, what) + At(node, b, what)
  {
    hide SameAt, At;
    var init, last := nodes[..|nodes| - 1], nodes[|nodes| - 1];
    assert nodes == init + [last];
    LastIsDistinct(nodes);
    if last == node {
      SumSame(init, a, b, what);
    } else {
      SumChange(init, a, b, what, node);
      SameThere(last, a, b, what);
    }
  }

  lemma LastIsDistinct(nodes: seq<Node>)
    requires DistinctIds(nodes) && nodes != []
    ensures DistinctIds(nodes[..|nodes| - 1])
    ensures forall n :: n in nodes[..|nodes| - 1] ==> n.id != nodes[|nodes| - 1].id
  {
    var init := nodes[..|nodes| - 1];
    assert forall i :: 0 <= i < |init| ==> IdList(init)[i] == IdList(nodes)[i];
    forall n | n in init
      ensures n.id != nodes[|init|].id
    {
      var i :| 0 <= i < |init| && init[i] == n;
      assert IdList(nodes)[i] != IdList(nodes)[|init|];
    }
  }

  lemma SameThere(node: Node, a: Run, b: Run, what: Quantity)
    requires SameAt(a, b, node.id)
    ensures At(node, a, what) == At(node, b, what)
  {
  }

  lemma {:induction false} SumHasTerm(nodes: seq<Node>, run: Run, what: Quantity) returns (node: Node)
    requires Sum(nodes, run, what) > 0
    ensures node in nodes && At(node, run, what) > 0
  {
    var last := nodes[|nodes| - 1];
    if At(last, run, what) > 0 {
      node := last;
    } else {
      node := SumHasTerm(nodes[..|nodes| - 1], run, what);
    }
  }

  lemma {:induction false} StartSums(nodes: seq<Node>, run: Run)
    requires run.inFlight == map[] && forall n :: n in nodes ==> n.id in run.pending
    ensures Sum(nodes, run, Permits) == 0 && Sum(nodes, run, Work) == Size(nodes)
  {
    if nodes != [] {
      StartSums(nodes[..|nodes| - 1], run);
    }
  }

  lemma StartOfPlan(request: Request, plan: Plan)
    requires Accepted(plan)
    ensures Sum(plan.nodes, Start(request, plan), Permits) == 0
    ensures Sum(plan.nodes, Start(request, plan), Work) == Size(plan.nodes)
  {
    forall n | n in plan.nodes
      ensures n.id in Elems(plan.sortedIds)
    {
      IdIsListed(plan.nodes, n);
    }
    StartSums(plan.nodes, Start(request, plan));
  }

  // ---------- One step ----------

  function ActionId(action: Action): int {
    action.id
  }

  /** A step changes nothing at any node other than its own. */
  lemma StepIsLocal(oracle: Oracle, cap: int, plan: Plan, run: Run, free: bool, action: Action, id: int)
    requires Enabled(cap, plan, run, free, action) && id != ActionId(action)
    ensures SameAt(run, Apply(oracle, cap, plan, run, free, action), id)
  {
  }

  /** Every step uses up work, and takes a permit only when one is free. */
  lemma {:induction false} StepCounts(oracle: Oracle, cap: int, plan: Plan, run: Run, free: bool, action: Action)
    requires Accepted(plan) && TreeInvariant(oracle, cap, plan, run) && cap >= 1
    requires Enabled(cap, plan, run, free, action)
    ensures var next := Apply(oracle, cap, plan, run, free, action);
      && Sum(plan.nodes, next, Work) < Sum(plan.nodes, run, Work)
      && Sum(plan.nodes, next, Permits) <= Sum(plan.nodes, run, Permits) + if free then 1 else 0
    decreases action
  {
    hide Accepted, TasksInvariant, OnlyUsesSkipped, Deps, Consistent, Context, Record, TaskOutcome;
    var next := Apply(oracle, cap, plan, run, free, action);
    var id := ActionId(action);
    ActionIsListed(oracle, cap, plan, run, free, action);
    var node := NodeAt(plan.nodes, id);
    AtCounts(oracle, cap, plan, run, free, action);
    forall n | n in plan.nodes && n.id != id
      ensures SameAt(run, next, n.id)
    {
      StepIsLocal(oracle, cap, plan, run, free, action, n.id);
    }
    AcceptedIsDistinct(plan);
    SumChange(plan.nodes, run, next, Work, node);
    SumChange(plan.nodes, run, next, Permits, node);
  }

  lemma AcceptedIsDistinct(plan: Plan)
    requires Accepted(plan)
    ensures DistinctIds(plan.nodes)
  {
  }

  lemma ActionIsListed(oracle: Oracle, cap: int, plan: Plan, run: Run, free: bool, action: Action)
    requires Accepted(plan) && TreeInvariant(oracle, cap, plan, run)
    requires Enabled(cap, plan, run, free, action)
    ensures ActionId(action) in Ids(plan.nodes)
    ensures ActionId(action) in run.pending <==> ActionId(action) !in run.inFlight
  {
    hide Accepted, TasksInvariant, OnlyUsesSkipped, Deps, Consistent;
  }

  lemma {:induction false} AtCounts(oracle: Oracle, cap: int, plan: Plan, run: Run, free: bool, action: Action)
    requires Accepted(plan) && TreeInvariant(oracle, cap, plan, run) && cap >= 1
    requires Enabled(cap, plan, run, free, action)
    ensures ActionId(action) in Ids(plan.nodes)
    ensures var next := Apply(oracle, cap, plan, run, free, action);
      var node := NodeAt(plan.nodes, ActionId(action));
      && At(node, next, Work) < At(node, run, Work)
      && At(node, next, Permits) <= At(node, run, Permits) + if free then 1 else 0
    decreases action, 0
  {
    hide Accepted, RunInvariant, TasksInvariant, OnlyUsesSkipped, Deps, Context, Record, TaskOutcome, Start, Ids,
         NodeAt;
    var id := ActionId(action);
    ActionIsListed(oracle, cap, plan, run, free, action);
    var node := NodeAt(plan.nodes, id);
    if action.Open? {
      NestedIsAccepted(plan, node);
      StartOfPlan(SubplanRequest(run.request, plan, node, Context(node, run.results)), node.subplan.value);
    } else if action.Within? {
      HostedTask(oracle, cap, plan, run, id);
      StepCounts(oracle, cap, node.subplan.value, run.inFlight[id].run, free, action.inner);
    }
  }

  // ---------- Progress ----------

  /** The first pending node in plan order, when nothing is in flight, has all it waits for. */
  lemma FirstPending(oracle: Oracle, cap: int, plan: Plan, run: Run) returns (id: int)
    requires Accepted(plan) && TreeInvariant(oracle, cap, plan, run)
    requires run.inFlight == map[] && run.pending != {}
    ensures id in run.pending && id in Ids(plan.nodes)
    ensures id in run.results || Deps(plan, id) <= run.results.Keys
  {
    hide *;
    EveryIdIsHandled(oracle, cap, plan, run);
    var i := FirstIn(plan.sortedIds, run.pending);
    id := plan.sortedIds[i];
    DepsAreEarlier(plan, i);
    forall u | u in Deps(plan, id)
      ensures u in run.results
    {
      assert u in plan.sortedIds[..i];
      EarlierIsListed(plan.sortedIds, i, u);
    }
  }

  lemma FirstIn(order: seq<int>, pending: set<int>) returns (i: nat)
    requires pending != {} && pending <= Elems(order)
    ensures i < |order| && order[i] in pending && forall u :: u in order[..i] ==> u !in pending
  {
    Inhabited(pending);
    var someone: int :| someone in pending;
    assert someone in Elems(order);
    i := 0;
    while order[i] !in pending
      invariant 0 <= i < |order| && forall j :: 0 <= j < i ==> order[j] !in pending
      invariant someone in order[i..]
      decreases |order| - i
    {
      assert order[i..] == [order[i]] + order[i + 1..];
      i := i + 1;
    }
  }

  lemma EarlierIsListed(order: seq<int>, i: nat, u: int)
    requires i <= |order| && u in order[..i]
    ensures u in Elems(order)
  {
  }

  lemma EveryIdIsHandled(oracle: Oracle, cap: int, plan: Plan, run: Run)
    requires Accepted(plan) && TreeInvariant(oracle, cap, plan, run) && run.inFlight == map[]
    ensures Elems(plan.sortedIds) == Ids(plan.nodes) == run.pending + run.results.Keys
  {
    hide TasksInvariant, Consistent;
  }

  lemma DepsAreEarlier(plan: Plan, i: nat)
    requires Accepted(plan) && i < |plan.sortedIds|
    ensures plan.sortedIds[i] in Ids(plan.nodes)
    ensures forall u :: u in Deps(plan, plan.sortedIds[i]) ==> u in plan.sortedIds[..i]
  {
    assert plan.sortedIds[i] in Elems(plan.sortedIds);
  }

  /** While a run is unfinished some action is enabled, provided a permit is free or one of the
      holders sits inside the run. */
  lemma Progress(oracle: Oracle, cap: int, plan: Plan, run: Run, free: bool) returns (action: Action)
    requires Accepted(plan) && TreeInvariant(oracle, cap, plan, run) && cap >= 1
    requires !IsDone(run)
    requires free || Sum(plan.nodes, run, Permits) > 0
    ensures Enabled(cap, plan, run, free, action)
    decreases plan, 1
  {
    hide *;
    if run.inFlight == map[] {
      action := ProgressOfPending(oracle, cap, plan, run, free);
    } else {
      var id := SomeTask(oracle, cap, plan, run, free);
      action := TaskProgress(oracle, cap, plan, run, free, id);
    }
  }

  lemma ProgressOfPending(oracle: Oracle, cap: int, plan: Plan, run: Run, free: bool) returns (action: Action)
    requires Accepted(plan) && TreeInvariant(oracle, cap, plan, run) && cap >= 1
    requires !IsDone(run) && run.inFlight == map[]
    ensures Enabled(cap, plan, run, free, action)
  {
    hide Accepted, TreeInvariant, OnlyUsesSkipped, Deps, Ids, NodeAt;
    var id := FirstPending(oracle, cap, plan, run);
    action := if id in run.results then Drop(id)
              else if OnlyUsesSkipped(plan.nodes, NodeAt(plan.nodes, id), run.results, false) then SkipReady(id)
              else Dispatch(id);
  }

  /** Some task in flight; without a free permit, one that holds a permit or hosts a holder. */
  lemma SomeTask(oracle: Oracle, cap: int, plan: Plan, run: Run, free: bool) returns (id: int)
    requires Accepted(plan) && TreeInvariant(oracle, cap, plan, run) && run.inFlight != map[]
    requires free || Sum(plan.nodes, run, Permits) > 0
    ensures HasTask(plan, run, id)
    ensures free || At(NodeAt(plan.nodes, id), run, Permits) > 0
  {
    hide RunInvariant, TasksInvariant, AllAccepted, At, Sum;
    if free {
      assert run.inFlight.Keys != {};
      Inhabited(run.inFlight.Keys);
      id :| id in run.inFlight.Keys;
      InFlightIsNew(oracle, run.request, plan, run.results, run.pending, run.inFlight.Keys, id);
    } else {
      var node := SumHasTerm(plan.nodes, run, Permits);
      NodeAtIsUnique(plan.nodes, node);
      HolderIsInFlight(node, run);
      id := node.id;
    }
  }

  lemma HolderIsInFlight(node: Node, run: Run)
    requires At(node, run, Permits) > 0
    ensures node.id in run.inFlight
  {
  }

  lemma TaskProgress(oracle: Oracle, cap: int, plan: Plan, run: Run, free: bool, id: int) returns (action: Action)
    requires Accepted(plan) && TreeInvariant(oracle, cap, plan, run) && cap >= 1
    requires HasTask(plan, run, id)
    requires free || At(NodeAt(plan.nodes, id), run, Permits) > 0
    ensures Enabled(cap, plan, run, free, action)
    decreases plan, 0
  {
    hide Accepted, NodeAt, Ids, TreeInvariant, OnlyUsesSkipped, Deps, Context;
    var node := NodeAt(plan.nodes, id);
    match run.inFlight[id] {
      case Queued =>
        action := if !node.kind.Subplan? then Acquire(id) else if node.subplan.Some? then Open(id) else Finish(id);
      case Holding(_) =>
        action := Finish(id);
      case Nested(sub) =>
        HostedTask(oracle, cap, plan, run, id);
        if IsDone(sub) {
          action := Finish(id);
        } else {
          var inner := Progress(oracle, cap, node.subplan.value, sub, free);
          action := Within(id, inner);
        }
    }
  }

  // ---------- Who holds a permit ----------

  /** The plan and the run that the subplan nodes of the path lead to, if that run is under way. */
  ghost function RunAt(plan: Plan, run: Run, path: seq<int>): Option<(Plan, Run)>
    decreases |path|
  {
    if path == [] then Some((plan, run))
    else if HasTask(plan, run, path[0]) && run.inFlight[path[0]].Nested?
            && NodeAt(plan.nodes, path[0]).subplan.Some? then
      RunAt(NodeAt(plan.nodes, path[0]).subplan.value, run.inFlight[path[0]].run, path[1..])
    else None
  }

  /** The path leads to a task that has acquired the semaphore and not yet finished. */
  ghost predicate IsHolder(plan: Plan, run: Run, path: seq<int>) {
    && path != []
    && var there := RunAt(plan, run, path[..|path| - 1]);
      && there.Some? && HasTask(there.value.0, there.value.1, path[|path| - 1])
      && there.value.1.inFlight[path[|path| - 1]].Holding?
  }

  /** These are all the holders in the tree of runs. */
  ghost predicate AreHolders(plan: Plan, run: Run, holders: set<seq<int>>) {
    forall path :: path in holders <==> IsHolder(plan, run, path)
  }

  ghost function HoldersOf(nodes: seq<Node>, run: Run): set<seq<int>>
    decreases nodes
  {
    if nodes == [] then {} else HoldersOf(nodes[..|nodes| - 1], run) + HoldersAt(nodes[|nodes| - 1], run)
  }

  ghost function HoldersAt(node: Node, run: Run): set<seq<int>>
    decreases node
  {
    if node.id !in run.inFlight then {}
    else match run.inFlight[node.id]
      case Queued => {}
      case Holding(_) => {[node.id]}
      case Nested(sub) => if node.subplan.Some? then Prefixed(node.id, HoldersOf(node.subplan.value.nodes, sub)) else {}
  }

  ghost function Prefixed(id: int, paths: set<seq<int>>): set<seq<int>> {
    set p | p in paths :: [id] + p
  }

  lemma {:induction false} PrefixedCount(id: int, paths: set<seq<int>>)
    ensures |Prefixed(id, paths)| == |paths|
  {
    hide Prefixed;
    if paths == {} {
      NothingPrefixed(id);
    } else {
      PathExists(paths);
      var p :| p in paths;
      OneMorePrefixed(id, paths, p);
      PrefixedCount(id, paths - {p});
    }
  }

  lemma NothingPrefixed(id: int)
    ensures Prefixed(id, {}) == {}
  {
  }

  lemma PathExists(paths: set<seq<int>>)
    requires paths != {}
    ensures exists p :: p in paths
  {
    if forall p :: p !in paths {
      assert false;
    }
  }

  lemma OneMorePrefixed(id: int, paths: set<seq<int>>, p: seq<int>)
    requires p in paths
    ensures Prefixed(id, paths) == Prefixed(id, paths - {p}) + {[id] + p}
    ensures [id] + p !in Prefixed(id, paths - {p})
  {
    forall q | q in paths - {p}
      ensures [id] + q != [id] + p
    {
      assert q == ([id] + q)[1..] && p == ([id] + p)[1..];
    }
  }

  lemma HolderWithin(plan: Plan, run: Run, path: seq<int>)
    requires |path| >= 2
    ensures IsHolder(plan, run, path) <==>
      (HasTask(plan, run, path[0]) && run.inFlight[path[0]].Nested? && NodeAt(plan.nodes, path[0]).subplan.Some?
       && IsHolder(NodeAt(plan.nodes, path[0]).subplan.value, run.inFlight[path[0]].run, path[1..]))
  {
    hide Ids, NodeAt;
    assert path[..|path| - 1][1..] == path[1..][..|path[1..]| - 1];
  }

  lemma HolderHere(plan: Plan, run: Run, id: int)
    ensures IsHolder(plan, run, [id]) <==> HasTask(plan, run, id) && run.inFlight[id].Holding?
  {
    hide Ids;
    assert [id][..0] == [];
  }

  /** The permits counted at a node are as many as the holders there are at it and below it. */
  lemma {:induction false} HoldersAtNode(oracle: Oracle, cap: int, plan: Plan, run: Run, node: Node)
    requires Accepted(plan) && TreeInvariant(oracle, cap, plan, run) && node in plan.nodes
    ensures |HoldersAt(node, run)| == At(node, run, Permits)
    ensures forall path :: path in HoldersAt(node, run) <==>
      path != [] && path[0] == node.id && IsHolder(plan, run, path)
    decreases plan, 0
  {
    hide Accepted, TreeInvariant, IsHolder, NodeAt, Ids;
    NodeIsListed(plan, node);
    if node.id in run.inFlight && run.inFlight[node.id].Nested? {
      HostedTask(oracle, cap, plan, run, node.id);
      var p, sub := node.subplan.value, run.inFlight[node.id].run;
      HoldersAmong(oracle, cap, p, sub, |p.nodes|);
      assert p.nodes[..|p.nodes|] == p.nodes;
      PrefixedCount(node.id, HoldersOf(p.nodes, sub));
    }
    forall path
      ensures path in HoldersAt(node, run) <==> path != [] && path[0] == node.id && IsHolder(plan, run, path)
    {
      HolderAtNode(oracle, cap, plan, run, node, path);
    }
  }

  lemma HolderAtNode(oracle: Oracle, cap: int, plan: Plan, run: Run, node: Node, path: seq<int>)
    requires Accepted(plan) && TreeInvariant(oracle, cap, plan, run) && node in plan.nodes
    requires node.id in Ids(plan.nodes) && NodeAt(plan.nodes, node.id) == node
    requires node.id in run.inFlight && run.inFlight[node.id].Nested? ==>
      node.subplan.Some? && AreHolders(node.subplan.value, run.inFlight[node.id].run,
                                       HoldersOf(node.subplan.value.nodes, run.inFlight[node.id].run))
    ensures path in HoldersAt(node, run) <==> path != [] && path[0] == node.id && IsHolder(plan, run, path)
  {
    hide Accepted, TreeInvariant, IsHolder, NodeAt, Ids, HoldersOf;
    if |path| == 1 {
      assert path == [path[0]];
      HolderHere(plan, run, path[0]);
    } else if |path| >= 2 {
      assert path == [path[0]] + path[1..];
      HolderWithin(plan, run, path);
    }
    if |path| <= 1 && node.id in run.inFlight && run.inFlight[node.id].Nested? {
      forall q | q in HoldersOf(node.subplan.value.nodes, run.inFlight[node.id].run)
        ensures [node.id] + q != path
      {
        NoEmptyHolder(node.subplan.value, run.inFlight[node.id].run, q);
      }
    }
    if node.id in run.inFlight && run.inFlight[node.id].Nested? {
      forall q | [node.id] + q == path
        ensures q == path[1..]
      {
      }
    }
  }

  lemma NoEmptyHolder(plan: Plan, run: Run, path: seq<int>)
    requires IsHolder(plan, run, path)
    ensures path != []
  {
  }

  lemma {:induction false} HoldersAmong(oracle: Oracle, cap: int, plan: Plan, run: Run, k: nat)
    requires Accepted(plan) && TreeInvariant(oracle, cap, plan, run) && k <= |plan.nodes|
    ensures |HoldersOf(plan.nodes[..k], run)| == Sum(plan.nodes[..k], run, Permits)
    ensures forall path :: path in HoldersOf(plan.nodes[..k], run) <==>
      path != [] && path[0] in Ids(plan.nodes[..k]) && IsHolder(plan, run, path)
    ensures k == |plan.nodes| ==> AreHolders(plan, run, HoldersOf(plan.nodes, run))
    decreases plan, 1, k
  {
    hide *;
    if k == 0 {
      NoHolders(plan, run);
    } else {
      HoldersAmong(oracle, cap, plan, run, k - 1);
      HoldersAtNode(oracle, cap, plan, run, plan.nodes[k - 1]);
      IdsGrow(plan, k);
      MoreHolders(plan, run, k);
    }
    if k == |plan.nodes| {
      AllHolders(plan, run);
    }
  }

  lemma NoHolders(plan: Plan, run: Run)
    ensures plan.nodes[..0] == [] && HoldersOf([], run) == {} && Sum([], run, Permits) == 0 && Ids([]) == {}
  {
  }

  lemma MoreHolders(plan: Plan, run: Run, k: nat)
    requires 0 < k <= |plan.nodes|
    requires var node, before := plan.nodes[k - 1], plan.nodes[..k - 1];
      && |HoldersOf(before, run)| == Sum(before, run, Permits) && |HoldersAt(node, run)| == At(node, run, Permits)
      && Ids(plan.nodes[..k]) == Ids(before) + {node.id} && node.id !in Ids(before)
      && (forall path :: path in HoldersOf(before, run) <==>
            path != [] && path[0] in Ids(before) && IsHolder(plan, run, path))
      && (forall path :: path in HoldersAt(node, run) <==>
            path != [] && path[0] == node.id && IsHolder(plan, run, path))
    ensures |HoldersOf(plan.nodes[..k], run)| == Sum(plan.nodes[..k], run, Permits)
    ensures forall path :: path in HoldersOf(plan.nodes[..k], run) <==>
      path != [] && path[0] in Ids(plan.nodes[..k]) && IsHolder(plan, run, path)
  {
    hide IsHolder, HoldersAt, At, Ids;
    assert plan.nodes[..k][..k - 1] == plan.nodes[..k - 1];
    var a, b := HoldersOf(plan.nodes[..k - 1], run), HoldersAt(plan.nodes[k - 1], run);
    assert a !! b;
    assert |a + b| == |a| + |b|;
  }

  lemma AllHolders(plan: Plan, run: Run)
    requires forall path :: path in HoldersOf(plan.nodes[..|plan.nodes|], run) <==>
      path != [] && path[0] in Ids(plan.nodes[..|plan.nodes|]) && IsHolder(plan, run, path)
    ensures AreHolders(plan, run, HoldersOf(plan.nodes, run))
  {
    hide IsHolder, HoldersOf, Ids;
    assert plan.nodes[..|plan.nodes|] == plan.nodes;
    forall path | IsHolder(plan, run, path)
      ensures path != [] && path[0] in Ids(plan.nodes)
    {
      HolderIsListed(plan, run, path);
    }
  }

  lemma IdsGrow(plan: Plan, k: nat)
    requires Accepted(plan) && 0 < k <= |plan.nodes|
    ensures Ids(plan.nodes[..k]) == Ids(plan.nodes[..k - 1]) + {plan.nodes[k - 1].id}
    ensures plan.nodes[k - 1].id !in Ids(plan.nodes[..k - 1])
  {
    hide AllAccepted, EdgesOf, Forward, Closed;
    var ids := IdList(plan.nodes);
    assert IdList(plan.nodes[..k]) == IdList(plan.nodes[..k - 1]) + [plan.nodes[k - 1].id];
    assert forall i :: 0 <= i < k - 1 ==> IdList(plan.nodes[..k - 1])[i] == ids[i] != ids[k - 1];
  }

  lemma HolderIsListed(plan: Plan, run: Run, path: seq<int>)
    requires IsHolder(plan, run, path)
    ensures path != [] && path[0] in Ids(plan.nodes)
  {
    hide Ids, NodeAt;
  }

  /** The holders of a tree of runs, as many as the count of permits says. */
  lemma HoldersAreCounted(oracle: Oracle, cap: int, plan: Plan, run: Run) returns (holders: set<seq<int>>)
    requires Accepted(plan) && TreeInvariant(oracle, cap, plan, run)
    ensures AreHolders(plan, run, holders) && |holders| == Sum(plan.nodes, run, Permits)
  {
    hide *;
    holders := HoldersOf(plan.nodes, run);
    HoldersAmong(oracle, cap, plan, run, |plan.nodes|);
    assert plan.nodes[..|plan.nodes|] == plan.nodes;
  }

  lemma HoldersAreUnique(plan: Plan, run: Run, a: set<seq<int>>, b: set<seq<int>>)
    requires AreHolders(plan, run, a) && AreHolders(plan, run, b)
    ensures a == b
  {
    hide IsHolder;
  }

  // ---------- Schedules ----------

  /** The shared semaphore has a permit left: fewer tasks of the whole tree hold one than there are. */
  ghost predicate HasFreePermit(cap: int, plan: Plan, run: Run) {
    exists holders :: AreHolders(plan, run, holders) && |holders| < cap
  }

  lemma FreeMeansCounted(oracle: Oracle, cap: int, plan: Plan, run: Run)
    requires Accepted(plan) && TreeInvariant(oracle, cap, plan, run)
    ensures HasFreePermit(cap, plan, run) <==> Sum(plan.nodes, run, Permits) < cap
  {
    hide *;
    var counted := HoldersAreCounted(oracle, cap, plan, run);
    FreeMeansFewer(cap, plan, run, counted);
  }

  lemma FreeMeansFewer(cap: int, plan: Plan, run: Run, counted: set<seq<int>>)
    requires AreHolders(plan, run, counted)
    ensures HasFreePermit(cap, plan, run) <==> |counted| < cap
  {
    hide AreHolders;
    if holders :| AreHolders(plan, run, holders) && |holders| < cap {
      HoldersAreUnique(plan, run, holders, counted);
    }
  }

  /** A schedule is any sequence of actions each of which is enabled when its turn comes. */
  ghost predicate Admissible(oracle: Oracle, cap: int, plan: Plan, run: Run, schedule: seq<Action>)
    decreases |schedule|
  {
    schedule == [] ||
    (var free := HasFreePermit(cap, plan, run);
     Enabled(cap, plan, run, free, schedule[0])
     && Admissible(oracle, cap, plan, Apply(oracle, cap, plan, run, free, schedule[0]), schedule[1..]))
  }

  ghost function After(oracle: Oracle, cap: int, plan: Plan, run: Run, schedule: seq<Action>): Run
    requires Admissible(oracle, cap, plan, run, schedule)
    decreases |schedule|
  {
    if schedule == [] then run
    else After(oracle, cap, plan, Apply(oracle, cap, plan, run, HasFreePermit(cap, plan, run), schedule[0]),
               schedule[1..])
  }

  /** What holds of the tree of runs after any schedule. */
  ghost predicate Sound(oracle: Oracle, cap: int, plan: Plan, run: Run)
    requires Accepted(plan)
  {
    TreeInvariant(oracle, cap, plan, run) && Sum(plan.nodes, run, Permits) <= cap
  }

  lemma {:induction false} ScheduleIsSound(oracle: Oracle, cap: int, plan: Plan, run: Run, schedule: seq<Action>)
    requires Accepted(plan) && cap >= 1 && Sound(oracle, cap, plan, run)
    requires Admissible(oracle, cap, plan, run, schedule)
    ensures var end := After(oracle, cap, plan, run, schedule);
      && Sound(oracle, cap, plan, end) && end.request == run.request
      && |schedule| + Sum(plan.nodes, end, Work) <= Sum(plan.nodes, run, Work)
    decreases |schedule|
  {
    hide Accepted, TreeInvariant, Enabled, Apply, HasFreePermit;
    if schedule != [] {
      FreeMeansCounted(oracle, cap, plan, run);
      var free := HasFreePermit(cap, plan, run);
      var next := Apply(oracle, cap, plan, run, free, schedule[0]);
      StepKeepsInvariant(oracle, cap, plan, run, free, schedule[0]);
      StepCounts(oracle, cap, plan, run, free, schedule[0]);
      RequestStays(oracle, cap, plan, run, free, schedule[0]);
      ScheduleIsSound(oracle, cap, plan, next, schedule[1..]);
    }
  }

  /** For every schedule of every accepted plan and every cap: at most cap tasks of the whole tree hold a
      permit, the schedule is no longer than the plan's size, it can go on until the root run is done, and
      then the results and the final output are those of the sequential pass. */
  lemma EverySchedule(oracle: Oracle, cap: int, request: Request, plan: Plan, schedule: seq<Action>)
    requires Accepted(plan) && cap >= 1
    requires Admissible(oracle, cap, plan, Start(request, plan), schedule)
    ensures var end := After(oracle, cap, plan, Start(request, plan), schedule);
      && TreeInvariant(oracle, cap, plan, end)
      && (exists holders :: AreHolders(plan, end, holders) && |holders| <= cap)
      && |schedule| <= Size(plan.nodes)
      && (!IsDone(end) ==> exists action :: Enabled(cap, plan, end, HasFreePermit(cap, plan, end), action))
      && (IsDone(end) ==> end.results == Denote(oracle, request, plan))
      && (IsDone(end) ==> FinalOutput(plan, end.results) == FinalOutput(plan, Denote(oracle, request, plan)))
  {
    var start := Start(request, plan);
    StartInvariant(oracle, cap, request, plan);
    StartOfPlan(request, plan);
    hide Accepted, TreeInvariant, Enabled, Denote, FinalOutput, HasFreePermit, AreHolders;
    ScheduleIsSound(oracle, cap, plan, start, schedule);
    var end := After(oracle, cap, plan, start, schedule);
    var holders := HoldersAreCounted(oracle, cap, plan, end);
    FreeMeansCounted(oracle, cap, plan, end);
    if IsDone(end) {
      DoneMeansDenoted(oracle, cap, plan, end);
    } else {
      var action := Progress(oracle, cap, plan, end, HasFreePermit(cap, plan, end));
    }
  }

  /** After any schedule every set of tasks that hold a permit, anywhere in the tree, has at most cap
      members; and a task is kept waiting for a permit only while exactly cap tasks hold one. */
  lemma AtMostCapHolders(oracle: Oracle, cap: int, request: Request, plan: Plan, schedule: seq<Action>)
    requires Accepted(plan) && cap >= 1
    requires Admissible(oracle, cap, plan, Start(request, plan), schedule)
    ensures var end := After(oracle, cap, plan, Start(request, plan), schedule);
      && (forall some: set<seq<int>> :: (forall path :: path in some ==> IsHolder(plan, end, path)) ==> |some| <= cap)
      && (!HasFreePermit(cap, plan, end) ==>
            exists holders :: AreHolders(plan, end, holders) && |holders| == cap)
  {
    EverySchedule(oracle, cap, request, plan, schedule);
    var end := After(oracle, cap, plan, Start(request, plan), schedule);
    hide *;
    var holders :| AreHolders(plan, end, holders) && |holders| <= cap;
    FreeMeansFewer(cap, plan, end, holders);
    forall some: set<seq<int>> | forall path :: path in some ==> IsHolder(plan, end, path)
      ensures |some| <= cap
    {
      HoldersContain(plan, end, holders, some);
    }
  }

  lemma HoldersContain(plan: Plan, run: Run, holders: set<seq<int>>, some: set<seq<int>>)
    requires AreHolders(plan, run, holders) && forall path :: path in some ==> IsHolder(plan, run, path)
    ensures |some| <= |holders|
  {
    hide IsHolder;
    assert some <= holders;
    SubsetIsSmaller(some, holders);
  }

  lemma SubsetIsSmaller(a: set<seq<int>>, b: set<seq<int>>)
    requires a <= b
    ensures |a| <= |b|
  {
    assert b == a + (b - a);
  }

  /** Two schedules that both run to the end agree on every result, whatever their caps. */
  lemma SchedulesAgree(oracle: Oracle, capA: int, capB: int, request: Request, plan: Plan, a: seq<Action>,
                       b: seq<Action>)
    requires Accepted(plan) && capA >= 1 && capB >= 1
    requires Admissible(oracle, capA, plan, Start(request, plan), a)
    requires Admissible(oracle, capB, plan, Start(request, plan), b)
    requires IsDone(After(oracle, capA, plan, Start(request, plan), a))
    requires IsDone(After(oracle, capB, plan, Start(request, plan), b))
    ensures After(oracle, capA, plan, Start(request, plan), a).results
         == After(oracle, capB, plan, Start(request, plan), b).results
  {
    EverySchedule(oracle, capA, request, plan, a);
    EverySchedule(oracle, capB, request, plan, b);
  }

  /** Whenever a run is interrupted, what it has recorded is a state from which the scheduler can resume. */
  lemma InterruptedRunsCanResume(oracle: Oracle, cap: int, request: Request, plan: Plan, schedule: seq<Action>)
    requires Accepted(plan) && cap >= 1
    requires Admissible(oracle, cap, plan, Start(request, plan), schedule)
    ensures Consistent(oracle, request, plan, After(oracle, cap, plan, Start(request, plan), schedule).results)
  {
    var start := Start(request, plan);
    StartInvariant(oracle, cap, request, plan);
    StartOfPlan(request, plan);
    hide Accepted, Enabled, TasksInvariant, Consistent, CanRun, Admissible, After;
    ScheduleIsSound(oracle, cap, plan, start, schedule);
  }

  // ---------- Nothing happens twice ----------

  /** The action lies in the past of this run and can never be enabled again. */
  ghost predicate Spent(run: Run, action: Action)
    decreases action
  {
    match action
    case Drop(id) => id !in run.pending
    case SkipReady(id) => id !in run.pending
    case Dispatch(id) => id !in run.pending
    case Acquire(id) => id !in run.pending && !(id in run.inFlight && run.inFlight[id].Queued?)
    case Open(id) => id !in run.pending && !(id in run.inFlight && run.inFlight[id].Queued?)
    case Finish(id) => id !in run.pending && id !in run.inFlight
    case Within(id, inner) =>
      && id !in run.pending
      && (id in run.inFlight ==> run.inFlight[id].Nested? && Spent(run.inFlight[id].run, inner))
  }

  lemma {:induction false} SpentIsDisabled(cap: int, plan: Plan, run: Run, free: bool, action: Action)
    requires Spent(run, action)
    ensures !Enabled(cap, plan, run, free, action)
    decreases action
  {
    hide OnlyUsesSkipped, Deps;
    if action.Within? && Enabled(cap, plan, run, free, action) {
      SpentIsDisabled(cap, NodeAt(plan.nodes, action.id).subplan.value, run.inFlight[action.id].run, free,
                      action.inner);
    }
  }

  lemma {:induction false} ActionSpendsItself(oracle: Oracle, cap: int, plan: Plan, run: Run, free: bool,
                                              action: Action)
    requires Accepted(plan) && TreeInvariant(oracle, cap, plan, run) && Enabled(cap, plan, run, free, action)
    ensures Spent(Apply(oracle, cap, plan, run, free, action), action)
    decreases action
  {
    hide Accepted, RunInvariant, TasksInvariant, OnlyUsesSkipped, Deps, Record, Context;
    ActionIsListed(oracle, cap, plan, run, free, action);
    if action.Within? {
      HostedTask(oracle, cap, plan, run, action.id);
      ActionSpendsItself(oracle, cap, NodeAt(plan.nodes, action.id).subplan.value,
                         run.inFlight[action.id].run, free, action.inner);
    }
  }

  lemma {:induction false} SpentStays(oracle: Oracle, cap: int, plan: Plan, run: Run, free: bool, past: Action,
                                      action: Action)
    requires Enabled(cap, plan, run, free, action) && Spent(run, past)
    ensures Spent(Apply(oracle, cap, plan, run, free, action), past)
    decreases action
  {
    hide OnlyUsesSkipped, Deps, Record, Context, Ids, NodeAt;
    if past.Within? && action.Within? && past.id == action.id {
      SpentStays(oracle, cap, NodeAt(plan.nodes, action.id).subplan.value,
                 run.inFlight[action.id].run, free, past.inner, action.inner);
    }
  }

  lemma {:induction false} SpentNeverRecurs(oracle: Oracle, cap: int, plan: Plan, run: Run, schedule: seq<Action>,
                                            past: Action)
    requires Admissible(oracle, cap, plan, run, schedule) && Spent(run, past)
    ensures past !in schedule
    decreases |schedule|
  {
    hide Enabled, Apply, Spent;
    if schedule != [] {
      var free := HasFreePermit(cap, plan, run);
      SpentIsDisabled(cap, plan, run, free, past);
      SpentStays(oracle, cap, plan, run, free, past, schedule[0]);
      SpentNeverRecurs(oracle, cap, plan, Apply(oracle, cap, plan, run, free, schedule[0]), schedule[1..], past);
    }
  }

  /** No action occurs twice: every node of the tree is dispatched, started, skipped and finished at
      most once, so each result is written once. */
  lemma {:induction false} NothingHappensTwice(oracle: Oracle, cap: int, plan: Plan, run: Run, schedule: seq<Action>,
                                               i: nat, j: nat)
    requires Accepted(plan) && cap >= 1 && Sound(oracle, cap, plan, run)
    requires Admissible(oracle, cap, plan, run, schedule) && i < j < |schedule|
    ensures schedule[i] != schedule[j]
    decreases |schedule|
  {
    hide Accepted, TreeInvariant, Enabled, Apply, Spent, HasFreePermit;
    var free := HasFreePermit(cap, plan, run);
    var next := Apply(oracle, cap, plan, run, free, schedule[0]);
    if i == 0 {
      ActionSpendsItself(oracle, cap, plan, run, free, schedule[0]);
      SpentNeverRecurs(oracle, cap, plan, next, schedule[1..], schedule[0]);
      assert schedule[1..][j - 1] == schedule[j];
    } else {
      FreeMeansCounted(oracle, cap, plan, run);
      StepKeepsInvariant(oracle, cap, plan, run, free, schedule[0]);
      StepCounts(oracle, cap, plan, run, free, schedule[0]);
      NothingHappensTwice(oracle, cap, plan, next, schedule[1..], i - 1, j - 1);
    }
  }

  // ---------- Nested runs ----------

  lemma {:induction false} NestedIsSound(oracle: Oracle, cap: int, plan: Plan, run: Run, path: seq<int>)
    requires Accepted(plan) && TreeInvariant(oracle, cap, plan, run) && RunAt(plan, run, path).Some?
    ensures var (p, r) := RunAt(plan, run, path).value;
      Accepted(p) && TreeInvariant(oracle, cap, p, r)
    decreases |path|
  {
    hide Accepted, TreeInvariant;
    if path != [] {
      HostedTask(oracle, cap, plan, run, path[0]);
      NestedIsSound(oracle, cap, NodeAt(plan.nodes, path[0]).subplan.value, run.inFlight[path[0]].run, path[1..]);
    }
  }

  /** Something a run never takes back. */
  datatype Milestone = Began(id: int) | Wrote(id: int, result: NodeResult)

  ghost predicate HasReached(run: Run, m: Milestone) {
    match m
    case Began(id) => HasStarted(run, id)
    case Wrote(id, result) => id in run.results && run.results[id] == result
  }

  ghost predicate HasStarted(run: Run, id: int) {
    || (id in run.inFlight && !run.inFlight[id].Queued?)
    || (id in run.results && !run.results[id].status.Skipped?)
  }

  /** The run at the path has reached the milestone, or that run is over. */
  ghost predicate ReachedAt(plan: Plan, run: Run, path: seq<int>, m: Milestone)
    decreases |path|
  {
    if path == [] then HasReached(run, m)
    else
      && path[0] !in run.pending
      && (HasTask(plan, run, path[0]) ==>
            && run.inFlight[path[0]].Nested?
            && (NodeAt(plan.nodes, path[0]).subplan.Some? ==>
                  ReachedAt(NodeAt(plan.nodes, path[0]).subplan.value, run.inFlight[path[0]].run, path[1..], m)))
  }

  lemma {:induction false} ReachedThere(plan: Plan, run: Run, path: seq<int>, m: Milestone)
    requires ReachedAt(plan, run, path, m) && RunAt(plan, run, path).Some?
    ensures HasReached(RunAt(plan, run, path).value.1, m)
    decreases |path|
  {
    hide NodeAt, Ids, HasReached;
    if path != [] {
      ReachedThere(NodeAt(plan.nodes, path[0]).subplan.value, run.inFlight[path[0]].run, path[1..], m);
    }
  }

  lemma MilestoneStays(oracle: Oracle, cap: int, plan: Plan, run: Run, free: bool, action: Action, m: Milestone)
    requires Accepted(plan) && TreeInvariant(oracle, cap, plan, run)
    requires Enabled(cap, plan, run, free, action) && HasReached(run, m)
    ensures HasReached(Apply(oracle, cap, plan, run, free, action), m)
  {
    hide Accepted, RunInvariant, TasksInvariant, OnlyUsesSkipped, Deps, Context, TaskOutcome;
    ActionIsListed(oracle, cap, plan, run, free, action);
    if action.Finish? {
      var node := NodeAt(plan.nodes, action.id);
      InFlightIsNew(oracle, run.request, plan, run.results, run.pending, run.inFlight.Keys, action.id);
      RecordGrows(plan.nodes, node, TaskOutcome(oracle, plan, run, node, run.inFlight[action.id]), run.results);
    }
  }

  lemma {:induction false} ReachedStays(oracle: Oracle, cap: int, plan: Plan, run: Run, free: bool, action: Action,
                                        path: seq<int>, m: Milestone)
    requires Accepted(plan) && TreeInvariant(oracle, cap, plan, run)
    requires Enabled(cap, plan, run, free, action) && ReachedAt(plan, run, path, m)
    ensures ReachedAt(plan, Apply(oracle, cap, plan, run, free, action), path, m)
    decreases |path|
  {
    hide Accepted, TreeInvariant, OnlyUsesSkipped, Deps, Record, Context, TaskOutcome, Ids, NodeAt, HasReached;
    if path == [] {
      MilestoneStays(oracle, cap, plan, run, free, action, m);
    } else if action.Within? && action.id == path[0] {
      HostedTask(oracle, cap, plan, run, action.id);
      ReachedStays(oracle, cap, NodeAt(plan.nodes, action.id).subplan.value, run.inFlight[action.id].run, free,
                   action.inner, path[1..], m);
    }
  }

  lemma {:induction false} ReachedForGood(oracle: Oracle, cap: int, plan: Plan, run: Run, schedule: seq<Action>,
                                          path: seq<int>, m: Milestone)
    requires Accepted(plan) && cap >= 1 && Sound(oracle, cap, plan, run)
    requires Admissible(oracle, cap, plan, run, schedule) && ReachedAt(plan, run, path, m)
    ensures ReachedAt(plan, After(oracle, cap, plan, run, schedule), path, m)
    decreases |schedule|
  {
    hide Accepted, TreeInvariant, Enabled, Apply, ReachedAt, HasFreePermit;
    if schedule != [] {
      var free := HasFreePermit(cap, plan, run);
      FreeMeansCounted(oracle, cap, plan, run);
      StepKeepsInvariant(oracle, cap, plan, run, free, schedule[0]);
      StepCounts(oracle, cap, plan, run, free, schedule[0]);
      ReachedStays(oracle, cap, plan, run, free, schedule[0], path, m);
      ReachedForGood(oracle, cap, plan, Apply(oracle, cap, plan, run, free, schedule[0]), schedule[1..], path, m);
    }
  }

  lemma {:induction false} NowReached(oracle: Oracle, cap: int, plan: Plan, run: Run, path: seq<int>, m: Milestone)
    requires Accepted(plan) && TreeInvariant(oracle, cap, plan, run) && RunAt(plan, run, path).Some?
    requires HasReached(RunAt(plan, run, path).value.1, m)
    ensures ReachedAt(plan, run, path, m)
    decreases |path|
  {
    hide Accepted, TasksInvariant, Consistent, CanRun, NodeAt, Ids, HasReached;
    if path != [] {
      HostedTask(oracle, cap, plan, run, path[0]);
      NowReached(oracle, cap, NodeAt(plan.nodes, path[0]).subplan.value, run.inFlight[path[0]].run, path[1..], m);
    }
  }

  /** Results are final: what a run anywhere in the tree has recorded for a node stays as long as that run
      is under way. */
  lemma ResultsAreFinal(oracle: Oracle, cap: int, plan: Plan, run: Run, schedule: seq<Action>, path: seq<int>, id: int)
    requires Accepted(plan) && cap >= 1 && Sound(oracle, cap, plan, run)
    requires Admissible(oracle, cap, plan, run, schedule)
    requires RunAt(plan, run, path).Some? && id in RunAt(plan, run, path).value.1.results
    ensures var before, after := RunAt(plan, run, path), RunAt(plan, After(oracle, cap, plan, run, schedule), path);
      after.Some? ==> id in after.value.1.results && after.value.1.results[id] == before.value.1.results[id]
  {
    hide Accepted, TreeInvariant, Admissible, After, ReachedAt, RunAt;
    var m := Wrote(id, RunAt(plan, run, path).value.1.results[id]);
    NowReached(oracle, cap, plan, run, path, m);
    ReachedForGood(oracle, cap, plan, run, schedule, path, m);
    var end := After(oracle, cap, plan, run, schedule);
    if RunAt(plan, end, path).Some? {
      ReachedThere(plan, end, path, m);
    }
  }

  // ---------- Who may start ----------

  /** The action starts a node of the run at the path. */
  ghost predicate Starts(action: Action, path: seq<int>, id: int)
    decreases |path|
  {
    if path == [] then action == Acquire(id) || action == Open(id)
    else action.Within? && action.id == path[0] && Starts(action.inner, path[1..], id)
  }

  /** A node of any run in the tree starts only once all its data and control dependencies have results
      there. */
  lemma {:induction false} StartIsReady(oracle: Oracle, cap: int, plan: Plan, run: Run, free: bool, action: Action,
                                        path: seq<int>, id: int)
    requires Accepted(plan) && TreeInvariant(oracle, cap, plan, run)
    requires Enabled(cap, plan, run, free, action) && Starts(action, path, id)
    ensures RunAt(plan, run, path).Some?
    ensures var (p, r) := RunAt(plan, run, path).value;
      && Deps(p, id) <= r.results.Keys && id !in r.results
      && forall d :: d in p.nodes && d.id in r.results ==> !ListsUntaken(d, r.results[d.id], id)
    decreases |path|
  {
    hide *;
    if path == [] {
      StartIsReadyHere(oracle, cap, plan, run, free, action, id);
    } else {
      StartsWithin(plan, run, cap, free, action, path, id);
      HostedTask(oracle, cap, plan, run, path[0]);
      StartIsReady(oracle, cap, NodeAt(plan.nodes, path[0]).subplan.value, run.inFlight[path[0]].run, free,
                   action.inner, path[1..], id);
    }
  }

  lemma StartIsReadyHere(oracle: Oracle, cap: int, plan: Plan, run: Run, free: bool, action: Action, id: int)
    requires Accepted(plan) && TreeInvariant(oracle, cap, plan, run)
    requires Enabled(cap, plan, run, free, action) && Starts(action, [], id)
    ensures RunAt(plan, run, []) == Some((plan, run))
    ensures Deps(plan, id) <= run.results.Keys && id !in run.results
    ensures forall d :: d in plan.nodes && d.id in run.results ==> !ListsUntaken(d, run.results[d.id], id)
  {
    hide Accepted, TasksInvariant, OnlyUsesSkipped, ListsUntaken;
    assert CanRun(plan, run.results, id);
    ExcludedIs(plan.nodes, run.results, id);
  }

  /** A step that starts a node further down is a step of the nested run that the path goes through. */
  lemma StartsWithin(plan: Plan, run: Run, cap: int, free: bool, action: Action, path: seq<int>, id: int)
    requires path != [] && Enabled(cap, plan, run, free, action) && Starts(action, path, id)
    ensures action.Within? && action.id == path[0] && HasTask(plan, run, path[0])
    ensures path[0] in Ids(plan.nodes) && path[0] in run.inFlight && run.inFlight[path[0]].Nested?
    ensures var node := NodeAt(plan.nodes, path[0]);
      && node.subplan.Some? && Starts(action.inner, path[1..], id)
      && Enabled(cap, node.subplan.value, run.inFlight[path[0]].run, free, action.inner)
      && RunAt(plan, run, path) == RunAt(node.subplan.value, run.inFlight[path[0]].run, path[1..])
  {
    hide Ids, NodeAt;
  }

  lemma {:induction false} StartIsReached(oracle: Oracle, cap: int, plan: Plan, run: Run, free: bool, action: Action,
                                          path: seq<int>, id: int)
    requires Accepted(plan) && TreeInvariant(oracle, cap, plan, run)
    requires Enabled(cap, plan, run, free, action) && Starts(action, path, id)
    ensures ReachedAt(plan, Apply(oracle, cap, plan, run, free, action), path, Began(id))
    decreases |path|
  {
    hide *;
    if path == [] {
      StartIsReachedHere(oracle, cap, plan, run, free, action, id);
    } else {
      StartsWithin(plan, run, cap, free, action, path, id);
      HostedTask(oracle, cap, plan, run, path[0]);
      var sub, inner := NodeAt(plan.nodes, path[0]).subplan.value, run.inFlight[path[0]].run;
      StartIsReached(oracle, cap, sub, inner, free, action.inner, path[1..], id);
      ReachedWithin(oracle, cap, plan, run, free, action, path, Began(id));
    }
  }

  lemma StartIsReachedHere(oracle: Oracle, cap: int, plan: Plan, run: Run, free: bool, action: Action, id: int)
    requires Enabled(cap, plan, run, free, action) && Starts(action, [], id)
    ensures ReachedAt(plan, Apply(oracle, cap, plan, run, free, action), [], Began(id))
  {
    hide Ids, NodeAt, Context;
  }

  /** What a step of a nested run reaches there, the whole tree has reached at the longer path. */
  lemma ReachedWithin(oracle: Oracle, cap: int, plan: Plan, run: Run, free: bool, action: Action, path: seq<int>,
                      m: Milestone)
    requires Accepted(plan) && TreeInvariant(oracle, cap, plan, run) && Enabled(cap, plan, run, free, action)
    requires path != [] && action.Within? && action.id == path[0]
    requires ReachedAt(NodeAt(plan.nodes, path[0]).subplan.value,
                       Apply(oracle, cap, NodeAt(plan.nodes, path[0]).subplan.value, run.inFlight[path[0]].run, free,
                             action.inner),
                       path[1..], m)
    ensures ReachedAt(plan, Apply(oracle, cap, plan, run, free, action), path, m)
  {
    hide Accepted, TasksInvariant, Consistent, CanRun, NodeAt, Ids;
  }

  lemma StartedIsNotExcluded(oracle: Oracle, cap: int, plan: Plan, run: Run, id: int)
    requires Accepted(plan) && TreeInvariant(oracle, cap, plan, run) && HasStarted(run, id)
    ensures id !in Excluded(plan.nodes, run.results)
  {
    hide Accepted, TasksInvariant, CanRun;
    if id in run.inFlight {
      InFlightIsNew(oracle, run.request, plan, run.results, run.pending, run.inFlight.Keys, id);
    } else {
      assert Justified(oracle, run.request, plan, run.results, id);
    }
  }

  /** A node that starts anywhere in a schedule, in whichever run of the tree, is not excluded there by any
      decision executed before or after: no node under an untaken branch ever starts. */
  lemma {:induction false} ExcludedNeverStarts(oracle: Oracle, cap: int, plan: Plan, run: Run, schedule: seq<Action>,
                                               path: seq<int>, id: int)
    requires Accepted(plan) && cap >= 1 && Sound(oracle, cap, plan, run)
    requires Admissible(oracle, cap, plan, run, schedule)
    requires ReachedAt(plan, run, path, Began(id)) || exists action :: action in schedule && Starts(action, path, id)
    ensures var there := RunAt(plan, After(oracle, cap, plan, run, schedule), path);
      there.Some? ==> forall d :: d in there.value.0.nodes && d.id in there.value.1.results ==>
        !ListsUntaken(d, there.value.1.results[d.id], id)
    decreases |schedule|
  {
    hide Accepted, TreeInvariant, Enabled, Apply, ReachedAt, RunAt, Starts, Excluded, HasFreePermit;
    if schedule == [] {
      if RunAt(plan, run, path).Some? {
        ReachedThere(plan, run, path, Began(id));
        NestedIsSound(oracle, cap, plan, run, path);
        StartedIsNotExcluded(oracle, cap, RunAt(plan, run, path).value.0, RunAt(plan, run, path).value.1, id);
        ExcludedIs(RunAt(plan, run, path).value.0.nodes, RunAt(plan, run, path).value.1.results, id);
      }
    } else {
      var free := HasFreePermit(cap, plan, run);
      FreeMeansCounted(oracle, cap, plan, run);
      StepKeepsInvariant(oracle, cap, plan, run, free, schedule[0]);
      StepCounts(oracle, cap, plan, run, free, schedule[0]);
      if ReachedAt(plan, run, path, Began(id)) {
        ReachedStays(oracle, cap, plan, run, free, schedule[0], path, Began(id));
      } else if Starts(schedule[0], path, id) {
        StartIsReached(oracle, cap, plan, run, free, schedule[0], path, id);
      }
      ExcludedNeverStarts(oracle, cap, plan, Apply(oracle, cap, plan, run, free, schedule[0]), schedule[1..], path, id);
    }
  }
}
