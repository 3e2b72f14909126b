/** The ready-set scheduler: dispatches the nodes of a plan up to a concurrency cap, records
    results and skips, and runs nested plans in a state of their own. */
module Execution {
  import opened Wrappers
  import opened Graphs
  import opened Plans
  import opened TopologicalSort
  import opened Semantics
  import opened Outcomes

  // ---------- What every point of a run keeps ----------

  /** Pending nodes, nodes in flight and recorded results cover the plan; whatever is in flight
      was ready, has content to work on, and is not excluded. */
  ghost predicate RunInvariant(oracle: Oracle, request: Request, plan: Plan,
                               results: Results, pending: set<int>, inFlight: set<int>)
    requires Accepted(plan)
  {
    && Consistent(oracle, request, plan, results)
    && Ids(plan.nodes) == pending + inFlight + results.Keys
    && inFlight !! pending && inFlight !! results.Keys
    && forall id {:trigger CanRun(plan, results, id)} :: id in inFlight ==> CanRun(plan, results, id)
  }

  ghost predicate CanRun(plan: Plan, results: Results, id: int) {
    && id in Ids(plan.nodes)
    && Deps(plan, id) <= results.Keys
    && !OnlyUsesSkipped(plan.nodes, NodeAt(plan.nodes, id), results, false)
  }

  lemma SkipKeepsInvariant(oracle: Oracle, request: Request, plan: Plan,
                           results: Results, pending: set<int>, inFlight: set<int>, id: int)
    requires Accepted(plan) && RunInvariant(oracle, request, plan, results, pending, inFlight)
    requires id in pending && id !in results && Deps(plan, id) <= results.Keys
    requires OnlyUsesSkipped(plan.nodes, NodeAt(plan.nodes, id), results, false)
    ensures RunInvariant(oracle, request, plan, results[id := SKIPPED], pending - {id}, inFlight)
  {
    var node := NodeAt(plan.nodes, id);
    assert ExcludedBy(node, SKIPPED) == {};
    assert Record(plan.nodes, node, SKIPPED, results) == results[id := SKIPPED];
    RecordKeepsConsistent(oracle, request, plan, node, results);
    StillCanRun(oracle, request, plan, results, results[id := SKIPPED], inFlight);
  }

  lemma DispatchKeepsInvariant(oracle: Oracle, request: Request, plan: Plan,
                               results: Results, pending: set<int>, inFlight: set<int>, id: int)
    requires Accepted(plan) && RunInvariant(oracle, request, plan, results, pending, inFlight)
    requires id in pending && id !in results && CanRun(plan, results, id)
    ensures id !in inFlight && RunInvariant(oracle, request, plan, results, pending - {id}, inFlight + {id})
  {
    hide Consistent, Accepted, CanRun;
    assert pending == (pending - {id}) + {id};
  }

  lemma DropKeepsInvariant(oracle: Oracle, request: Request, plan: Plan,
                           results: Results, pending: set<int>, inFlight: set<int>, id: int)
    requires Accepted(plan) && RunInvariant(oracle, request, plan, results, pending, inFlight) && id in results
    ensures RunInvariant(oracle, request, plan, results, pending - {id}, inFlight)
  {
    hide Consistent, Accepted, CanRun;
  }

  lemma StillCanRun(oracle: Oracle, request: Request, plan: Plan, results: Results, after: Results, inFlight: set<int>)
    requires Accepted(plan)
    requires forall id {:trigger CanRun(plan, results, id)} :: id in inFlight ==> CanRun(plan, results, id)
    requires results.Keys <= after.Keys && forall id :: id in results ==> after[id] == results[id]
    ensures forall id {:trigger CanRun(plan, after, id)} :: id in inFlight ==> CanRun(plan, after, id)
  {
    forall id | id in inFlight
      ensures CanRun(plan, after, id)
    {
      assert CanRun(plan, results, id);
      SettleIsLocal(oracle, request, plan, NodeAt(plan.nodes, id), results, after);
    }
  }

  lemma CompletionKeepsInvariant(oracle: Oracle, request: Request, plan: Plan,
                                 results: Results, pending: set<int>, inFlight: set<int>, id: int)
    requires Accepted(plan) && RunInvariant(oracle, request, plan, results, pending, inFlight)
    requires id in inFlight
    ensures id in Ids(plan.nodes)
    ensures var node := NodeAt(plan.nodes, id);
      var result := Ran(oracle, request, plan, node, Context(node, results));
      RunInvariant(oracle, request, plan, Record(plan.nodes, node, result, results), pending, inFlight - {id})
  {
    hide Accepted, Consistent, Ran, Context, OnlyUsesSkipped, ExcludedBy;
    var node := NodeAt(plan.nodes, id);
    var result := Ran(oracle, request, plan, node, Context(node, results));
    var after := Record(plan.nodes, node, result, results);
    assert CanRun(plan, results, id);
    assert Settle(oracle, request, plan, node, results) == result;
    RecordKeepsConsistent(oracle, request, plan, node, results);
    StillCanRun(oracle, request, plan, results, after, inFlight);
    forall w | w in inFlight - {id}
      ensures w !in after
    {
      assert CanRun(plan, results, w);
      if w in ExcludedBy(node, result) {
        ExcludedAreDependents(plan, node, result, w);
      }
    }
    forall w | w in ExcludedBy(node, result)
      ensures w in Ids(plan.nodes)
    {
      ExcludedAreDependents(plan, node, result, w);
    }
  }

  // ---------- Plan order ----------

  ghost predicate Precedes(order: seq<int>, u: int, v: int) {
    exists a, b :: 0 <= a < b < |order| && order[a] == u && order[b] == v
  }

  ghost predicate InPlanOrder(order: seq<int>, ids: seq<int>) {
    forall i, j :: 0 <= i < j < |ids| ==> Precedes(order, ids[i], ids[j])
  }

  /** With a cap of one, whatever ran started only after everything before it had a result. */
  ghost predicate StartedInTurn(order: seq<int>, results: Results, started: set<int>) {
    forall u, v :: v in started && Precedes(order, u, v) ==> u in results
  }

  lemma NextInTurn(order: seq<int>, results: Results, completed: seq<int>, id: int)
    requires InPlanOrder(order, completed) && StartedInTurn(order, results, Elems(completed))
    requires id in order && id !in results && forall w :: w in completed ==> w in order && w in results
    ensures InPlanOrder(order, completed + [id])
  {
    forall i, j | 0 <= i < j < |completed + [id]|
      ensures Precedes(order, (completed + [id])[i], (completed + [id])[j])
    {
      if j == |completed| {
        var w := completed[i];
        assert w in completed && w in Elems(completed);
        var a :| 0 <= a < |order| && order[a] == w;
        var b :| 0 <= b < |order| && order[b] == id;
        if b < a {
          assert Precedes(order, id, w);
        }
      }
    }
  }

  // ---------- The two ledgers ----------

  /** Completed and skipped nodes are listed once each and together make up the results. */
  ghost predicate Ledger(results: Results, completed: seq<int>, skipped: seq<int>) {
    && Distinct(completed) && Distinct(skipped)
    && (forall id :: id in completed <==> id in results && !results[id].status.Skipped?)
    && (forall id :: id in skipped <==> id in results && results[id].status.Skipped?)
  }

  // ---------- The state of a run between two steps ----------

  ghost predicate InTurn(order: seq<int>, results: Results, completed: seq<int>, inFlight: set<int>) {
    InPlanOrder(order, completed) && StartedInTurn(order, results, Elems(completed) + inFlight)
  }

  ghost predicate Track(oracle: Oracle, request: Request, plan: Plan, results: Results,
                        completed: seq<int>, skipped: seq<int>, cap: int, ordered: bool, pending: set<int>,
                        inFlight: set<int>)
    requires Accepted(plan)
  {
    && RunInvariant(oracle, request, plan, results, pending, inFlight)
    && Ledger(results, completed, skipped)
    && |inFlight| <= cap
    && (ordered ==> cap == 1 && InTurn(plan.sortedIds, results, completed, inFlight))
  }

  /** These nodes all have results and none of them is pending. */
  ghost predicate Handled(ids: seq<int>, results: Results, pending: set<int>) {
    forall id :: id in ids ==> id in results && id !in pending
  }

  lemma TrackStart(oracle: Oracle, request: Request, plan: Plan, results: Results,
                   completed: seq<int>, skipped: seq<int>, cap: int, ordered: bool)
    requires Accepted(plan) && cap >= 1
    requires Consistent(oracle, request, plan, results) && Ledger(results, completed, skipped)
    requires ordered ==> cap == 1 && InTurn(plan.sortedIds, results, completed, {})
    ensures Track(oracle, request, plan, results, completed, skipped, cap, ordered, Elems(plan.sortedIds), {})
  {
    hide Consistent, Ledger, InTurn, CanRun, AllAccepted;
    assert Ids(plan.nodes) == Elems(plan.sortedIds) + {} + results.Keys by {
      ResultsAreOfThePlan(oracle, request, plan, results);
    }
  }

  lemma ResultsAreOfThePlan(oracle: Oracle, request: Request, plan: Plan, results: Results)
    requires Accepted(plan) && Consistent(oracle, request, plan, results)
    ensures results.Keys <= Ids(plan.nodes) == Elems(plan.sortedIds)
  {
  }

  /** Nothing has run yet: a fresh state is a partial run, and one in plan order. */
  lemma FreshIsConsistent(oracle: Oracle, request: Request, plan: Plan)
    requires Accepted(plan)
    ensures Consistent(oracle, request, plan, map[]) && Ledger(map[], [], []) && InTurn(plan.sortedIds, map[], [], {})
  {
    NothingIsExcluded(plan.nodes);
  }

  lemma TrackDrop(oracle: Oracle, request: Request, plan: Plan, results: Results,
                  completed: seq<int>, skipped: seq<int>, cap: int, ordered: bool, pending: set<int>,
                  inFlight: set<int>, id: int)
    requires Accepted(plan)
    requires Track(oracle, request, plan, results, completed, skipped, cap, ordered, pending, inFlight)
    requires id in results
    ensures Track(oracle, request, plan, results, completed, skipped, cap, ordered, pending - {id}, inFlight)
  {
    hide RunInvariant, Accepted, Ledger, InTurn;
    DropKeepsInvariant(oracle, request, plan, results, pending, inFlight, id);
  }

  lemma TrackSkip(oracle: Oracle, request: Request, plan: Plan, results: Results,
                  completed: seq<int>, skipped: seq<int>, cap: int, ordered: bool, pending: set<int>,
                  inFlight: set<int>, id: int)
    requires Accepted(plan)
    requires Track(oracle, request, plan, results, completed, skipped, cap, ordered, pending, inFlight)
    requires id in pending && id !in results && id in Ids(plan.nodes) && Deps(plan, id) <= results.Keys
    requires OnlyUsesSkipped(plan.nodes, NodeAt(plan.nodes, id), results, false)
    ensures Track(oracle, request, plan, results[id := SKIPPED], completed, skipped + [id], cap, ordered,
                  pending - {id}, inFlight)
  {
    hide RunInvariant, Accepted, InPlanOrder, Precedes, OnlyUsesSkipped, Deps, Ids, NodeAt;
    SkipKeepsInvariant(oracle, request, plan, results, pending, inFlight, id);
  }

  lemma TrackDispatch(oracle: Oracle, request: Request, plan: Plan, results: Results,
                      completed: seq<int>, skipped: seq<int>, cap: int, ordered: bool, pending: set<int>,
                      inFlight: set<int>, i: nat)
    requires Accepted(plan)
    requires Track(oracle, request, plan, results, completed, skipped, cap, ordered, pending, inFlight)
    requires |inFlight| < cap && i < |plan.sortedIds|
    requires inFlight == {} ==> Handled(plan.sortedIds[..i], results, pending)
    requires plan.sortedIds[i] in pending && plan.sortedIds[i] !in results && CanRun(plan, results, plan.sortedIds[i])
    ensures Track(oracle, request, plan, results, completed, skipped, cap, ordered,
              pending - {plan.sortedIds[i]}, inFlight + {plan.sortedIds[i]})
  {
    hide RunInvariant, Accepted, CanRun, Ledger, InTurn, Handled;
    DispatchKeepsInvariant(oracle, request, plan, results, pending, inFlight, plan.sortedIds[i]);
    var id := plan.sortedIds[i];
    if ordered {
      assert inFlight == {};
      DispatchInTurn(plan, results, completed, pending, i);
      assert inFlight + {id} == {id};
    }
  }

  lemma DispatchInTurn(plan: Plan, results: Results, completed: seq<int>, pending: set<int>, i: nat)
    requires Accepted(plan) && i < |plan.sortedIds| && Handled(plan.sortedIds[..i], results, pending)
    requires InTurn(plan.sortedIds, results, completed, {})
    ensures InTurn(plan.sortedIds, results, completed, {plan.sortedIds[i]})
  {
    var order := plan.sortedIds;
    forall u, v | v in Elems(completed) + {order[i]} && Precedes(order, u, v)
      ensures u in results
    {
      if v in Elems(completed) {
        assert v in Elems(completed) + {};
      } else {
        var a, b :| 0 <= a < b < |order| && order[a] == u && order[b] == v;
        assert b == i && u in order[..i];
      }
    }
  }

  lemma TrackFinish(oracle: Oracle, request: Request, plan: Plan, results: Results, completed: seq<int>,
                    skipped: seq<int>, cap: int, ordered: bool, pending: set<int>, inFlight: set<int>, id: int,
                    after: Results, skippedAfter: seq<int>)
    requires Accepted(plan)
    requires Track(oracle, request, plan, results, completed, skipped, cap, ordered, pending, inFlight)
    requires id in inFlight && id in Ids(plan.nodes)
    requires var node := NodeAt(plan.nodes, id);
      after == Record(plan.nodes, node, Ran(oracle, request, plan, node, Context(node, results)), results)
    requires Ledger(after, completed + [id], skippedAfter)
    ensures Track(oracle, request, plan, after, completed + [id], skippedAfter, cap, ordered, pending, inFlight - {id})
  {
    CompletionKeepsInvariant(oracle, request, plan, results, pending, inFlight, id);
    if ordered {
      FinishInTurn(plan, results, completed, inFlight, id, after);
    }
    hide RunInvariant, Accepted, Ledger, InTurn;
  }

  lemma FinishInTurn(plan: Plan, results: Results, completed: seq<int>, inFlight: set<int>, id: int, after: Results)
    requires Accepted(plan) && InTurn(plan.sortedIds, results, completed, inFlight)
    requires id in inFlight && id in Ids(plan.nodes) && id !in results && results.Keys <= Ids(plan.nodes)
    requires forall w :: w in completed ==> w in results
    requires results.Keys <= after.Keys
    ensures InTurn(plan.sortedIds, after, completed + [id], inFlight - {id})
  {
    var order := plan.sortedIds;
    assert forall w :: w in Ids(plan.nodes) ==> w in Elems(order);
    assert forall w :: w in Elems(completed) ==> w in Elems(completed) + inFlight;
    NextInTurn(order, results, completed, id);
    assert Elems(completed + [id]) + (inFlight - {id}) == Elems(completed) + inFlight;
  }

  /** With nothing in flight, the first unhandled node in plan order is ready. */
  lemma ReadyInTurn(oracle: Oracle, request: Request, plan: Plan, results: Results,
                    completed: seq<int>, skipped: seq<int>, cap: int, ordered: bool, pending: set<int>,
                    inFlight: set<int>, i: nat)
    requires Accepted(plan)
    requires Track(oracle, request, plan, results, completed, skipped, cap, ordered, pending, inFlight)
    requires i < |plan.sortedIds|
    requires inFlight == {} ==> Handled(plan.sortedIds[..i], results, pending)
    ensures plan.sortedIds[i] in Ids(plan.nodes)
    ensures inFlight == {} ==> Deps(plan, plan.sortedIds[i]) <= results.Keys
    ensures inFlight == {} && plan.sortedIds[i] !in pending ==> plan.sortedIds[i] in results
  {
    assert plan.sortedIds[i] in Elems(plan.sortedIds);
  }

  lemma NothingLeft(oracle: Oracle, request: Request, plan: Plan, results: Results,
                    completed: seq<int>, skipped: seq<int>, cap: int, ordered: bool, pending: set<int>)
    requires Accepted(plan) && Track(oracle, request, plan, results, completed, skipped, cap, ordered, pending, {})
    requires Handled(plan.sortedIds, results, pending)
    ensures pending == {}
  {
    assert forall id :: id in pending ==> id in Elems(plan.sortedIds);
  }

  lemma AnswerOfDenote(oracle: Oracle, request: Request, plan: Plan)
    requires Accepted(plan)
    ensures var results := Denote(oracle, request, plan);
      && (FinalOutput(plan, results).None? <==> NothingToAnswer(plan, results))
      && (forall k :: Supplies(plan, results, k) ==>
            FinalOutput(plan, results) == Some(Render(results[plan.sortedIds[k]].output)))
  {
    hide Accepted, Denote, Settled, FinalOutput, Supplies, NothingToAnswer;
    DenoteIsSettled(oracle, request, plan);
    FinalOutputIs(oracle, request, plan, Denote(oracle, request, plan));
  }

  lemma SubplanOfDenote(oracle: Oracle, request: Request, plan: Plan)
    requires Accepted(plan)
    ensures IsSubplanOutcome(plan, Denote(oracle, request, plan), SubplanResult(plan, Denote(oracle, request, plan)))
  {
    hide Accepted, Denote, Settled, SubplanResult, IsSubplanOutcome;
    DenoteIsSettled(oracle, request, plan);
    SubplanResultIs(oracle, request, plan, Denote(oracle, request, plan));
  }

  lemma TrackEnd(oracle: Oracle, request: Request, plan: Plan, results: Results, completed: seq<int>,
                 skipped: seq<int>, cap: int, ordered: bool)
    requires Accepted(plan) && Track(oracle, request, plan, results, completed, skipped, cap, ordered, {}, {})
    ensures results == Denote(oracle, request, plan)
    ensures Ledger(results, completed, skipped)
    ensures Elems(completed) + Elems(skipped) == Ids(plan.nodes)
    ensures ordered ==> InPlanOrder(plan.sortedIds, completed)
  {
    hide Consistent, Accepted, CanRun, Denote, Distinct, InPlanOrder, StartedInTurn;
    assert results.Keys == Ids(plan.nodes);
    assert forall id :: id in Elems(completed) + Elems(skipped) <==> id in results;
    assert Elems(completed) + Elems(skipped) == Ids(plan.nodes);
    DenoteIsSettled(oracle, request, plan);
    SettledIsUnique(oracle, request, plan, results, Denote(oracle, request, plan));
  }

  // ---------- Dependency map ----------

  function Controllers(nodes: seq<Node>, id: int): set<int> {
    if nodes == [] then {}
    else
      var last := nodes[|nodes| - 1];
      Controllers(nodes[..|nodes| - 1], id) + if id in ControlTargets(last) then {last.id} else {}
  }

  lemma {:induction false} ControllersAre(nodes: seq<Node>, u: int, id: int)
    ensures u in Controllers(nodes, id) <==> exists d :: d in nodes && d.id == u && id in ControlTargets(d)
  {
    if nodes != [] {
      var init, last := nodes[..|nodes| - 1], nodes[|nodes| - 1];
      assert nodes == init + [last];
      ControllersAre(init, u, id);
    }
  }

  lemma DepsAre(plan: Plan, node: Node)
    requires Accepted(plan) && node in plan.nodes
    ensures Deps(plan, node.id) == Elems(node.contextNeeded) + Controllers(plan.nodes, node.id)
  {
    forall u
      ensures u in Deps(plan, node.id) <==> u in Elems(node.contextNeeded) + Controllers(plan.nodes, node.id)
    {
      EdgeInto(plan.nodes, u, node);
      ControllersAre(plan.nodes, u, node.id);
    }
  }

  method DependencyMap(plan: Plan) returns (deps: map<int, set<int>>)
    requires Accepted(plan)
    ensures deps.Keys == Ids(plan.nodes)
    ensures forall id :: id in deps ==> deps[id] == Deps(plan, id)
  {
    hide *;
    deps := map id | id in Ids(plan.nodes) :: Elems(NodeAt(plan.nodes, id).contextNeeded);
    NoControllers(plan.nodes, deps);
    for i := 0 to |plan.nodes|
      invariant MapsControllers(plan.nodes, i, deps)
    {
      ghost var before := deps;
      var node := plan.nodes[i];
      if node.kind.Decision? {
        deps := AddControl(node.id, node.branches, deps);
      }
      OneMoreController(plan.nodes, i, before, deps);
    }
    AllControllers(plan, deps);
  }

  /** The dependencies with the control edges of the first i nodes added. */
  ghost predicate MapsControllers(nodes: seq<Node>, i: nat, deps: map<int, set<int>>)
    requires i <= |nodes|
  {
    && deps.Keys == Ids(nodes)
    && forall id :: id in deps ==> deps[id] == Elems(NodeAt(nodes, id).contextNeeded) + Controllers(nodes[..i], id)
  }

  lemma NoControllers(nodes: seq<Node>, deps: map<int, set<int>>)
    requires deps.Keys == Ids(nodes) && forall id :: id in deps ==> deps[id] == Elems(NodeAt(nodes, id).contextNeeded)
    ensures MapsControllers(nodes, 0, deps)
  {
  }

  lemma OneMoreController(nodes: seq<Node>, i: nat, before: map<int, set<int>>, after: map<int, set<int>>)
    requires i < |nodes| && MapsControllers(nodes, i, before)
    requires var node := nodes[i];
      if node.kind.Decision? then
        && after.Keys == before.Keys
        && forall t :: t in after ==> after[t] == before[t] + if t in TargetsOf(node.branches) then {node.id} else {}
      else after == before
    ensures MapsControllers(nodes, i + 1, after)
  {
    hide Ids, NodeAt, Elems, TargetsOf;
    assert nodes[..i + 1][..i] == nodes[..i];
  }

  lemma AllControllers(plan: Plan, deps: map<int, set<int>>)
    requires Accepted(plan) && MapsControllers(plan.nodes, |plan.nodes|, deps)
    ensures deps.Keys == Ids(plan.nodes) && forall id :: id in deps ==> deps[id] == Deps(plan, id)
  {
    hide Accepted, Deps, Elems, Controllers;
    assert plan.nodes[..|plan.nodes|] == plan.nodes;
    forall id | id in deps
      ensures deps[id] == Deps(plan, id)
    {
      DepsAre(plan, NodeAt(plan.nodes, id));
    }
  }

  method AddControl(id: int, branches: seq<Branch>, before: map<int, set<int>>) returns (deps: map<int, set<int>>)
    ensures deps.Keys == before.Keys
    ensures forall t :: t in deps ==> deps[t] == before[t] + if t in TargetsOf(branches) then {id} else {}
  {
    deps := before;
    for j := 0 to |branches|
      invariant deps.Keys == before.Keys
      invariant forall t :: t in deps ==> deps[t] == before[t] + if t in TargetsOf(branches[..j]) then {id} else {}
    {
      var targets := branches[j].targets;
      assert branches[..j + 1][..j] == branches[..j];
      ghost var start := deps;
      for k := 0 to |targets|
        invariant deps.Keys == before.Keys
        invariant forall t :: t in deps ==> deps[t] == start[t] + if t in targets[..k] then {id} else {}
      {
        assert targets[..k + 1] == targets[..k] + [targets[k]];
        if targets[k] in deps {
          deps := deps[targets[k] := deps[targets[k]] + {id}];
        }
      }
      assert targets[..|targets|] == targets;
    }
    assert branches[..|branches|] == branches;
  }

  // ---------- State and executor ----------

  datatype RunStatus = NotStarted | Executing | Finished

  class ExecutionState {
    const request: Request
    const plan: Plan
    var results: Results
    var completedNodes: seq<int>
    var skippedNodes: seq<int>
    var status: RunStatus
    var finalOutput: Option<string>

    constructor (request: Request, plan: Plan)
      ensures this.request == request && this.plan == plan
      ensures results == map[] && completedNodes == [] && skippedNodes == []
      ensures status == NotStarted && finalOutput == None
    {
      this.request := request;
      this.plan := plan;
      results := map[];
      completedNodes := [];
      skippedNodes := [];
      status := NotStarted;
      finalOutput := None;
    }

    ghost predicate Valid()
      reads this
    {
      Ledger(results, completedNodes, skippedNodes)
    }

    method RecordSkipped(id: int)
      requires Valid() && id !in results
      modifies this`results, this`skippedNodes
      ensures Valid() && results == old(results)[id := SKIPPED]
      ensures skippedNodes == old(skippedNodes) + [id]
    {
      results := results[id := SKIPPED];
      if id !in skippedNodes {
        skippedNodes := skippedNodes + [id];
      }
    }
  }

  class Executor {
    const oracle: Oracle
    const maxConcurrentNodes: int

    constructor (oracle: Oracle, maxConcurrentNodes: int)
      ensures this.oracle == oracle && this.maxConcurrentNodes == maxConcurrentNodes
    {
      this.oracle := oracle;
      this.maxConcurrentNodes := maxConcurrentNodes;
    }

    /** Runs a plan to the end, from a fresh state or from one that an earlier run has left with part of
        the results. Which in-flight nodes finish first is left open: the contract holds for every choice,
        and the "no ready nodes remain" error is unreachable. */
    method Run(state: ExecutionState)
      requires Accepted(state.plan)
      requires Consistent(oracle, state.request, state.plan, state.results) && state.Valid()
      modifies state
      ensures state.results == Denote(oracle, state.request, state.plan)
      ensures state.Valid() && state.status == Finished
      ensures Elems(state.completedNodes) + Elems(state.skippedNodes) == Ids(state.plan.nodes)
      ensures old(state.completedNodes) <= state.completedNodes && old(state.skippedNodes) <= state.skippedNodes
      ensures state.finalOutput == FinalOutput(state.plan, state.results)
      ensures state.finalOutput.None? <==> NothingToAnswer(state.plan, state.results)
      ensures forall k :: Supplies(state.plan, state.results, k) ==>
        state.finalOutput == Some(Render(state.results[state.plan.sortedIds[k]].output))
      ensures maxConcurrentNodes <= 1 && old(InTurn(state.plan.sortedIds, state.results, state.completedNodes, {}))
        ==> InPlanOrder(state.plan.sortedIds, state.completedNodes)
      decreases state.plan, 3
    {
      hide Accepted, Track, Denote, Ids, Elems, Deps, FinalOutput, InPlanOrder, InTurn, Ledger, Consistent,
           Supplies, NothingToAnswer, Render;
      var plan := state.plan;
      var deps := DependencyMap(plan);
      var maxConcurrent := if maxConcurrentNodes < 1 then 1 else maxConcurrentNodes;
      var pending := Elems(plan.sortedIds);
      var inFlight: set<int> := {};
      ghost var ordered := maxConcurrent == 1 && InTurn(plan.sortedIds, state.results, state.completedNodes, {});
      TrackStart(oracle, state.request, plan, state.results, state.completedNodes, state.skippedNodes,
                 maxConcurrent, ordered);
      state.status := Executing;
      while pending != {} || inFlight != {}
        invariant OnTrack(state, maxConcurrent, ordered, pending, inFlight)
        invariant old(state.completedNodes) <= state.completedNodes && old(state.skippedNodes) <= state.skippedNodes
        decreases 2 * |pending| + |inFlight|
      {
        ghost var pending0 := pending;
        var dispatched;
        pending, inFlight, dispatched := Scan(state, deps, maxConcurrent, ordered, pending, inFlight);
        if inFlight == {} {
          if pending != {} && !dispatched {
            assert false; // "Cannot execute plan: no ready nodes remain"
          }
        } else if !(dispatched && |inFlight| < maxConcurrent) {
          var done :| done != {} && done <= inFlight;
          inFlight := Harvest(state, maxConcurrent, ordered, pending, inFlight, done);
        }
      }
      TrackEnd(oracle, state.request, plan, state.results, state.completedNodes, state.skippedNodes,
               maxConcurrent, ordered);
      AnswerOfDenote(oracle, state.request, plan);
      state.finalOutput := FinalOutput(plan, state.results);
      state.status := Finished;
    }

    ghost predicate OnTrack(state: ExecutionState, maxConcurrent: int, ordered: bool, pending: set<int>,
                            inFlight: set<int>)
      requires Accepted(state.plan)
      reads state
    {
      Track(oracle, state.request, state.plan, state.results, state.completedNodes, state.skippedNodes,
            maxConcurrent, ordered, pending, inFlight)
    }

    /** Recording the skip of a ready node without content. */
    method SkipOne(state: ExecutionState, maxConcurrent: int, ghost ordered: bool, pending: set<int>,
                   inFlight: set<int>, id: int)
      requires Accepted(state.plan) && OnTrack(state, maxConcurrent, ordered, pending, inFlight)
      requires id in pending && id !in state.results && Deps(state.plan, id) <= state.results.Keys
      requires OnlyUsesSkipped(state.plan.nodes, NodeAt(state.plan.nodes, id), state.results, false)
      modifies state`results, state`skippedNodes
      ensures state.results == old(state.results)[id := SKIPPED]
      ensures state.skippedNodes == old(state.skippedNodes) + [id]
      ensures OnTrack(state, maxConcurrent, ordered, pending - {id}, inFlight)
    {
      TrackSkip(oracle, state.request, state.plan, state.results, state.completedNodes, state.skippedNodes,
                maxConcurrent, ordered, pending, inFlight, id);
      state.RecordSkipped(id);
    }

    /** Records every finished node of the batch, in some order. */
    method Harvest(state: ExecutionState, maxConcurrent: int, ghost ordered: bool, ghost pending: set<int>,
                   inFlight0: set<int>, done: set<int>)
      returns (inFlight: set<int>)
      requires Accepted(state.plan) && OnTrack(state, maxConcurrent, ordered, pending, inFlight0)
      requires done <= inFlight0
      modifies state`results, state`skippedNodes, state`completedNodes
      ensures inFlight == inFlight0 - done && OnTrack(state, maxConcurrent, ordered, pending, inFlight)
      ensures old(state.completedNodes) <= state.completedNodes && old(state.skippedNodes) <= state.skippedNodes
      decreases state.plan, 2
    {
      hide Accepted, Track;
      inFlight := inFlight0;
      var rest := done;
      while rest != {}
        invariant rest <= done && rest <= inFlight && inFlight == inFlight0 - (done - rest)
        invariant OnTrack(state, maxConcurrent, ordered, pending, inFlight)
        invariant old(state.completedNodes) <= state.completedNodes && old(state.skippedNodes) <= state.skippedNodes
        decreases rest
      {
        Inhabited(rest);
        var id :| id in rest;
        Finish(state, maxConcurrent, ordered, pending, inFlight, id);
        inFlight := inFlight - {id};
        rest := rest - {id};
      }
    }

    method Finish(state: ExecutionState, maxConcurrent: int, ghost ordered: bool, ghost pending: set<int>,
                  ghost inFlight: set<int>, id: int)
      requires Accepted(state.plan) && OnTrack(state, maxConcurrent, ordered, pending, inFlight) && id in inFlight
      modifies state`results, state`skippedNodes, state`completedNodes
      ensures OnTrack(state, maxConcurrent, ordered, pending, inFlight - {id})
      ensures old(state.completedNodes) <= state.completedNodes && old(state.skippedNodes) <= state.skippedNodes
      decreases state.plan, 2, 0
    {
      ghost var results, completed, skipped := state.results, state.completedNodes, state.skippedNodes;
      ExecuteAndRecord(state, NodeAt(state.plan.nodes, id));
      TrackFinish(oracle, state.request, state.plan, results, completed, skipped,
                  maxConcurrent, ordered, pending, inFlight, id, state.results, state.skippedNodes);
    }

    /** Runs one node and records its result together with the skips it causes. */
    method ExecuteAndRecord(state: ExecutionState, node: Node)
      requires Accepted(state.plan) && node in state.plan.nodes && state.Valid()
      requires node.id !in state.results
      modifies state`results, state`skippedNodes, state`completedNodes
      ensures state.Valid() && state.completedNodes == old(state.completedNodes) + [node.id]
      ensures old(state.skippedNodes) <= state.skippedNodes
      ensures state.results == Record(state.plan.nodes, node,
        Ran(oracle, state.request, state.plan, node, Context(node, old(state.results))), old(state.results))
      decreases state.plan, 1
    {
      hide Accepted, Ran, Context, Record;
      var result := DispatchNode(state, node);
      state.results := state.results[node.id := result];
      state.completedNodes := state.completedNodes + [node.id];
      if node.kind.Decision? {
        var skipped := BranchDecision(node, result);
        var list := SkipUntaken(state, skipped);
        SkipsAreRecorded(state.plan.nodes, node, result, old(state.results), list, state.results);
      } else {
        RecordOfPlainNode(state.plan.nodes, node, result, old(state.results));
      }
    }

    /** Records a skip for every untaken target of the plan that has no result yet, in ascending order. */
    method SkipUntaken(state: ExecutionState, skipped: set<int>) returns (list: seq<int>)
      requires state.Valid()
      modifies state`results, state`skippedNodes
      ensures state.Valid() && Elems(list) == skipped && old(state.skippedNodes) <= state.skippedNodes
      ensures WithSkips(old(state.results), list, Ids(state.plan.nodes), state.results)
    {
      hide Ids, WithSkips, Ledger;
      list := SortedList(skipped);
      NothingSkipped(state.results, Ids(state.plan.nodes));
      assert list[..0] == [];
      for k := 0 to |list|
        invariant state.Valid() && old(state.skippedNodes) <= state.skippedNodes
        invariant WithSkips(old(state.results), list[..k], Ids(state.plan.nodes), state.results)
      {
        assert list[..k + 1] == list[..k] + [list[k]];
        OneMoreSkip(old(state.results), list[..k], list[k], Ids(state.plan.nodes), state.results);
        if list[k] in Ids(state.plan.nodes) && list[k] !in state.results {
          state.RecordSkipped(list[k]);
        }
      }
      assert list[..|list|] == list;
    }

    method BranchDecision(node: Node, result: NodeResult) returns (skipped: set<int>)
      ensures skipped == UntakenTargets(node.branches, result.branchTaken)
      ensures forall t :: t in skipped <==>
        (result.branchTaken.Some? && result.branchTaken.value != ""
         && exists k :: 0 <= k < |node.branches| && node.branches[k].name != result.branchTaken.value
                        && t in node.branches[k].targets)
    {
      forall t {
        UntakenTargetsAre(node.branches, result.branchTaken, t);
      }
      skipped := {};
      if result.branchTaken.Some? && result.branchTaken.value != "" {
        for j := 0 to |node.branches|
          invariant skipped == UntakenTargets(node.branches[..j], result.branchTaken)
        {
          assert node.branches[..j + 1][..j] == node.branches[..j];
          if node.branches[j].name != result.branchTaken.value {
            skipped := skipped + Elems(node.branches[j].targets);
          }
        }
        assert node.branches[..|node.branches|] == node.branches;
      }
    }

    method DispatchNode(state: ExecutionState, node: Node) returns (result: Outcome)
      requires Accepted(state.plan) && node in state.plan.nodes
      ensures result == Ran(oracle, state.request, state.plan, node, Context(node, state.results))
      decreases state.plan, 0
    {
      if node.kind.Subplan? {
        result := ExecuteSubplan(state, node);
      } else {
        result := oracle(state.request, state.plan, node, Context(node, state.results));
      }
    }

    /** A nested plan runs in a state of its own and sees only the context its node declared. */
    method ExecuteSubplan(state: ExecutionState, node: Node) returns (result: Outcome)
      requires Accepted(state.plan) && node in state.plan.nodes && node.kind.Subplan?
      ensures result == Ran(oracle, state.request, state.plan, node, Context(node, state.results))
      ensures node.subplan.None? ==> result.status == Failed
      ensures node.subplan.Some? ==> Accepted(node.subplan.value)
      ensures node.subplan.Some? ==>
        IsSubplanOutcome(node.subplan.value,
          Denote(oracle, SubplanRequest(state.request, state.plan, node, Context(node, state.results)),
                 node.subplan.value),
          result)
      decreases state.plan, 0, 0
    {
      hide IsSubplanOutcome, Supplies, NothingToAnswer;
      hide Accepted, FinalResult, Denote, Context, Ids, Elems, Consistent, InTurn, Ledger, InPlanOrder;
      if node.subplan.None? {
        return NO_SUBPLAN;
      }
      NestedIsAccepted(state.plan, node);
      var context := Context(node, state.results);
      var subState := new ExecutionState(SubplanRequest(state.request, state.plan, node, context), node.subplan.value);
      FreshIsConsistent(oracle, subState.request, subState.plan);
      Run(subState);
      SubplanOfDenote(oracle, subState.request, subState.plan);
      var final := FinalResult(subState.plan, subState.results);
      if subState.finalOutput.None? {
        return NodeResult(Empty, None, None, 1.0, Some("Subplan produced no final output"));
      }
      return NodeResult(Completed, subState.finalOutput, None, if final.Some? then final.value.confidence else 1.0,
                        None);
    }

    /** One scan in plan order: drops nodes that already have a result, skips ready nodes whose
        content was skipped, and dispatches ready nodes until the cap is reached. */
    method Scan(state: ExecutionState, deps: map<int, set<int>>, maxConcurrent: int, ghost ordered: bool,
                pending0: set<int>, inFlight0: set<int>)
      returns (pending: set<int>, inFlight: set<int>, dispatched: bool)
      requires Accepted(state.plan) && maxConcurrent >= 1
      requires deps.Keys == Ids(state.plan.nodes) && forall id :: id in deps ==> deps[id] == Deps(state.plan, id)
      requires OnTrack(state, maxConcurrent, ordered, pending0, inFlight0)
      modifies state`results, state`skippedNodes
      ensures OnTrack(state, maxConcurrent, ordered, pending, inFlight)
      ensures inFlight0 <= inFlight && pending <= pending0 && old(state.skippedNodes) <= state.skippedNodes
      ensures 2 * |pending| + |inFlight| + (if dispatched then 1 else 0) <= 2 * |pending0| + |inFlight0|
      ensures inFlight == {} ==> pending == {}
    {
      hide Accepted, Track, Ids, NodeAt, OnlyUsesSkipped, Deps;
      var plan := state.plan;
      pending, inFlight, dispatched := pending0, inFlight0, false;
      var i := 0;
      while i < |plan.sortedIds|
        invariant 0 <= i <= |plan.sortedIds|
        invariant OnTrack(state, maxConcurrent, ordered, pending, inFlight)
        invariant inFlight0 <= inFlight && pending <= pending0 && old(state.skippedNodes) <= state.skippedNodes
        invariant 2 * |pending| + |inFlight| + (if dispatched then 1 else 0) <= 2 * |pending0| + |inFlight0|
        invariant inFlight == {} ==> Handled(plan.sortedIds[..i], state.results, pending)
      {
        var id := plan.sortedIds[i];
        assert id in Elems(plan.sortedIds);
        assert plan.sortedIds[..i + 1] == plan.sortedIds[..i] + [id];
        ReadyInTurn(oracle, state.request, plan, state.results, state.completedNodes, state.skippedNodes,
                    maxConcurrent, ordered, pending, inFlight, i);
        if id in pending {
          if id in state.results {
            TrackDrop(oracle, state.request, plan, state.results, state.completedNodes, state.skippedNodes,
                      maxConcurrent, ordered, pending, inFlight, id);
            pending := pending - {id};
          } else if deps[id] <= state.results.Keys {
            var node := NodeAt(plan.nodes, id);
            if OnlyUsesSkipped(plan.nodes, node, state.results, false) {
              SkipOne(state, maxConcurrent, ordered, pending, inFlight, id);
              pending := pending - {id};
              dispatched := true;
            } else if |inFlight| >= maxConcurrent {
              break;
            } else {
              TrackDispatch(oracle, state.request, plan, state.results, state.completedNodes, state.skippedNodes,
                            maxConcurrent, ordered, pending, inFlight, i);
              pending := pending - {id};
              inFlight := inFlight + {id};
              dispatched := true;
            }
          }
        }
        i := i + 1;
      }
      if inFlight == {} {
        assert plan.sortedIds[..i] == plan.sortedIds;
        NothingLeft(oracle, state.request, plan, state.results, state.completedNodes, state.skippedNodes,
                    maxConcurrent, ordered, pending);
      }
    }
  }

  /** The written results plus a skip for every listed node of the plan that had none. */
  ghost predicate WithSkips(written: Results, list: seq<int>, ids: set<int>, results: Results) {
    && (forall id :: id in results <==> id in written || (id in list && id in ids))
    && (forall id :: id in results ==> results[id] == if id in written then written[id] else SKIPPED)
  }

  lemma NothingSkipped(written: Results, ids: set<int>)
    ensures WithSkips(written, [], ids, written)
  {
  }

  lemma OneMoreSkip(written: Results, list: seq<int>, id: int, ids: set<int>, results: Results)
    requires WithSkips(written, list, ids, results)
    ensures WithSkips(written, list + [id], ids,
                      if id in ids && id !in results then results[id := SKIPPED] else results)
  {
  }

  lemma SkipsAreRecorded(nodes: seq<Node>, node: Node, result: NodeResult, before: Results, list: seq<int>,
                         after: Results)
    requires WithSkips(before[node.id := result], list, Ids(nodes), after)
    requires Elems(list) == ExcludedBy(node, result)
    ensures after == Record(nodes, node, result, before)
  {
    var written := before[node.id := result];
    var skips := map t | t in ExcludedBy(node, result) && t in Ids(nodes) && t !in written :: SKIPPED;
    assert forall t :: t in list <==> t in Elems(list);
    hide ExcludedBy, Ids;
    assert forall id :: id in after <==> id in written || id in skips;
    assert forall id :: id in after ==> after[id] == (written + skips)[id];
  }

  lemma RecordOfPlainNode(nodes: seq<Node>, node: Node, result: NodeResult, before: Results)
    requires !node.kind.Decision?
    ensures Record(nodes, node, result, before) == before[node.id := result]
  {
    var written := before[node.id := result];
    var skips := map t | t in ExcludedBy(node, result) && t in Ids(nodes) && t !in written :: SKIPPED;
    assert skips.Keys == {};
    assert written + skips == written;
  }
}
