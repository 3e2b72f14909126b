/** All interleavings of a whole tree of runs: every nested plan has a scheduler of its own,
    and all of them share one semaphore that subplan nodes never hold. */
module Interleaving {
  import opened Graphs
  import opened Plans
  import opened Semantics
  import opened Execution

  /** A dispatched node: waiting to begin, executing under a permit with the context it read,
      or hosting a nested run. */
  datatype Task = Queued | Holding(context: seq<Part>) | Nested(run: Run)

  datatype Run = Run(request: Request, pending: set<int>, inFlight: map<int, Task>, results: Results)

  /** One atomic step of a scheduler or of one of its tasks. */
  datatype Action =
    | Drop(id: int)
    | SkipReady(id: int)
    | Dispatch(id: int)
    | Acquire(id: int)
    | Open(id: int)
    | Finish(id: int)
    | Within(id: int, inner: Action)

  function Start(request: Request, plan: Plan): Run {
    Run(request, Elems(plan.sortedIds), map[], map[])
  }

  predicate IsDone(run: Run) {
    run.pending == {} && run.inFlight == map[]
  }

  ghost predicate IsReady(plan: Plan, run: Run, id: int) {
    && id in Ids(plan.nodes) && id in run.pending && id !in run.results
    && Deps(plan, id) <= run.results.Keys
  }

  predicate HasTask(plan: Plan, run: Run, id: int) {
    id in Ids(plan.nodes) && id in run.inFlight
  }

  /** Which actions a run allows; free says whether the shared semaphore has a permit left. */
  ghost predicate Enabled(cap: int, plan: Plan, run: Run, free: bool, action: Action)
    decreases action
  {
    match action
    case Drop(id) => id in run.pending && id in run.results
    case SkipReady(id) =>
      IsReady(plan, run, id) && OnlyUsesSkipped(plan.nodes, NodeAt(plan.nodes, id), run.results, false)
    case Dispatch(id) =>
      && IsReady(plan, run, id) && !OnlyUsesSkipped(plan.nodes, NodeAt(plan.nodes, id), run.results, false)
      && |run.inFlight| < cap
    case Acquire(id) =>
      HasTask(plan, run, id) && run.inFlight[id].Queued? && !NodeAt(plan.nodes, id).kind.Subplan? && free
    case Open(id) =>
      && HasTask(plan, run, id) && run.inFlight[id].Queued?
      && NodeAt(plan.nodes, id).kind.Subplan? && NodeAt(plan.nodes, id).subplan.Some?
    case Finish(id) =>
      && HasTask(plan, run, id)
      && var node := NodeAt(plan.nodes, id);
         (match run.inFlight[id]
          case Queued => node.kind.Subplan? && node.subplan.None?
          case Holding(_) => true
          case Nested(sub) => node.subplan.Some? && IsDone(sub))
    case Within(id, inner) =>
      && HasTask(plan, run, id) && run.inFlight[id].Nested? && NodeAt(plan.nodes, id).subplan.Some?
      && Enabled(cap, NodeAt(plan.nodes, id).subplan.value, run.inFlight[id].run, free, inner)
  }

  /** The step, seen from the run it happens in. */
  function Innermost(action: Action): Action {
    match action
    case Within(_, inner) => Innermost(inner)
    case _ => action
  }

  /** Lack of a permit holds up nothing but the start of nodes that are not subplans. */
  lemma {:induction false} OnlyAcquireNeedsAPermit(cap: int, plan: Plan, run: Run, action: Action)
    ensures Enabled(cap, plan, run, false, action) ==> Enabled(cap, plan, run, true, action)
    ensures Enabled(cap, plan, run, true, action) && !Innermost(action).Acquire? ==>
      Enabled(cap, plan, run, false, action)
    ensures Innermost(action).Acquire? ==> !Enabled(cap, plan, run, false, action)
    decreases action
  {
    if action.Within? && HasTask(plan, run, action.id) && run.inFlight[action.id].Nested?
       && NodeAt(plan.nodes, action.id).subplan.Some? {
      OnlyAcquireNeedsAPermit(cap, NodeAt(plan.nodes, action.id).subplan.value, run.inFlight[action.id].run,
                              action.inner);
    }
  }

  /** The result a task has produced when it finishes. */
  function TaskOutcome(oracle: Oracle, plan: Plan, run: Run, node: Node, task: Task): Outcome
    requires task.Nested? ==> node.subplan.Some?
  {
    match task
    case Queued => NO_SUBPLAN
    case Holding(context) => oracle(run.request, plan, node, context)
    case Nested(sub) => SubplanResult(node.subplan.value, sub.results)
  }

  ghost function Apply(oracle: Oracle, cap: int, plan: Plan, run: Run, free: bool, action: Action): Run
    requires Enabled(cap, plan, run, free, action)
    decreases action
  {
    match action
    case Drop(id) => run.(pending := run.pending - {id})
    case SkipReady(id) => run.(pending := run.pending - {id}, results := run.results[id := SKIPPED])
    case Dispatch(id) => run.(pending := run.pending - {id}, inFlight := run.inFlight[id := Queued])
    case Acquire(id) =>
      run.(inFlight := run.inFlight[id := Holding(Context(NodeAt(plan.nodes, id), run.results))])
    case Open(id) =>
      var node := NodeAt(plan.nodes, id);
      var request := SubplanRequest(run.request, plan, node, Context(node, run.results));
      run.(inFlight := run.inFlight[id := Nested(Start(request, node.subplan.value))])
    case Finish(id) =>
      var node := NodeAt(plan.nodes, id);
      var result := TaskOutcome(oracle, plan, run, node, run.inFlight[id]);
      run.(inFlight := run.inFlight - {id}, results := Record(plan.nodes, node, result, run.results))
    case Within(id, inner) =>
      var sub := Apply(oracle, cap, NodeAt(plan.nodes, id).subplan.value, run.inFlight[id].run, free, inner);
      run.(inFlight := run.inFlight[id := Nested(sub)])
  }

  // ---------- What every reachable tree of runs keeps ----------

  ghost predicate TreeInvariant(oracle: Oracle, cap: int, plan: Plan, run: Run)
    requires Accepted(plan)
    decreases plan, 2
  {
    && RunInvariant(oracle, run.request, plan, run.results, run.pending, run.inFlight.Keys)
    && |run.inFlight| <= cap
    && TasksInvariant(oracle, cap, plan, run.request, run.results, run.inFlight)
  }

  ghost predicate TasksInvariant(oracle: Oracle, cap: int, plan: Plan, request: Request, results: Results,
                                 tasks: map<int, Task>)
    requires Accepted(plan)
    decreases plan, 1
  {
    forall id {:trigger tasks[id]} :: id in tasks ==>
      id in Ids(plan.nodes) && TaskInvariant(oracle, cap, plan, request, results, NodeAt(plan.nodes, id), tasks[id])
  }

  ghost predicate TaskInvariant(oracle: Oracle, cap: int, plan: Plan, request: Request, results: Results, node: Node,
                                task: Task)
    requires Accepted(plan) && node in plan.nodes
    decreases plan, 0
  {
    match task
    case Queued => true
    case Holding(context) => !node.kind.Subplan? && context == Context(node, results)
    case Nested(sub) =>
      && node.kind.Subplan? && node.subplan.Some?
      && sub.request == SubplanRequest(request, plan, node, Context(node, results))
      && (NestedIsAccepted(plan, node); TreeInvariant(oracle, cap, node.subplan.value, sub))
  }

  lemma StartInvariant(oracle: Oracle, cap: int, request: Request, plan: Plan)
    requires Accepted(plan) && cap >= 1
    ensures TreeInvariant(oracle, cap, plan, Start(request, plan))
  {
    FreshIsConsistent(oracle, request, plan);
    TrackStart(oracle, request, plan, map[], [], [], cap, false);
  }

  /** A finished run holds exactly the sequential results. */
  lemma DoneMeansDenoted(oracle: Oracle, cap: int, plan: Plan, run: Run)
    requires Accepted(plan) && TreeInvariant(oracle, cap, plan, run) && IsDone(run)
    ensures run.results == Denote(oracle, run.request, plan)
  {
    hide Consistent, Accepted, CanRun, Denote, TaskInvariant;
    assert run.inFlight.Keys == {};
    assert run.results.Keys == Ids(plan.nodes);
    DenoteIsSettled(oracle, run.request, plan);
    SettledIsUnique(oracle, run.request, plan, run.results, Denote(oracle, run.request, plan));
  }

  lemma FinishedTaskRan(oracle: Oracle, cap: int, plan: Plan, run: Run, id: int)
    requires Accepted(plan) && TreeInvariant(oracle, cap, plan, run) && Enabled(cap, plan, run, true, Finish(id))
    ensures var node := NodeAt(plan.nodes, id);
      TaskOutcome(oracle, plan, run, node, run.inFlight[id])
        == Ran(oracle, run.request, plan, node, Context(node, run.results))
  {
    var node := NodeAt(plan.nodes, id);
    assert TaskInvariant(oracle, cap, plan, run.request, run.results, node, run.inFlight[id]);
    hide RunInvariant, Accepted, Denote, SubplanResult;
    if run.inFlight[id].Nested? {
      NestedIsAccepted(plan, node);
      DoneMeansDenoted(oracle, cap, node.subplan.value, run.inFlight[id].run);
    }
  }

  /** Tasks keep their contexts while results only grow. */
  lemma TasksCarryOver(oracle: Oracle, cap: int, plan: Plan, run: Run, after: Results)
    requires Accepted(plan) && TreeInvariant(oracle, cap, plan, run)
    requires run.results.Keys <= after.Keys && forall w :: w in run.results ==> after[w] == run.results[w]
    ensures TasksInvariant(oracle, cap, plan, run.request, after, run.inFlight)
  {
    hide Accepted, RunInvariant, TaskInvariant;
    forall id | id in run.inFlight
      ensures id in Ids(plan.nodes)
      ensures TaskInvariant(oracle, cap, plan, run.request, after, NodeAt(plan.nodes, id), run.inFlight[id])
    {
      TaskCarriesOver(oracle, cap, plan, run, after, id);
    }
  }

  lemma TaskCarriesOver(oracle: Oracle, cap: int, plan: Plan, run: Run, after: Results, id: int)
    requires Accepted(plan) && TreeInvariant(oracle, cap, plan, run) && id in run.inFlight
    requires run.results.Keys <= after.Keys && forall w :: w in run.results ==> after[w] == run.results[w]
    ensures id in Ids(plan.nodes)
    ensures TaskInvariant(oracle, cap, plan, run.request, after, NodeAt(plan.nodes, id), run.inFlight[id])
  {
    assert CanRun(plan, run.results, id);
    SettleIsLocal(oracle, run.request, plan, NodeAt(plan.nodes, id), run.results, after);
    assert TaskInvariant(oracle, cap, plan, run.request, run.results, NodeAt(plan.nodes, id), run.inFlight[id]);
  }

  lemma TaskPut(oracle: Oracle, cap: int, plan: Plan, request: Request, results: Results, tasks: map<int, Task>,
                id: int, task: Task)
    requires Accepted(plan) && TasksInvariant(oracle, cap, plan, request, results, tasks) && id in Ids(plan.nodes)
    requires TaskInvariant(oracle, cap, plan, request, results, NodeAt(plan.nodes, id), task)
    ensures TasksInvariant(oracle, cap, plan, request, results, tasks[id := task])
  {
    hide Accepted, TaskInvariant;
  }

  lemma TaskTaken(oracle: Oracle, cap: int, plan: Plan, request: Request, results: Results, tasks: map<int, Task>,
                  id: int)
    requires Accepted(plan) && TasksInvariant(oracle, cap, plan, request, results, tasks)
    ensures TasksInvariant(oracle, cap, plan, request, results, tasks - {id})
  {
    hide Accepted, TaskInvariant;
  }

  lemma InFlightIsNew(oracle: Oracle, request: Request, plan: Plan,
                      results: Results, pending: set<int>, inFlight: set<int>, id: int)
    requires Accepted(plan) && RunInvariant(oracle, request, plan, results, pending, inFlight) && id in inFlight
    ensures id !in results && id !in pending && id in Ids(plan.nodes)
  {
  }

  lemma RecordGrows(nodes: seq<Node>, node: Node, result: NodeResult, results: Results)
    requires node.id !in results
    ensures var after := Record(nodes, node, result, results);
      results.Keys <= after.Keys && forall w :: w in results ==> after[w] == results[w]
  {
  }

  lemma FinishKeepsInvariant(oracle: Oracle, cap: int, plan: Plan, run: Run, free: bool, id: int)
    requires Accepted(plan) && TreeInvariant(oracle, cap, plan, run) && Enabled(cap, plan, run, free, Finish(id))
    ensures TreeInvariant(oracle, cap, plan, Apply(oracle, cap, plan, run, free, Finish(id)))
  {
    hide Accepted, RunInvariant, TasksInvariant, Ran, TaskOutcome, IsDone, Record, Context, NodeAt, Ids;
    var node := NodeAt(plan.nodes, id);
    FinishedTaskRan(oracle, cap, plan, run, id);
    InFlightIsNew(oracle, run.request, plan, run.results, run.pending, run.inFlight.Keys, id);
    CompletionKeepsInvariant(oracle, run.request, plan, run.results, run.pending, run.inFlight.Keys, id);
    var result := TaskOutcome(oracle, plan, run, node, run.inFlight[id]);
    var after := Record(plan.nodes, node, result, run.results);
    RecordGrows(plan.nodes, node, result, run.results);
    TasksCarryOver(oracle, cap, plan, run, after);
    TaskTaken(oracle, cap, plan, run.request, after, run.inFlight, id);
    var left := run.inFlight - {id};
    assert left.Keys == run.inFlight.Keys - {id};
    assert |left| == |left.Keys| && |run.inFlight| == |run.inFlight.Keys|;
  }

  lemma SkipStepKeepsInvariant(oracle: Oracle, cap: int, plan: Plan, run: Run, free: bool, id: int)
    requires Accepted(plan) && TreeInvariant(oracle, cap, plan, run) && Enabled(cap, plan, run, free, SkipReady(id))
    ensures TreeInvariant(oracle, cap, plan, Apply(oracle, cap, plan, run, free, SkipReady(id)))
  {
    hide Accepted, RunInvariant, TasksInvariant, OnlyUsesSkipped, Deps;
    SkipKeepsInvariant(oracle, run.request, plan, run.results, run.pending, run.inFlight.Keys, id);
    TasksCarryOver(oracle, cap, plan, run, run.results[id := SKIPPED]);
  }

  lemma DispatchStepKeepsInvariant(oracle: Oracle, cap: int, plan: Plan, run: Run, free: bool, id: int)
    requires Accepted(plan) && TreeInvariant(oracle, cap, plan, run) && Enabled(cap, plan, run, free, Dispatch(id))
    ensures TreeInvariant(oracle, cap, plan, Apply(oracle, cap, plan, run, free, Dispatch(id)))
  {
    hide Accepted, RunInvariant, TasksInvariant, OnlyUsesSkipped, Deps;
    DispatchKeepsInvariant(oracle, run.request, plan, run.results, run.pending, run.inFlight.Keys, id);
    TaskPut(oracle, cap, plan, run.request, run.results, run.inFlight, id, Queued);
    assert run.inFlight[id := Queued].Keys == run.inFlight.Keys + {id};
    assert |run.inFlight[id := Queued]| == |run.inFlight.Keys + {id}| && |run.inFlight| == |run.inFlight.Keys|;
  }

  /** Replacing the task of a node in flight by a task that is in order. */
  lemma TaskStepKeepsInvariant(oracle: Oracle, cap: int, plan: Plan, run: Run, id: int, task: Task)
    requires Accepted(plan) && TreeInvariant(oracle, cap, plan, run) && id in run.inFlight && id in Ids(plan.nodes)
    requires TaskInvariant(oracle, cap, plan, run.request, run.results, NodeAt(plan.nodes, id), task)
    ensures TreeInvariant(oracle, cap, plan, run.(inFlight := run.inFlight[id := task]))
  {
    hide Accepted, RunInvariant, TasksInvariant, TaskInvariant;
    TaskPut(oracle, cap, plan, run.request, run.results, run.inFlight, id, task);
    assert run.inFlight[id := task].Keys == run.inFlight.Keys;
    assert |run.inFlight[id := task]| == |run.inFlight.Keys| && |run.inFlight| == |run.inFlight.Keys|;
  }

  lemma {:induction false} StepKeepsInvariant(oracle: Oracle, cap: int, plan: Plan, run: Run, free: bool,
                                              action: Action)
    requires Accepted(plan) && TreeInvariant(oracle, cap, plan, run) && cap >= 1
    requires Enabled(cap, plan, run, free, action)
    ensures TreeInvariant(oracle, cap, plan, Apply(oracle, cap, plan, run, free, action))
    decreases action
  {
    hide Accepted, RunInvariant, OnlyUsesSkipped, Deps, Start;
    match action {
      case Drop(id) =>
        DropKeepsInvariant(oracle, run.request, plan, run.results, run.pending, run.inFlight.Keys, id);
      case SkipReady(id) =>
        SkipStepKeepsInvariant(oracle, cap, plan, run, free, id);
      case Dispatch(id) =>
        DispatchStepKeepsInvariant(oracle, cap, plan, run, free, id);
      case Acquire(id) =>
        var context := Context(NodeAt(plan.nodes, id), run.results);
        TaskStepKeepsInvariant(oracle, cap, plan, run, id, Holding(context));
      case Open(id) =>
        var node := NodeAt(plan.nodes, id);
        var request := SubplanRequest(run.request, plan, node, Context(node, run.results));
        NestedIsAccepted(plan, node);
        StartInvariant(oracle, cap, request, node.subplan.value);
        OpenedTask(oracle, cap, plan, run.request, run.results, node);
        TaskStepKeepsInvariant(oracle, cap, plan, run, id, Nested(Start(request, node.subplan.value)));
      case Finish(id) =>
        FinishKeepsInvariant(oracle, cap, plan, run, free, id);
      case Within(id, inner) =>
        var node := NodeAt(plan.nodes, id);
        var sub := run.inFlight[id].run;
        HostedTask(oracle, cap, plan, run, id);
        StepKeepsInvariant(oracle, cap, node.subplan.value, sub, free, inner);
        var next := Apply(oracle, cap, node.subplan.value, sub, free, inner);
        RequestStays(oracle, cap, node.subplan.value, sub, free, inner);
        TaskStepKeepsInvariant(oracle, cap, plan, run, id, Nested(next));
    }
  }

  lemma OpenedTask(oracle: Oracle, cap: int, plan: Plan, request: Request, results: Results, node: Node)
    requires Accepted(plan) && node in plan.nodes && node.kind.Subplan? && node.subplan.Some? && cap >= 1
    ensures var nested := SubplanRequest(request, plan, node, Context(node, results));
      TaskInvariant(oracle, cap, plan, request, results, node, Nested(Start(nested, node.subplan.value)))
  {
    var nested := SubplanRequest(request, plan, node, Context(node, results));
    NestedIsAccepted(plan, node);
    StartInvariant(oracle, cap, nested, node.subplan.value);
  }

  lemma HostedTask(oracle: Oracle, cap: int, plan: Plan, run: Run, id: int)
    requires Accepted(plan) && TreeInvariant(oracle, cap, plan, run)
    requires HasTask(plan, run, id) && run.inFlight[id].Nested?
    ensures var node := NodeAt(plan.nodes, id);
      && node.kind.Subplan? && node.subplan.Some? && Accepted(node.subplan.value)
      && TreeInvariant(oracle, cap, node.subplan.value, run.inFlight[id].run)
      && run.inFlight[id].run.request == SubplanRequest(run.request, plan, node, Context(node, run.results))
  {
    var node := NodeAt(plan.nodes, id);
    assert TaskInvariant(oracle, cap, plan, run.request, run.results, node, run.inFlight[id]);
    NestedIsAccepted(plan, node);
  }

  lemma RequestStays(oracle: Oracle, cap: int, plan: Plan, run: Run, free: bool, action: Action)
    requires Enabled(cap, plan, run, free, action)
    ensures Apply(oracle, cap, plan, run, free, action).request == run.request
  {
  }
}
