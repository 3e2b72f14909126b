/** Resume claims over the two state stores: the in-memory one, whose transition is atomic, and the
    SQLite one, which selects a row and updates it in two separate steps. */
module StateStores {
  import opened Wrappers

  datatype TaskStatus =
    | Planning | AwaitingConfirmation | Resuming | Executing
    | Completed | Failed | Paused | Cancelled | Rejected

  /** A stored execution state: its status and everything else it carries. */
  datatype TaskState = TaskState(status: TaskStatus, payload: string)

  /** A database row: the denormalised status column and the serialised state. */
  datatype Row = Row(status: TaskStatus, data: TaskState)

  // ---------- The two stores ----------

  class InMemoryStateStore {
    var tasks: map<string, TaskState>

    constructor ()
      ensures tasks == map[]
    {
      tasks := map[];
    }

    method SaveTask(id: string, state: TaskState)
      modifies this
      ensures tasks == old(tasks)[id := state]
    {
      tasks := tasks[id := state];
    }

    method LoadTask(id: string) returns (r: Option<TaskState>)
      ensures r == if id in tasks then Some(tasks[id]) else None
    {
      r := if id in tasks then Some(tasks[id]) else None;
    }

    /** The atomic transition that the other store has to match. */
    method TransitionTaskStatus(id: string, fromStatuses: set<TaskStatus>, toStatus: TaskStatus)
      returns (r: Option<TaskState>)
      modifies this
      ensures r.Some? <==> id in old(tasks) && old(tasks)[id].status in fromStatuses
      ensures r.Some? ==> r.value.status == toStatus && r.value.payload == old(tasks)[id].payload
      ensures tasks.Keys == old(tasks).Keys
      ensures r.Some? ==> tasks[id] == r.value
      ensures forall other :: other in tasks && (other != id || r.None?) ==> tasks[other] == old(tasks)[other]
      ensures (tasks, r) == Transition(old(tasks), id, fromStatuses, toStatus)
    {
      if id !in tasks || tasks[id].status !in fromStatuses {
        return None;
      }
      var updated := tasks[id].(status := toStatus);
      tasks := tasks[id := updated];
      return Some(updated);
    }
  }

  function Transition(tasks: map<string, TaskState>, id: string, fromStatuses: set<TaskStatus>, toStatus: TaskStatus)
    : (map<string, TaskState>, Option<TaskState>)
  {
    if id !in tasks || tasks[id].status !in fromStatuses then (tasks, None)
    else (tasks[id := tasks[id].(status := toStatus)], Some(tasks[id].(status := toStatus)))
  }

  /** What a SELECT prepares for the later UPDATE. */
  function Prepare(row: Row, fromStatuses: set<TaskStatus>, toStatus: TaskStatus): Option<TaskState> {
    if row.data.status in fromStatuses then Some(row.data.(status := toStatus)) else None
  }

  /** What an UPDATE guarded by the status column leaves, if it applies. */
  function Rewrite(row: Row, fromStatuses: set<TaskStatus>, prepared: TaskState): Option<Row> {
    if row.status in fromStatuses then Some(Row(prepared.status, prepared)) else None
  }

  class SqliteStateStore {
    var rows: map<string, Row>

    constructor ()
      ensures Valid() && rows == map[]
    {
      rows := map[];
    }

    /** The status column repeats the status inside the serialised state. */
    ghost predicate Valid()
      reads this
    {
      forall id :: id in rows ==> rows[id].status == rows[id].data.status
    }

    ghost function Contents(): map<string, TaskState>
      reads this
    {
      map id | id in rows :: rows[id].data
    }

    method SaveTask(id: string, state: TaskState)
      requires Valid()
      modifies this
      ensures Valid() && Contents() == old(Contents())[id := state]
    {
      rows := rows[id := Row(state.status, state)];
    }

    method LoadTask(id: string) returns (r: Option<TaskState>)
      requires Valid()
      ensures r == if id in Contents() then Some(Contents()[id]) else None
    {
      r := if id in rows then Some(rows[id].data) else None;
    }

    /** First half of a transition: read the row and prepare the new state. */
    method SelectForTransition(id: string, fromStatuses: set<TaskStatus>, toStatus: TaskStatus)
      returns (prepared: Option<TaskState>)
      requires Valid()
      ensures prepared == Transition(Contents(), id, fromStatuses, toStatus).1
    {
      if fromStatuses == {} || id !in rows {
        return None;
      }
      return Prepare(rows[id], fromStatuses, toStatus);
    }

    /** Second half: write the prepared state if the status column still allows it. */
    method UpdateIfStatus(id: string, fromStatuses: set<TaskStatus>, prepared: TaskState) returns (transitioned: bool)
      requires Valid()
      modifies this
      ensures Valid()
      ensures transitioned <==> id in old(Contents()) && old(Contents())[id].status in fromStatuses
      ensures Contents() == if transitioned then old(Contents())[id := prepared] else old(Contents())
    {
      if id !in rows {
        return false;
      }
      var row := Rewrite(rows[id], fromStatuses, prepared);
      if row.Some? {
        rows := rows[id := row.value];
      }
      return row.Some?;
    }
  }

  // ---------- What may happen between the two halves ----------

  /** The row after other writers have saved these states, the last of them last. */
  function AfterSaves(row: Row, saves: seq<TaskState>): Row {
    if saves == [] then row else Row(saves[|saves| - 1].status, saves[|saves| - 1])
  }

  /** A split transition whose select saw row seen and whose update finds row found: the row it leaves
      and what it returns. */
  function SplitTransition(seen: Row, found: Row, fromStatuses: set<TaskStatus>,
                           toStatus: TaskStatus): (Row, Option<TaskState>) {
    match Prepare(seen, fromStatuses, toStatus)
    case None => (found, None)
    case Some(prepared) =>
      match Rewrite(found, fromStatuses, prepared)
      case None => (found, None)
      case Some(row) => (row, Some(prepared))
  }

  /** The atomic transition of a single row. */
  function AtomicTransition(row: Row, fromStatuses: set<TaskStatus>, toStatus: TaskStatus): (Row, Option<TaskState>) {
    var (tasks, r) := Transition(map["" := row.data], "", fromStatuses, toStatus);
    (Row(tasks[""].status, tasks[""]), r)
  }

  /** With saves between select and update the split transition is the atomic one at the time of the
      update exactly when either the atomic one refuses, or the select found the task in a state to
      leave and the last save, if any, kept what it saw apart from the status. */
  lemma SplitIsAtomicExactlyWhen(seen: Row, saves: seq<TaskState>, fromStatuses: set<TaskStatus>, toStatus: TaskStatus)
    requires seen.status == seen.data.status
    ensures var found := AfterSaves(seen, saves);
      SplitTransition(seen, found, fromStatuses, toStatus) == AtomicTransition(found, fromStatuses, toStatus) <==>
      (found.status !in fromStatuses
       || (seen.status in fromStatuses && (saves != [] ==> saves[|saves| - 1].payload == seen.data.payload)))
  {
  }

  /** A resume selects plan A, a revision saves plan B for confirmation, and the update still goes
      through: plan A is executed and stored where the atomic transition executes plan B. */
  lemma RevisionIsLost(planA: string, planB: string)
    requires planA != planB
    ensures var seen := Row(AwaitingConfirmation, TaskState(AwaitingConfirmation, planA));
      var found := AfterSaves(seen, [TaskState(AwaitingConfirmation, planB)]);
      && SplitTransition(seen, found, STARTABLE, Executing).1 == Some(TaskState(Executing, planA))
      && AtomicTransition(found, STARTABLE, Executing).1 == Some(TaskState(Executing, planB))
      && SplitTransition(seen, found, STARTABLE, Executing) != AtomicTransition(found, STARTABLE, Executing)
  {
  }

  // ---------- Clients racing for one gate ----------

  const RESUMABLE := {AwaitingConfirmation, Paused}
  const STARTABLE := {AwaitingConfirmation, Paused, Resuming}

  /** A gate is a task that awaits confirmation or is paused; a claimed one can be started as well. */
  lemma StatusesAre(status: TaskStatus)
    ensures status in RESUMABLE <==> status == AwaitingConfirmation || status == Paused
    ensures status in STARTABLE <==> status == AwaitingConfirmation || status == Paused || status == Resuming
    ensures IsTerminal(status) <==> status == Completed || status == Failed || status == Cancelled
  {
  }

  /** Where a client stands. A REST client loads the task, claims it (select, then update) and only
      then resumes; a direct client resumes at once. Resuming is again a select and an update; the
      winner executes and finally saves. */
  datatype Client =
    | Loading
    | Claiming
    | ClaimPrepared(prepared: TaskState)
    | Starting
    | StartPrepared(prepared: TaskState)
    | Running(state: TaskState)
    | Saved
    | Refused

  datatype System = System(row: Row, clients: seq<Client>)

  /** How an execution may end. */
  predicate IsTerminal(status: TaskStatus) {
    status in {Completed, Failed, Cancelled}
  }

  /** One atomic database access or one final save by client c; outcome is what execution ends in. */
  function Step(s: System, c: nat, outcome: TaskState): System
    requires c < |s.clients|
  {
    match s.clients[c]
    case Loading =>
      s.(clients := s.clients[c := if s.row.data.status in RESUMABLE then Claiming else Refused])
    case Claiming =>
      var prepared := Prepare(s.row, RESUMABLE, Resuming);
      s.(clients := s.clients[c := if prepared.Some? then ClaimPrepared(prepared.value) else Refused])
    case ClaimPrepared(prepared) =>
      var row := Rewrite(s.row, RESUMABLE, prepared);
      if row.Some? then System(row.value, s.clients[c := Starting]) else s.(clients := s.clients[c := Refused])
    case Starting =>
      var prepared := Prepare(s.row, STARTABLE, Executing);
      s.(clients := s.clients[c := if prepared.Some? then StartPrepared(prepared.value) else Refused])
    case StartPrepared(prepared) =>
      var row := Rewrite(s.row, STARTABLE, prepared);
      if row.Some? then System(row.value, s.clients[c := Running(prepared)]) else s.(clients := s.clients[c := Refused])
    case Running(_) =>
      if IsTerminal(outcome.status) then System(Row(outcome.status, outcome), s.clients[c := Saved]) else s
    case Saved => s
    case Refused => s
  }

  predicate HasStarted(client: Client) {
    client.Running? || client.Saved?
  }

  /** The gate: every client is about to begin, the row is consistent. */
  ghost predicate AtGate(s: System) {
    && s.row.status == s.row.data.status
    && forall c :: 0 <= c < |s.clients| ==> s.clients[c].Loading? || s.clients[c].Starting?
  }

  /** Until somebody starts, the row carries the original payload and so does every prepared state;
      from then on the row can no longer be started. */
  ghost predicate ClaimInvariant(payload: string, s: System) {
    && s.row.status == s.row.data.status
    && (forall c, d :: 0 <= c < d < |s.clients| ==> !(HasStarted(s.clients[c]) && HasStarted(s.clients[d])))
    && (forall c :: 0 <= c < |s.clients| && HasStarted(s.clients[c]) ==> s.row.status !in STARTABLE)
    && (s.row.status in STARTABLE ==> s.row.data.payload == payload)
    && (forall c :: 0 <= c < |s.clients| ==> PreparedWith(payload, s.clients[c]))
  }

  ghost predicate PreparedWith(payload: string, client: Client) {
    && (client.ClaimPrepared? ==> client.prepared == TaskState(Resuming, payload))
    && (client.StartPrepared? ==> client.prepared == TaskState(Executing, payload))
    && (client.Running? ==> client.state == TaskState(Executing, payload))
  }

  lemma StepKeepsClaims(payload: string, s: System, c: nat, outcome: TaskState)
    requires ClaimInvariant(payload, s) && c < |s.clients|
    ensures ClaimInvariant(payload, Step(s, c, outcome))
  {
    assert PreparedWith(payload, s.clients[c]);
  }

  /** What the atomic store does to the row in the same step. */
  function AtomicStep(row: TaskState, client: Client, outcome: TaskState): (TaskState, bool) {
    match client
    case ClaimPrepared(_) => if row.status in RESUMABLE then (row.(status := Resuming), true) else (row, false)
    case StartPrepared(_) => if row.status in STARTABLE then (row.(status := Executing), true) else (row, false)
    case Running(_) => if IsTerminal(outcome.status) then (outcome, true) else (row, false)
    case _ => (row, false)
  }

  /** Each step of the split protocol is a step of the atomic one: an update that goes through is the
      atomic transition at that moment, and a client is turned away only where the atomic store would
      turn it away too. */
  lemma StepRefinesAtomic(payload: string, s: System, c: nat, outcome: TaskState)
    requires ClaimInvariant(payload, s) && c < |s.clients|
    ensures var next := Step(s, c, outcome);
      var (row, won) := AtomicStep(s.row.data, s.clients[c], outcome);
      && next.row.data == row && next.row.status == row.status
      && (s.clients[c].Loading? ==>
            next.clients[c] == if s.row.status == AwaitingConfirmation || s.row.status == Paused then Claiming
                               else Refused)
      && (s.clients[c].ClaimPrepared? ==> next.clients[c] == if won then Starting else Refused)
      && (s.clients[c].StartPrepared? ==> next.clients[c] == if won then Running(row) else Refused)
      && (s.clients[c].Claiming? && next.clients[c].Refused? ==> s.row.data.status !in RESUMABLE)
      && (s.clients[c].Starting? && next.clients[c].Refused? ==> s.row.data.status !in STARTABLE)
  {
    assert PreparedWith(payload, s.clients[c]);
  }

  // ---------- Every interleaving ----------

  datatype Move = Move(client: nat, outcome: TaskState)

  function Play(s: System, moves: seq<Move>): System
    decreases |moves|
  {
    if moves == [] then s
    else if moves[0].client < |s.clients| then Play(Step(s, moves[0].client, moves[0].outcome), moves[1..])
    else Play(s, moves[1..])
  }

  lemma {:induction false} PlayKeepsClaims(payload: string, s: System, moves: seq<Move>)
    requires ClaimInvariant(payload, s)
    ensures ClaimInvariant(payload, Play(s, moves)) && |Play(s, moves).clients| == |s.clients|
    decreases |moves|
  {
    if moves != [] {
      if moves[0].client < |s.clients| {
        StepKeepsClaims(payload, s, moves[0].client, moves[0].outcome);
        PlayKeepsClaims(payload, Step(s, moves[0].client, moves[0].outcome), moves[1..]);
      } else {
        PlayKeepsClaims(payload, s, moves[1..]);
      }
    }
  }

  /** From a gate, under any interleaving of any clients, at most one execution ever starts, it starts
      from the state stored at the gate, and the status column always equals the stored status. */
  lemma AtMostOneExecution(gate: System, moves: seq<Move>, c: nat, d: nat)
    requires AtGate(gate)
    requires c < |gate.clients| && d < |gate.clients|
    ensures var s := Play(gate, moves);
      && |s.clients| == |gate.clients|
      && s.row.status == s.row.data.status
      && (HasStarted(s.clients[c]) && HasStarted(s.clients[d]) ==> c == d)
      && (s.clients[c].Running? ==> s.clients[c].state == gate.row.data.(status := Executing))
  {
    var payload := gate.row.data.payload;
    assert ClaimInvariant(payload, gate);
    PlayKeepsClaims(payload, gate, moves);
    var s := Play(gate, moves);
    if c < d {
      assert !(HasStarted(s.clients[c]) && HasStarted(s.clients[d]));
    } else if d < c {
      assert !(HasStarted(s.clients[d]) && HasStarted(s.clients[c]));
    }
    assert PreparedWith(payload, s.clients[c]);
  }

  /** A client that resumes undisturbed from a gate that can be started does start. */
  lemma LoneClientStarts(row: Row, outcome: TaskState)
    requires row.status == row.data.status && row.status in RESUMABLE
    ensures var go := Move(0, outcome);
      Play(System(row, [Loading]), [go, go, go, go, go]).clients == [Running(row.data.(status := Executing))]
  {
    var go := Move(0, outcome);
    var s0 := System(row, [Loading]);
    var s1 := Step(s0, 0, outcome);
    var s2 := Step(s1, 0, outcome);
    var s3 := Step(s2, 0, outcome);
    var s4 := Step(s3, 0, outcome);
    var s5 := Step(s4, 0, outcome);
    assert s5.clients == [Running(row.data.(status := Executing))];
    assert [go, go, go, go, go][1..] == [go, go, go, go] && [go, go, go, go][1..] == [go, go, go];
    assert [go, go, go][1..] == [go, go] && [go, go][1..] == [go] && [go][1..] == [];
    assert Play(s4, [go]) == s5;
    assert Play(s3, [go, go]) == s5;
    assert Play(s2, [go, go, go]) == s5;
    assert Play(s1, [go, go, go, go]) == s5;
  }
}
