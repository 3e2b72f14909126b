/** Fixture-path locks: eval workers take the locks of all paths a task manages, one at a time in
    sorted order, hold them while the task runs, and release them afterwards. */
module FixtureLocks {
  import opened Sorting

  // ---------- Path order ----------

  type Path = string

  /** Lexicographic order on paths, character by character. */
  predicate Less(a: Path, b: Path) {
    if a == [] || b == [] then a == [] && b != []
    else a[0] < b[0] || (a[0] == b[0] && Less(a[1..], b[1..]))
  }

  lemma {:induction false} LessIsIrreflexive(a: Path)
    ensures !Less(a, a)
  {
    if a != [] {
      LessIsIrreflexive(a[1..]);
    }
  }

  lemma {:induction false} LessIsTransitive(a: Path, b: Path, c: Path)
    requires Less(a, b) && Less(b, c)
    ensures Less(a, c)
  {
    if a != [] && a[0] == b[0] && b[0] == c[0] {
      LessIsTransitive(a[1..], b[1..], c[1..]);
    }
  }

  lemma {:induction false} LessIsTotal(a: Path, b: Path)
    ensures a == b || Less(a, b) || Less(b, a)
  {
    if a != [] && b != [] && a[0] == b[0] {
      LessIsTotal(a[1..], b[1..]);
      assert a == [a[0]] + a[1..] && b == [b[0]] + b[1..];
    }
  }

  ghost predicate StrictlySorted(s: seq<Path>) {
    forall i, j :: 0 <= i < j < |s| ==> Less(s[i], s[j])
  }

  // ---------- The paths a task manages ----------

  predicate NotAfter(a: Path, b: Path) {
    !Less(b, a)
  }

  lemma PathsAreOrdered()
    ensures IsPreorder(NotAfter)
  {
    forall a, b
      ensures NotAfter(a, b) || NotAfter(b, a)
    {
      if Less(a, b) && Less(b, a) {
        LessIsTransitive(a, b, a);
        LessIsIrreflexive(a);
        assert false;
      }
    }
    forall a, b, c | NotAfter(a, b) && NotAfter(b, c)
      ensures NotAfter(a, c)
    {
      LessIsTotal(a, b);
      LessIsTotal(b, c);
      if Less(c, a) && Less(a, b) {
        LessIsTransitive(c, a, b);
      }
    }
  }

  lemma SortedIsSorted(s: seq<Path>)
    requires NoRepeats(s)
    ensures StrictlySorted(Sort(NotAfter, s))
    ensures forall y :: y in Sort(NotAfter, s) <==> y in s
  {
    PathsAreOrdered();
    SortOrders(NotAfter, s);
    var r := Sort(NotAfter, s);
    forall i, j | 0 <= i < j < |r|
      ensures Less(r[i], r[j])
    {
      assert NotAfter(r[i], r[j]);
      LessIsTotal(r[i], r[j]);
    }
  }

  /** The resolved paths of a task's fixtures, each once, in the order every task uses. */
  method TaskManagedPaths(install: seq<Path>, capture: seq<Path>, resolve: Path -> Path) returns (paths: seq<Path>)
    ensures StrictlySorted(paths)
    ensures forall p :: p in paths <==> exists raw :: raw in install + capture && p == resolve(raw)
  {
    var seen: set<Path> := {};
    var found: seq<Path> := [];
    var raws := install + capture;
    for i := 0 to |raws|
      invariant NoRepeats(found)
      invariant forall p :: p in seen <==> p in found
      invariant forall p :: p in found ==> exists raw :: raw in raws && p == resolve(raw)
      invariant forall j :: 0 <= j < i ==> resolve(raws[j]) in found
    {
      var resolved := resolve(raws[i]);
      assert raws[i] in raws;
      if resolved !in seen {
        seen := seen + {resolved};
        found := found + [resolved];
      }
    }
    SortedIsSorted(found);
    paths := Sort(NotAfter, found);
  }

  // ---------- The lock registry ----------

  /** One lock per path, created on first use and kept for good. */
  class LockRegistry {
    var locks: map<Path, nat>
    var created: nat

    constructor ()
      ensures Valid() && locks == map[]
    {
      locks := map[];
      created := 0;
    }

    /** Different paths have different locks. */
    ghost predicate Valid()
      reads this
    {
      && (forall p :: p in locks ==> locks[p] < created)
      && (forall p, q :: p in locks && q in locks && locks[p] == locks[q] ==> p == q)
    }

    method GetLock(path: Path) returns (lock: nat)
      requires Valid()
      modifies this
      ensures Valid() && path in locks && lock == locks[path]
      ensures path in old(locks) ==> locks == old(locks)
      ensures path !in old(locks) ==> locks == old(locks)[path := lock]
    {
      if path !in locks {
        locks := locks[path := created];
        created := created + 1;
      }
      lock := locks[path];
    }
  }

  // ---------- Workers as a state machine ----------

  /** Where a submitted task stands: in the pool's queue, taking its locks one by one (held so far),
      running with all of them, giving them back (released so far), or finished. */
  datatype Phase = Waiting | Acquiring(held: nat) | Running | Releasing(released: nat) | Finished

  /** Each task's lock list, the phases, and who owns which lock. */
  datatype Pool = Pool(phases: seq<Phase>, owner: map<Path, nat>)

  /** The sorted, duplicate-free lock lists of the submitted tasks. */
  ghost predicate AreLockLists(needs: seq<seq<Path>>) {
    forall t :: 0 <= t < |needs| ==> StrictlySorted(needs[t])
  }

  function Submitted(needs: seq<seq<Path>>): Pool {
    Pool(seq(|needs|, _ => Waiting), map[])
  }

  predicate IsActive(phase: Phase) {
    !phase.Waiting? && !phase.Finished?
  }

  function ActiveCount(phases: seq<Phase>): nat {
    if phases == [] then 0
    else ActiveCount(phases[..|phases| - 1]) + if IsActive(phases[|phases| - 1]) then 1 else 0
  }

  /** The tasks that a worker is busy with. */
  ghost function Active(phases: seq<Phase>): set<int> {
    set t | 0 <= t < |phases| && phases[t] != Waiting && phases[t] != Finished
  }

  lemma {:induction false} ActiveAreCounted(phases: seq<Phase>)
    ensures ActiveCount(phases) == |Active(phases)|
  {
    if phases == [] {
      assert Active(phases) == {};
    } else {
      var init := phases[..|phases| - 1];
      ActiveAreCounted(init);
      assert Active(phases) == Active(init) + if IsActive(phases[|init|]) then {|init|} else {};
    }
  }

  /** The next step of task t: to begin it needs a free worker and every earlier task begun; to take a
      lock it needs the lock to be free; everything else it can always do. */
  predicate CanStep(needs: seq<seq<Path>>, workers: nat, pool: Pool, t: nat) {
    && |pool.phases| == |needs| && t < |needs|
    && match pool.phases[t]
       case Waiting =>
         ActiveCount(pool.phases) < workers && forall u :: 0 <= u < t ==> !pool.phases[u].Waiting?
       case Acquiring(held) => held < |needs[t]| ==> needs[t][held] !in pool.owner
       case Running => true
       case Releasing(_) => true
       case Finished => false
  }

  function Stepped(needs: seq<seq<Path>>, workers: nat, pool: Pool, t: nat): Pool
    requires CanStep(needs, workers, pool, t)
  {
    match pool.phases[t]
    case Waiting => pool.(phases := pool.phases[t := Acquiring(0)])
    case Acquiring(held) =>
      if held < |needs[t]| then Pool(pool.phases[t := Acquiring(held + 1)], pool.owner[needs[t][held] := t])
      else pool.(phases := pool.phases[t := Running])
    case Running => pool.(phases := pool.phases[t := Releasing(0)])
    case Releasing(released) =>
      if released < |needs[t]| then Pool(pool.phases[t := Releasing(released + 1)], pool.owner - {needs[t][released]})
      else pool.(phases := pool.phases[t := Finished])
    case Finished => pool
  }

  /** The locks a task holds in a phase. */
  function Held(needs: seq<Path>, phase: Phase): seq<Path> {
    match phase
    case Acquiring(held) => if held <= |needs| then needs[..held] else needs
    case Running => needs
    case Releasing(released) => if released <= |needs| then needs[released..] else []
    case _ => []
  }

  ghost predicate IsPhaseOf(needs: seq<Path>, phase: Phase) {
    && (phase.Acquiring? ==> phase.held <= |needs|)
    && (phase.Releasing? ==> phase.released <= |needs|)
  }

  /** A lock has an owner exactly when that task's phase says it holds it. */
  ghost predicate PoolInvariant(needs: seq<seq<Path>>, workers: nat, pool: Pool) {
    && |pool.phases| == |needs|
    && ActiveCount(pool.phases) <= workers
    && (forall t :: 0 <= t < |needs| ==> IsPhaseOf(needs[t], pool.phases[t]))
    && (forall p, t :: 0 <= t < |needs| ==> (p in Held(needs[t], pool.phases[t]) <==> Owns(pool, t, p)))
    && (forall p :: p in pool.owner ==> pool.owner[p] < |needs|)
  }

  predicate Owns(pool: Pool, t: int, p: Path) {
    p in pool.owner && pool.owner[p] == t
  }

  lemma SubmittedIsSound(needs: seq<seq<Path>>, workers: nat)
    ensures PoolInvariant(needs, workers, Submitted(needs))
  {
    NobodyIsActive(Submitted(needs).phases);
  }

  lemma {:induction false} NobodyIsActive(phases: seq<Phase>)
    requires forall t :: 0 <= t < |phases| ==> !IsActive(phases[t])
    ensures ActiveCount(phases) == 0
  {
    if phases != [] {
      NobodyIsActive(phases[..|phases| - 1]);
    }
  }

  lemma {:induction false} ActiveAfter(phases: seq<Phase>, t: nat, phase: Phase)
    requires t < |phases|
    ensures ActiveCount(phases[t := phase])
         == ActiveCount(phases) - (if IsActive(phases[t]) then 1 else 0) + (if IsActive(phase) then 1 else 0)
  {
    var n := |phases| - 1;
    if t < n {
      ActiveAfter(phases[..n], t, phase);
      assert phases[t := phase][..n] == phases[..n][t := phase];
    } else {
      assert phases[t := phase][..n] == phases[..n];
    }
  }

  /** What one step does to the locks its task holds. */
  lemma HeldAfter(needs: seq<seq<Path>>, workers: nat, pool: Pool, t: nat, p: Path)
    requires AreLockLists(needs) && PoolInvariant(needs, workers, pool) && CanStep(needs, workers, pool, t)
    ensures var next := Stepped(needs, workers, pool, t);
      && IsPhaseOf(needs[t], next.phases[t])
      && (p in Held(needs[t], next.phases[t]) <==> Owns(next, t, p))
  {
    hide Less, ActiveCount;
    var mine, phase := needs[t], pool.phases[t];
    assert p in Held(mine, phase) <==> Owns(pool, t, p);
    assert IsPhaseOf(mine, phase) && StrictlySorted(mine);
    hide PoolInvariant, AreLockLists;
    if phase.Acquiring? && phase.held < |mine| {
      TakeOneMore(mine, phase.held, p);
    } else if phase.Releasing? && phase.released < |mine| {
      DropOneMore(mine, phase.released, p);
    }
  }

  lemma TakeOneMore(s: seq<Path>, k: nat, p: Path)
    requires k < |s|
    ensures p in s[..k + 1] <==> p in s[..k] || p == s[k]
  {
    assert s[..k + 1] == s[..k] + [s[k]];
  }

  lemma DropOneMore(s: seq<Path>, k: nat, p: Path)
    requires k < |s| && StrictlySorted(s)
    ensures p in s[k + 1..] <==> p in s[k..] && p != s[k]
  {
    assert s[k..] == [s[k]] + s[k + 1..];
    LessIsIrreflexive(s[k]);
    forall i | k < i < |s|
      ensures s[i] != s[k]
    {
      assert Less(s[k], s[i]);
    }
  }

  lemma OthersKeepTheirs(needs: seq<seq<Path>>, workers: nat, pool: Pool, t: nat, u: nat, p: Path)
    requires PoolInvariant(needs, workers, pool) && CanStep(needs, workers, pool, t)
    requires u < |needs| && u != t
    ensures var next := Stepped(needs, workers, pool, t);
      next.phases[u] == pool.phases[u] && (Owns(next, u, p) <==> Owns(pool, u, p))
  {
    if pool.phases[t].Releasing? && pool.phases[t].released < |needs[t]| {
      assert needs[t][pool.phases[t].released] in Held(needs[t], pool.phases[t]);
      assert Owns(pool, t, needs[t][pool.phases[t].released]);
    }
  }

  lemma StepKeepsPool(needs: seq<seq<Path>>, workers: nat, pool: Pool, t: nat)
    requires AreLockLists(needs) && PoolInvariant(needs, workers, pool) && CanStep(needs, workers, pool, t)
    ensures PoolInvariant(needs, workers, Stepped(needs, workers, pool, t))
  {
    var next := Stepped(needs, workers, pool, t);
    ActiveAfter(pool.phases, t, next.phases[t]);
    assert ActiveCount(next.phases) <= workers && |next.phases| == |needs|;
    assert forall p :: p in next.owner ==> next.owner[p] < |needs|;
    forall p, u | 0 <= u < |needs|
      ensures p in Held(needs[u], next.phases[u]) <==> Owns(next, u, p)
      ensures IsPhaseOf(needs[u], next.phases[u])
    {
      hide Stepped, CanStep, Held, Owns, AreLockLists, ActiveCount;
      if u == t {
        HeldAfter(needs, workers, pool, t, p);
      } else {
        OthersKeepTheirs(needs, workers, pool, t, u, p);
        assert IsPhaseOf(needs[u], pool.phases[u]);
        assert p in Held(needs[u], pool.phases[u]) <==> Owns(pool, u, p);
      }
    }
    hide Stepped, CanStep, Held, Owns, AreLockLists, ActiveCount, IsPhaseOf;
  }

  // ---------- Mutual exclusion ----------

  /** Two tasks that share a managed path never run at the same time. */
  lemma SharedPathsExclude(needs: seq<seq<Path>>, workers: nat, pool: Pool, t: nat, u: nat, p: Path)
    requires PoolInvariant(needs, workers, pool)
    requires t < |needs| && u < |needs| && pool.phases[t].Running? && pool.phases[u].Running?
    requires p in needs[t] && p in needs[u]
    ensures t == u
  {
    assert p in Held(needs[t], pool.phases[t]) && p in Held(needs[u], pool.phases[u]);
    assert Owns(pool, t, p) && Owns(pool, u, p);
  }

  // ---------- No deadlock ----------

  predicate IsFinished(pool: Pool) {
    forall t :: 0 <= t < |pool.phases| ==> pool.phases[t].Finished?
  }

  /** The task waits for a lock. */
  predicate Wants(needs: seq<seq<Path>>, pool: Pool, t: nat) {
    t < |needs| && t < |pool.phases| && pool.phases[t].Acquiring? && pool.phases[t].held < |needs[t]|
  }

  function Wanted(needs: seq<seq<Path>>, pool: Pool, t: nat): Path
    requires Wants(needs, pool, t)
  {
    needs[t][pool.phases[t].held]
  }

  /** Among the first n tasks, one that waits for the greatest lock any of them waits for. */
  lemma {:induction false} GreatestWanted(needs: seq<seq<Path>>, pool: Pool, n: nat, some: nat) returns (t: nat)
    requires some < n && Wants(needs, pool, some)
    ensures t < n && Wants(needs, pool, t)
    ensures forall u: nat :: u < n && Wants(needs, pool, u) ==> !Less(Wanted(needs, pool, t), Wanted(needs, pool, u))
  {
    t := some;
    LessIsIrreflexive(Wanted(needs, pool, t));
    var k := 0;
    while k < n
      invariant k <= n && t < n && Wants(needs, pool, t)
      invariant !Less(Wanted(needs, pool, t), Wanted(needs, pool, t))
      invariant forall u: nat :: u < k && Wants(needs, pool, u) ==>
        !Less(Wanted(needs, pool, t), Wanted(needs, pool, u))
    {
      if Wants(needs, pool, k) && Less(Wanted(needs, pool, t), Wanted(needs, pool, k)) {
        forall u: nat | u < k && Wants(needs, pool, u)
          ensures !Less(Wanted(needs, pool, k), Wanted(needs, pool, u))
        {
          if Less(Wanted(needs, pool, k), Wanted(needs, pool, u)) {
            LessIsTransitive(Wanted(needs, pool, t), Wanted(needs, pool, k), Wanted(needs, pool, u));
          }
        }
        t := k;
        LessIsIrreflexive(Wanted(needs, pool, t));
      }
      k := k + 1;
    }
  }

  /** The holder of a wanted lock either can step or waits for a greater lock. */
  lemma HolderWantsMore(needs: seq<seq<Path>>, workers: nat, pool: Pool, t: nat)
    requires AreLockLists(needs) && PoolInvariant(needs, workers, pool)
    requires Wants(needs, pool, t) && Wanted(needs, pool, t) in pool.owner
    ensures var u := pool.owner[Wanted(needs, pool, t)];
      || CanStep(needs, workers, pool, u)
      || (Wants(needs, pool, u) && Less(Wanted(needs, pool, t), Wanted(needs, pool, u)))
  {
    var p := Wanted(needs, pool, t);
    var u := pool.owner[p];
    assert Owns(pool, u, p);
    assert p in Held(needs[u], pool.phases[u]);
    assert IsPhaseOf(needs[u], pool.phases[u]) && StrictlySorted(needs[u]);
    if Wants(needs, pool, u) {
      var i :| 0 <= i < pool.phases[u].held && needs[u][i] == p;
      assert Less(needs[u][i], needs[u][pool.phases[u].held]);
    }
  }

  lemma FirstWaiting(pool: Pool) returns (t: nat)
    requires exists u :: 0 <= u < |pool.phases| && pool.phases[u].Waiting?
    ensures t < |pool.phases| && pool.phases[t].Waiting?
    ensures forall u :: 0 <= u < t ==> !pool.phases[u].Waiting?
  {
    var last :| 0 <= last < |pool.phases| && pool.phases[last].Waiting?;
    t := 0;
    while !pool.phases[t].Waiting?
      invariant t <= last && forall u :: 0 <= u < t ==> !pool.phases[u].Waiting?
      decreases last - t
    {
      t := t + 1;
    }
  }

  /** Whatever the tasks need and however many workers there are, some task can always step. */
  lemma NoDeadlock(needs: seq<seq<Path>>, workers: nat, pool: Pool) returns (t: nat)
    requires AreLockLists(needs) && PoolInvariant(needs, workers, pool) && workers >= 1
    requires !IsFinished(pool)
    ensures CanStep(needs, workers, pool, t)
  {
    if some: nat :| some < |needs| && Wants(needs, pool, some) {
      t := GreatestWanted(needs, pool, |needs|, some);
      if Wanted(needs, pool, t) in pool.owner {
        HolderWantsMore(needs, workers, pool, t);
        t := pool.owner[Wanted(needs, pool, t)];
      }
    } else if active :| 0 <= active < |needs| && IsActive(pool.phases[active]) {
      assert IsPhaseOf(needs[active], pool.phases[active]);
      assert !Wants(needs, pool, active);
      t := active;
    } else {
      NobodyIsActive(pool.phases);
      var u :| 0 <= u < |pool.phases| && !pool.phases[u].Finished?;
      assert !IsActive(pool.phases[u]);
      t := FirstWaiting(pool);
    }
  }

  // ---------- All tasks finish ----------

  /** Steps a task still has to take. */
  function Remaining(needs: seq<Path>, phase: Phase): int {
    match phase
    case Waiting => 2 * |needs| + 4
    case Acquiring(held) => 2 * |needs| + 3 - held
    case Running => |needs| + 2
    case Releasing(released) => |needs| + 1 - released
    case Finished => 0
  }

  function TotalRemaining(needs: seq<seq<Path>>, phases: seq<Phase>): int
    requires |needs| == |phases|
  {
    if needs == [] then 0
    else
      var n := |needs| - 1;
      TotalRemaining(needs[..n], phases[..n]) + Remaining(needs[n], phases[n])
  }

  lemma {:induction false} RemainingAfter(needs: seq<seq<Path>>, phases: seq<Phase>, t: nat, phase: Phase)
    requires |needs| == |phases| && t < |phases|
    ensures TotalRemaining(needs, phases[t := phase])
         == TotalRemaining(needs, phases) - Remaining(needs[t], phases[t]) + Remaining(needs[t], phase)
  {
    var n := |needs| - 1;
    if t < n {
      RemainingAfter(needs[..n], phases[..n], t, phase);
      assert phases[t := phase][..n] == phases[..n][t := phase];
    } else {
      assert phases[t := phase][..n] == phases[..n];
    }
  }

  lemma {:induction false} RemainingIsNonNegative(needs: seq<seq<Path>>, phases: seq<Phase>)
    requires |needs| == |phases| && forall t :: 0 <= t < |needs| ==> IsPhaseOf(needs[t], phases[t])
    ensures TotalRemaining(needs, phases) >= 0
    ensures TotalRemaining(needs, phases) == 0 ==> forall t :: 0 <= t < |needs| ==> phases[t].Finished?
  {
    if needs != [] {
      var n := |needs| - 1;
      assert IsPhaseOf(needs[n], phases[n]);
      RemainingIsNonNegative(needs[..n], phases[..n]);
      assert forall t :: 0 <= t < n ==> phases[..n][t] == phases[t];
    }
  }

  ghost predicate Admissible(needs: seq<seq<Path>>, workers: nat, pool: Pool, schedule: seq<nat>)
    decreases |schedule|
  {
    schedule == [] ||
    (CanStep(needs, workers, pool, schedule[0])
     && Admissible(needs, workers, Stepped(needs, workers, pool, schedule[0]), schedule[1..]))
  }

  ghost function After(needs: seq<seq<Path>>, workers: nat, pool: Pool, schedule: seq<nat>): Pool
    requires Admissible(needs, workers, pool, schedule)
    decreases |schedule|
  {
    if schedule == [] then pool
    else After(needs, workers, Stepped(needs, workers, pool, schedule[0]), schedule[1..])
  }

  lemma {:induction false} ScheduleIsSound(needs: seq<seq<Path>>, workers: nat, pool: Pool, schedule: seq<nat>)
    requires AreLockLists(needs) && PoolInvariant(needs, workers, pool)
    requires Admissible(needs, workers, pool, schedule)
    ensures var end := After(needs, workers, pool, schedule);
      && PoolInvariant(needs, workers, end)
      && TotalRemaining(needs, end.phases) + |schedule| == TotalRemaining(needs, pool.phases)
    decreases |schedule|
  {
    if schedule != [] {
      var t := schedule[0];
      var next := Stepped(needs, workers, pool, t);
      StepKeepsPool(needs, workers, pool, t);
      assert IsPhaseOf(needs[t], pool.phases[t]);
      RemainingAfter(needs, pool.phases, t, next.phases[t]);
      hide PoolInvariant, Stepped;
      ScheduleIsSound(needs, workers, next, schedule[1..]);
    }
  }

  /** For any submitted tasks, any number of workers and any interleaving: locks are exclusive, a task
      can always step until all are finished, and that takes a fixed number of steps. */
  lemma EverySchedule(needs: seq<seq<Path>>, workers: nat, schedule: seq<nat>)
    requires AreLockLists(needs) && workers >= 1
    requires Admissible(needs, workers, Submitted(needs), schedule)
    ensures var end := After(needs, workers, Submitted(needs), schedule);
      var total := TotalRemaining(needs, Submitted(needs).phases);
      && PoolInvariant(needs, workers, end)
      && |Active(end.phases)| <= workers
      && |schedule| <= total
      && (IsFinished(end) || exists t :: CanStep(needs, workers, end, t))
      && (|schedule| == total ==> IsFinished(end))
  {
    SubmittedIsSound(needs, workers);
    ScheduleIsSound(needs, workers, Submitted(needs), schedule);
    var end := After(needs, workers, Submitted(needs), schedule);
    RemainingIsNonNegative(needs, end.phases);
    ActiveAreCounted(end.phases);
    if !IsFinished(end) {
      var t := NoDeadlock(needs, workers, end);
    }
  }

  /** Without the common order two tasks can block each other for good. */
  lemma UnsortedCanDeadlock(a: Path, b: Path)
    requires a != b
    ensures var needs := [[a, b], [b, a]];
      var schedule := [0, 1, 0, 1];
      && Admissible(needs, 2, Submitted(needs), schedule)
      && !IsFinished(After(needs, 2, Submitted(needs), schedule))
      && forall t :: !CanStep(needs, 2, After(needs, 2, Submitted(needs), schedule), t)
  {
    var needs := [[a, b], [b, a]];
    var p0 := Submitted(needs);
    NobodyIsActive(p0.phases);
    ActiveAfter(p0.phases, 0, Acquiring(0));
    var p1 := Stepped(needs, 2, p0, 0);
    var p2 := Stepped(needs, 2, p1, 1);
    var p3 := Stepped(needs, 2, p2, 0);
    var p4 := Stepped(needs, 2, p3, 1);
    assert p4.phases == [Acquiring(1), Acquiring(1)] && p4.phases[0] == Acquiring(1);
    var s4: seq<nat> := [];
    var s3: seq<nat> := [1];
    var s2: seq<nat> := [0, 1];
    var s1: seq<nat> := [1, 0, 1];
    var s0: seq<nat> := [0, 1, 0, 1];
    assert s0[1..] == s1 && s1[1..] == s2 && s2[1..] == s3 && s3[1..] == s4;
    assert Admissible(needs, 2, p3, s3) && After(needs, 2, p3, s3) == p4;
    assert Admissible(needs, 2, p2, s2) && After(needs, 2, p2, s2) == p4;
    assert Admissible(needs, 2, p1, s1) && After(needs, 2, p1, s1) == p4;
    assert Admissible(needs, 2, p0, s0) && After(needs, 2, p0, s0) == p4;
  }
}
