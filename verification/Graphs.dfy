/** Finite directed graphs over integer ids: walks, cycles, longest-path levels,
    and the order in which a first-in-first-out Kahn sort visits a graph. */
module Graphs {
  lemma Inhabited(s: set<int>)
    requires s != {}
    ensures exists x :: x in s
  {
    if forall x :: x !in s {
      assert false;
    }
  }

  type Edges = set<(int, int)>

  ghost predicate Closed(V: set<int>, E: Edges) {
    forall e :: e in E ==> e.0 in V && e.1 in V
  }

  ghost predicate IsWalk(E: Edges, p: seq<int>) {
    |p| >= 1 && forall i, j :: 0 <= i && j == i + 1 < |p| ==> (p[i], p[j]) in E
  }

  ghost function Last(p: seq<int>): int
    requires p != []
  {
    p[|p| - 1]
  }

  /** No walk of at least one edge returns to where it began. */
  ghost predicate Acyclic(E: Edges) {
    forall p :: IsWalk(E, p) && |p| >= 2 ==> p[0] != Last(p)
  }

  /** The longest walk ending in v has exactly d edges. */
  ghost predicate LongestTo(E: Edges, v: int, d: nat) {
    && (exists p :: IsWalk(E, p) && Last(p) == v && |p| == d + 1)
    && (forall p :: IsWalk(E, p) && Last(p) == v ==> |p| <= d + 1)
  }

  ghost predicate Supported(E: Edges, level: map<int, nat>, v: int)
    requires v in level
  {
    level[v] == 0 || exists u :: u in level && (u, v) in E && level[u] + 1 == level[v]
  }

  ghost predicate HasPredIn(E: Edges, R: set<int>, v: int) {
    exists u :: u in R && (u, v) in E
  }

  /** A certificate for longest-path depths: every edge climbs, and every vertex above level 0 sits
      exactly one level above one of its predecessors. */
  ghost predicate Levels(V: set<int>, E: Edges, level: map<int, nat>) {
    && level.Keys == V
    && (forall u, v :: (u, v) in E && u in V && v in V ==> level[u] < level[v])
    && (forall v {:trigger Supported(E, level, v)} :: v in V ==> Supported(E, level, v))
  }

  function Elems(s: seq<int>): set<int> {
    set x | x in s
  }

  ghost predicate Distinct(s: seq<int>) {
    forall i, j :: 0 <= i < j < |s| ==> s[i] != s[j]
  }

  ghost predicate StrictlyAscending(s: seq<int>) {
    forall i, j :: 0 <= i < j < |s| ==> s[i] < s[j]
  }

  ghost predicate IsOrderOf(V: set<int>, s: seq<int>) {
    Distinct(s) && Elems(s) == V
  }

  /** Every predecessor of an element occurs before it. */
  ghost predicate Forward(E: Edges, s: seq<int>) {
    forall j, u :: 0 <= j < |s| && (u, s[j]) in E ==> u in s[..j]
  }

  // ---------- Levels ----------

  lemma {:induction false} WalkClimbs(V: set<int>, E: Edges, level: map<int, nat>, p: seq<int>)
    requires Closed(V, E) && Levels(V, E, level) && IsWalk(E, p) && Last(p) in V
    ensures forall i :: 0 <= i < |p| ==> p[i] in V
    ensures |p| - 1 + level[p[0]] <= level[Last(p)]
  {
    if |p| == 1 {
    } else {
      var q := p[..|p| - 1];
      assert (p[|p| - 2], p[|p| - 1]) in E;
      assert Last(q) == p[|p| - 2];
      WalkClimbs(V, E, level, q);
      assert forall i :: 0 <= i < |q| ==> p[i] == q[i];
    }
  }

  lemma {:induction false} DeepWalk(V: set<int>, E: Edges, level: map<int, nat>, v: int) returns (p: seq<int>)
    requires Closed(V, E) && Levels(V, E, level) && v in V
    ensures IsWalk(E, p) && Last(p) == v && |p| == level[v] + 1
    decreases level[v]
  {
    if level[v] == 0 {
      p := [v];
    } else {
      assert Supported(E, level, v);
      var u :| u in V && (u, v) in E && level[u] + 1 == level[v];
      var q := DeepWalk(V, E, level, u);
      p := q + [v];
    }
  }

  /** Levels are longest-path depths, so any two level maps of a graph agree. */
  lemma LevelsAreLongestPaths(V: set<int>, E: Edges, level: map<int, nat>, v: int)
    requires Closed(V, E) && Levels(V, E, level) && v in V
    ensures LongestTo(E, v, level[v])
  {
    var p := DeepWalk(V, E, level, v);
    forall q | IsWalk(E, q) && Last(q) == v
      ensures |q| <= level[v] + 1
    {
      WalkClimbs(V, E, level, q);
    }
  }

  lemma LevelsImplyAcyclic(V: set<int>, E: Edges, level: map<int, nat>)
    requires Closed(V, E) && Levels(V, E, level)
    ensures Acyclic(E)
  {
    forall p | IsWalk(E, p) && |p| >= 2
      ensures p[0] != Last(p)
    {
      assert (p[|p| - 2], p[|p| - 1]) in E;
      WalkClimbs(V, E, level, p);
    }
  }

  /** Every edge into the listed vertices climbs, and every listed vertex is supported. */
  ghost predicate PartialLevels(E: Edges, level: map<int, nat>) {
    && (forall u, v :: (u, v) in E && v in level ==> u in level && level[u] < level[v])
    && (forall v {:trigger Supported(E, level, v)} :: v in level ==> Supported(E, level, v))
  }

  lemma PartialLevelsGrow(E: Edges, level: map<int, nat>, v: int, preds: set<int>, h: nat)
    requires PartialLevels(E, level) && v !in level
    requires preds <= level.Keys && forall u :: (u, v) in E <==> u in preds
    requires forall u :: u in preds ==> level[u] < h
    requires h == 0 || exists u :: u in preds && level[u] + 1 == h
    ensures PartialLevels(E, level[v := h])
  {
    var after := level[v := h];
    forall w | w in after
      ensures Supported(E, after, w)
    {
      if w == v && h != 0 {
        var u :| u in preds && level[u] + 1 == h;
        assert (u, v) in E && after[u] + 1 == after[v];
      } else if w != v {
        assert Supported(E, level, w);
        if level[w] != 0 {
          var u :| u in level && (u, w) in E && level[u] + 1 == level[w];
          assert u in after && after[u] + 1 == after[w];
        }
      }
    }
  }

  /** The levels of the first k vertices of a forward order. */
  ghost function LevelsAlong(E: Edges, s: seq<int>, k: nat): (level: map<int, nat>)
    requires k <= |s| && Distinct(s) && Forward(E, s)
    ensures level.Keys == Elems(s[..k]) && PartialLevels(E, level)
  {
    if k == 0 then map[] else
      var before := LevelsAlong(E, s, k - 1);
      var v := s[k - 1];
      NextInOrder(E, s, k - 1, before);
      before[v := HighestOver(before, PredsIn(E, before, v))]
  }

  ghost function PredsIn(E: Edges, level: map<int, nat>, v: int): set<int> {
    set u | u in level && (u, v) in E
  }

  lemma NextInOrder(E: Edges, s: seq<int>, k: nat, before: map<int, nat>)
    requires k < |s| && Distinct(s) && Forward(E, s)
    requires before.Keys == Elems(s[..k]) && PartialLevels(E, before)
    ensures Elems(s[..k + 1]) == Elems(s[..k]) + {s[k]}
    ensures PartialLevels(E, before[s[k] := HighestOver(before, PredsIn(E, before, s[k]))])
  {
    hide PartialLevels, HighestOver;
    assert s[..k + 1] == s[..k] + [s[k]];
    assert s[k] !in before;
    assert forall u :: (u, s[k]) in E ==> u in Elems(s[..k]);
    var preds := PredsIn(E, before, s[k]);
    PartialLevelsGrow(E, before, s[k], preds, HighestOver(before, preds));
  }

  /** One more than the greatest value among the given keys; zero when there are none. */
  ghost function HighestOver(level: map<int, nat>, keys: set<int>): (h: nat)
    requires keys <= level.Keys
    ensures forall u :: u in keys ==> level[u] < h
    ensures h == 0 || exists u :: u in keys && level[u] + 1 == h
  {
    if keys == {} then 0 else
      Inhabited(keys);
      var u :| u in keys;
      var rest := HighestOver(level, keys - {u});
      if level[u] + 1 > rest then level[u] + 1 else rest
  }

  lemma OrderGivesLevels(V: set<int>, E: Edges, s: seq<int>) returns (level: map<int, nat>)
    requires IsOrderOf(V, s) && Forward(E, s)
    ensures Levels(V, E, level)
  {
    level := LevelsAlong(E, s, |s|);
    assert s[..|s|] == s;
  }

  // ---------- Cycles ----------

  lemma {:induction false} DistinctIsSmall(s: seq<int>, V: set<int>)
    requires Distinct(s) && Elems(s) <= V
    ensures |s| <= |V|
    ensures |s| == |V| ==> Elems(s) == V
  {
    if s != [] {
      var x := Last(s);
      var t := s[..|s| - 1];
      assert Elems(s) == Elems(t) + {x};
      DistinctIsSmall(t, V - {x});
    } else if |V| == 0 {
      assert V == {};
    }
  }

  lemma DistinctParts(a: seq<int>, b: seq<int>)
    requires Distinct(a + b)
    ensures Distinct(a) && Distinct(b)
    ensures forall x :: x in b ==> x !in a
  {
    var s := a + b;
    assert forall i :: 0 <= i < |a| ==> s[i] == a[i];
    assert forall j :: 0 <= j < |b| ==> s[|a| + j] == b[j];
  }

  lemma DistinctJoin(a: seq<int>, b: seq<int>)
    requires Distinct(a) && Distinct(b)
    requires forall x :: x in b ==> x !in a
    ensures Distinct(a + b)
  {
    forall i, j | 0 <= i < j < |a + b|
      ensures (a + b)[i] != (a + b)[j]
    {
      if i < |a| <= j {
        assert (a + b)[i] in a && (a + b)[j] in b;
      }
    }
  }

  lemma DistinctHasSize(s: seq<int>)
    requires Distinct(s)
    ensures |Elems(s)| == |s|
  {
    DistinctIsSmall(s, Elems(s));
    ElemsIsSmall(s);
  }

  lemma {:induction false} ElemsIsSmall(s: seq<int>)
    ensures |Elems(s)| <= |s|
    ensures |Elems(s)| == |s| ==> Distinct(s)
  {
    if s == [] {
      assert Elems(s) == {};
    } else {
      var x := Last(s);
      var t := s[..|s| - 1];
      ElemsIsSmall(t);
      assert Elems(s) == Elems(t) + {x};
    }
  }

  lemma {:induction false} BackwardWalk(E: Edges, R: set<int>, n: nat) returns (p: seq<int>)
    requires R != {}
    requires forall v {:trigger HasPredIn(E, R, v)} :: v in R ==> HasPredIn(E, R, v)
    ensures IsWalk(E, p) && |p| == n + 1 && Elems(p) <= R
  {
    if n == 0 {
      Inhabited(R);
      var v :| v in R;
      p := [v];
    } else {
      var q := BackwardWalk(E, R, n - 1);
      assert q[0] in Elems(q) && HasPredIn(E, R, q[0]);
      var u :| u in R && (u, q[0]) in E;
      p := [u] + q;
    }
  }

  /** When every vertex of a nonempty finite set has a predecessor inside the set, there is a cycle. */
  lemma StuckSetHasCycle(E: Edges, R: set<int>)
    requires R != {}
    requires forall v {:trigger HasPredIn(E, R, v)} :: v in R ==> HasPredIn(E, R, v)
    ensures !Acyclic(E)
  {
    var p := BackwardWalk(E, R, |R|);
    if Distinct(p) {
      DistinctIsSmall(p, R);
    }
    var i, j :| 0 <= i < j < |p| && p[i] == p[j];
    var q := p[i..j + 1];
    assert IsWalk(E, q) && |q| >= 2 && q[0] == Last(q);
  }

  // ---------- Ascending listings ----------

  ghost function Least(s: set<int>): (m: int)
    requires s != {}
    ensures IsLeast(s, m)
  {
    LeastExists(s);
    var m :| IsLeast(s, m);
    m
  }

  ghost predicate IsLeast(s: set<int>, m: int) {
    m in s && forall x :: x in s ==> m <= x
  }

  lemma {:induction false} LeastExists(s: set<int>)
    requires s != {}
    ensures exists m :: IsLeast(s, m)
  {
    Inhabited(s);
    var y :| y in s;
    var rest := s - {y};
    if rest == {} {
      assert s == {y};
      assert IsLeast(s, y);
    } else {
      LeastExists(rest);
      var m :| IsLeast(rest, m);
      assert s == rest + {y};
      assert IsLeast(s, if m <= y then m else y);
    }
  }

  lemma AscendingCons(m: int, rest: seq<int>)
    requires StrictlyAscending(rest) && forall x :: x in Elems(rest) ==> m < x
    ensures StrictlyAscending([m] + rest) && Elems([m] + rest) == {m} + Elems(rest)
  {
    assert forall i :: 0 <= i < |rest| ==> rest[i] in Elems(rest);
  }

  ghost function Ascending(s: set<int>): (r: seq<int>)
    ensures StrictlyAscending(r) && Elems(r) == s
  {
    if s == {} then [] else
      var m := Least(s);
      var rest := Ascending(s - {m});
      AscendingCons(m, rest);
      [m] + rest
  }

  lemma {:induction false} AscendingIsUnique(a: seq<int>, b: seq<int>)
    requires StrictlyAscending(a) && StrictlyAscending(b) && Elems(a) == Elems(b)
    ensures a == b
  {
    assert a != [] ==> a[0] in Elems(a) && a[0] in b;
    assert b != [] ==> b[0] in Elems(b) && b[0] in a;
    if a != [] && b != [] {
      assert a[0] == b[0];
      forall x
        ensures x in Elems(a[1..]) <==> x in Elems(b[1..])
      {
        assert x in Elems(a) <==> x == a[0] || x in a[1..];
        assert x in Elems(b) <==> x == b[0] || x in b[1..];
      }
      AscendingIsUnique(a[1..], b[1..]);
    }
  }

  // ---------- Kahn's algorithm with a first-in-first-out queue ----------

  ghost function Preds(V: set<int>, E: Edges, v: int): set<int> {
    set u | u in V && (u, v) in E
  }

  ghost function Roots(V: set<int>, E: Edges): set<int> {
    set v | v in V && Preds(V, E, v) == {}
  }

  /** Vertices whose last outstanding predecessor is u once everything in done has been visited. */
  ghost function Freed(V: set<int>, E: Edges, done: seq<int>, u: int): set<int> {
    set v | v in V && (u, v) in E && Preds(V, E, v) <= Elems(done) + {u}
  }

  /** Visited vertices and the queue: exactly the vertices all of whose predecessors were visited. */
  ghost predicate KahnState(V: set<int>, E: Edges, done: seq<int>, queue: seq<int>) {
    && Closed(V, E)
    && Distinct(done + queue)
    && Elems(done + queue) == (set v | v in V && Preds(V, E, v) <= Elems(done))
    && Forward(E, done + queue)
  }

  lemma KahnStart(V: set<int>, E: Edges)
    requires Closed(V, E)
    ensures KahnState(V, E, [], Ascending(Roots(V, E)))
  {
    var q := Ascending(Roots(V, E));
    assert [] + q == q;
    assert Elems([]) == {};
    forall j, u | 0 <= j < |q|
      ensures (u, q[j]) !in E
    {
      assert q[j] in Elems(q);
      assert u !in Preds(V, E, q[j]);
    }
    assert Roots(V, E) == set v | v in V && Preds(V, E, v) <= Elems([]);
  }

  lemma KahnAdvance(V: set<int>, E: Edges, done: seq<int>, queue: seq<int>, freed: seq<int>)
    requires KahnState(V, E, done, queue) && queue != []
    requires StrictlyAscending(freed) && Elems(freed) == Freed(V, E, done, queue[0])
    ensures KahnState(V, E, done + [queue[0]], queue[1..] + freed)
  {
    var u, d, s := queue[0], done + [queue[0]], done + queue;
    var t := d + (queue[1..] + freed);
    assert t == s + freed;
    assert Elems(d) == Elems(done) + {u};
    assert u == s[|done|] && u in Elems(s);
    DistinctParts(done, queue);
    forall v | v in freed
      ensures v !in s
    {
      assert v in Elems(freed) && u in Preds(V, E, v) && u !in Elems(done);
      assert v !in Elems(s);
    }
    DistinctJoin(s, freed);
    forall x
      ensures x in Elems(t) <==> x in V && Preds(V, E, x) <= Elems(d)
    {
      assert x in Elems(t) <==> x in Elems(s) || x in Elems(freed);
      if x in V && Preds(V, E, x) <= Elems(d) && !(Preds(V, E, x) <= Elems(done)) {
        assert u in Preds(V, E, x);
      }
    }
    forall j, w | 0 <= j < |t| && (w, t[j]) in E
      ensures w in t[..j]
    {
      if j < |s| {
        assert t[j] == s[j] && t[..j] == s[..j];
      } else {
        assert t[j] in freed && t[j] in Elems(freed);
        assert w in Preds(V, E, t[j]);
        assert w in d;
        var i :| 0 <= i < |d| && d[i] == w;
        assert t[i] == w;
      }
    }
  }

  /** The visiting order from a state of the sort; the order in which edges are stored plays no part. */
  ghost function KahnFrom(V: set<int>, E: Edges, done: seq<int>, queue: seq<int>): (r: seq<int>)
    requires KahnState(V, E, done, queue)
    ensures KahnState(V, E, r, [])
    decreases V - Elems(done)
  {
    if queue == [] then done else
      var u := queue[0];
      var freed := Ascending(Freed(V, E, done, u));
      KahnAdvance(V, E, done, queue, freed);
      assert u == (done + queue)[|done|] && u in Elems(done + queue);
      DistinctParts(done, queue);
      assert Elems(done + [u]) == Elems(done) + {u};
      KahnFrom(V, E, done + [u], queue[1..] + freed)
  }

  ghost function KahnOrder(V: set<int>, E: Edges): seq<int>
    requires Closed(V, E)
  {
    KahnStart(V, E);
    KahnFrom(V, E, [], Ascending(Roots(V, E)))
  }

  /** The visiting order never repeats a vertex and keeps every predecessor first. */
  lemma KahnOrderIsForward(V: set<int>, E: Edges)
    requires Closed(V, E)
    ensures var r := KahnOrder(V, E); Distinct(r) && Elems(r) <= V && Forward(E, r)
  {
    KahnStart(V, E);
    var r := KahnFrom(V, E, [], Ascending(Roots(V, E)));
    assert r + [] == r;
  }

  /** The sort visits every vertex exactly when the graph has no cycle. */
  lemma KahnOrderIsComplete(V: set<int>, E: Edges)
    requires Closed(V, E)
    ensures |KahnOrder(V, E)| == |V| <==> Acyclic(E)
    ensures Acyclic(E) <==> Elems(KahnOrder(V, E)) == V
  {
    KahnStart(V, E);
    var r := KahnFrom(V, E, [], Ascending(Roots(V, E)));
    assert r + [] == r;
    DistinctHasSize(r);
    DistinctIsSmall(r, V);
    if Elems(r) == V {
      var level := OrderGivesLevels(V, E, r);
      LevelsImplyAcyclic(V, E, level);
    } else {
      var R := V - Elems(r);
      forall v | v in R
        ensures HasPredIn(E, R, v)
      {
        assert !(Preds(V, E, v) <= Elems(r));
        var u :| u in Preds(V, E, v) && u !in Elems(r);
        assert u in R && (u, v) in E;
      }
      assert R != {};
      StuckSetHasCycle(E, R);
    }
  }

  lemma AcyclicHasLevels(V: set<int>, E: Edges) returns (level: map<int, nat>)
    requires Closed(V, E) && Acyclic(E)
    ensures Levels(V, E, level)
  {
    KahnOrderIsComplete(V, E);
    KahnOrderIsForward(V, E);
    level := OrderGivesLevels(V, E, KahnOrder(V, E));
  }

  // ---------- The order respects layers ----------

  ghost predicate NonDecreasing(level: map<int, nat>, s: seq<int>) {
    forall i, j :: 0 <= i <= j < |s| && s[i] in level && s[j] in level ==> level[s[i]] <= level[s[j]]
  }

  ghost predicate QueueIsShallow(level: map<int, nat>, done: seq<int>, queue: seq<int>) {
    forall x :: x in queue ==> x in level ==>
      if done == [] then level[x] == 0 else Last(done) in level && level[x] <= level[Last(done)] + 1
  }

  lemma {:induction false} KahnFromIsLayered(V: set<int>, E: Edges, level: map<int, nat>, done: seq<int>,
                                             queue: seq<int>)
    requires KahnState(V, E, done, queue) && Levels(V, E, level)
    requires NonDecreasing(level, done + queue) && QueueIsShallow(level, done, queue)
    ensures NonDecreasing(level, KahnFrom(V, E, done, queue))
    decreases V - Elems(done)
  {
    if queue == [] {
      assert done + queue == done;
    } else {
      hide Levels, NonDecreasing, QueueIsShallow;
      var u := queue[0];
      var freed := Ascending(Freed(V, E, done, u));
      var s := done + queue;
      assert s[|done|] == u && u in Elems(s);
      DistinctParts(done, queue);
      assert Elems(done + [u]) == Elems(done) + {u};
      KahnAdvance(V, E, done, queue, freed);
      LevelsCover(V, E, level);
      forall x | x in s
        ensures x in level
      {
        assert x in Elems(s);
      }
      forall v | v in freed
        ensures v in level && level[v] == level[u] + 1
      {
        FreedIsOneDeeper(V, E, level, done, queue, v);
      }
      LayersAdvance(level, done, queue, freed);
      KahnFromIsLayered(V, E, level, done + [u], queue[1..] + freed);
    }
  }

  lemma LevelsCover(V: set<int>, E: Edges, level: map<int, nat>)
    requires Levels(V, E, level)
    ensures level.Keys == V
  {
  }

  /** Moving the head of the queue to the visited ones and appending vertices one level deeper. */
  lemma LayersAdvance(level: map<int, nat>, done: seq<int>, queue: seq<int>, freed: seq<int>)
    requires queue != [] && NonDecreasing(level, done + queue) && QueueIsShallow(level, done, queue)
    requires queue[0] in level && forall x :: x in done + queue ==> x in level
    requires forall v :: v in freed ==> v in level && level[v] == level[queue[0]] + 1
    ensures NonDecreasing(level, done + [queue[0]] + (queue[1..] + freed))
    ensures QueueIsShallow(level, done + [queue[0]], queue[1..] + freed)
  {
    var u, s := queue[0], done + queue;
    var t := s + freed;
    assert done + [u] + (queue[1..] + freed) == t;
    assert s[|done|] == u && u in s;
    forall i | 0 <= i < |s|
      ensures s[i] in level && level[s[i]] <= level[u] + 1
    {
      var x := s[i];
      assert x in s;
      if i <= |done| {
        assert level[s[i]] <= level[s[|done|]];
      } else {
        assert x in queue by { assert queue[i - |done|] == x; }
        DeepestInQueue(level, done, queue, x);
      }
    }
    forall x | x in queue[1..] + freed
      ensures x in level ==> level[x] <= level[u] + 1
    {
      if x !in freed {
        assert x in queue && x in s;
        DeepestInQueue(level, done, queue, x);
      }
    }
    forall i, j | 0 <= i <= j < |t| && t[i] in level && t[j] in level
      ensures level[t[i]] <= level[t[j]]
    {
      if j >= |s| {
        var w := freed[j - |s|];
        assert w in freed;
        if i >= |s| {
          var v := freed[i - |s|];
          assert v in freed;
        }
      } else {
        assert t[i] == s[i] && t[j] == s[j];
      }
    }
  }

  lemma DeepestInQueue(level: map<int, nat>, done: seq<int>, queue: seq<int>, x: int)
    requires NonDecreasing(level, done + queue) && QueueIsShallow(level, done, queue)
    requires x in queue && queue[0] in level && x in level && (done != [] ==> Last(done) in level)
    ensures level[x] <= level[queue[0]] + 1
  {
    var s := done + queue;
    assert s[|done|] == queue[0];
    if done != [] {
      assert s[|done| - 1] == Last(done);
    }
  }

  lemma FreedIsOneDeeper(V: set<int>, E: Edges, level: map<int, nat>, done: seq<int>, queue: seq<int>, v: int)
    requires KahnState(V, E, done, queue) && Levels(V, E, level) && NonDecreasing(level, done + queue)
    requires queue != [] && v in Ascending(Freed(V, E, done, queue[0]))
    ensures v in V && queue[0] in V && level[v] == level[queue[0]] + 1
  {
    var u, s := queue[0], done + queue;
    assert v in Elems(Ascending(Freed(V, E, done, u)));
    assert s[|done|] == u && u in Elems(s);
    assert Supported(E, level, v);
    var w :| w in V && (w, v) in E && level[w] + 1 == level[v];
    assert w in Preds(V, E, v);
    if w != u {
      var i :| 0 <= i < |done| && done[i] == w;
      assert s[i] == w;
    }
  }

  /** The sort emits vertices in nondecreasing longest-path depth. */
  lemma KahnOrderIsLayered(V: set<int>, E: Edges, level: map<int, nat>)
    requires Closed(V, E) && Levels(V, E, level)
    ensures NonDecreasing(level, KahnOrder(V, E))
  {
    hide Levels, Ascending, Roots, KahnState;
    KahnStart(V, E);
    var q := Ascending(Roots(V, E));
    forall x | x in q
      ensures x in level && level[x] == 0
    {
      assert x in Elems(q);
      RootIsOnTop(V, E, level, x);
    }
    FlatQueue(level, q);
    KahnFromIsLayered(V, E, level, [], q);
  }

  lemma FlatQueue(level: map<int, nat>, q: seq<int>)
    requires forall x :: x in q ==> x in level && level[x] == 0
    ensures NonDecreasing(level, [] + q) && QueueIsShallow(level, [], q)
  {
    forall i | 0 <= i < |q|
      ensures q[i] in level && level[q[i]] == 0
    {
      var x := q[i];
      assert x in q;
    }
    assert [] + q == q;
  }

  lemma RootIsOnTop(V: set<int>, E: Edges, level: map<int, nat>, x: int)
    requires Levels(V, E, level) && x in Roots(V, E)
    ensures x in level && level[x] == 0
  {
    assert forall u :: u in V && (u, x) in E ==> u in Preds(V, E, x);
    assert Supported(E, level, x);
  }
}
