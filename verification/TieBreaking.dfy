/** In which order the sort lists the vertices of one layer: by the visiting time of the last
    predecessor, then by id, and when that happens to be by id alone. */
module TieBreaking {
  import opened Graphs

  // ---------- The queue is served in turn ----------

  /** One more than the position of v's last predecessor among the first k vertices, or 0. */
  ghost function LastPred(E: Edges, order: seq<int>, k: nat, v: int): (p: nat)
    requires k <= |order|
    ensures p <= k
    ensures p > 0 ==> (order[p - 1], v) in E
    ensures forall i :: p <= i < k ==> (order[i], v) !in E
  {
    if k == 0 then 0
    else if (order[k - 1], v) in E then k
    else LastPred(E, order, k - 1, v)
  }

  lemma LastPredIs(E: Edges, order: seq<int>, k: nat, v: int, p: nat)
    requires k <= |order| && p <= k
    requires p > 0 ==> (order[p - 1], v) in E
    requires forall i :: p <= i < k ==> (order[i], v) !in E
    ensures LastPred(E, order, k, v) == p
  {
    var q := LastPred(E, order, k, v);
    assert q > 0 ==> q - 1 < p;
    assert p > 0 ==> p - 1 < q;
  }

  /** A vertex freed earlier comes first; vertices freed together come by ascending id. */
  ghost predicate ComesFirst(E: Edges, done: seq<int>, v: int, w: int) {
    var p, q := LastPred(E, done, |done|, v), LastPred(E, done, |done|, w);
    p < q || (p == q && v < w)
  }

  ghost predicate InTurn(E: Edges, done: seq<int>, listed: seq<int>) {
    forall a, b :: 0 <= a < b < |listed| ==> ComesFirst(E, done, listed[a], listed[b])
  }

  /** Visiting one more vertex changes nothing for the vertices listed already. */
  lemma LastPredStays(V: set<int>, E: Edges, done: seq<int>, queue: seq<int>, v: int)
    requires KahnState(V, E, done, queue) && queue != [] && v in done + queue
    ensures LastPred(E, done + [queue[0]], |done| + 1, v) == LastPred(E, done, |done|, v)
  {
    var u, s, d := queue[0], done + queue, done + [queue[0]];
    var p := LastPred(E, done, |done|, v);
    assert v in Elems(s);
    assert u !in done by {
      assert s[|done|] == u && forall i :: 0 <= i < |done| ==> s[i] == done[i];
    }
    assert u in Elems(s) && u in V by { assert s[|done|] == u; }
    assert u !in Preds(V, E, v);
    assert (u, v) !in E;
    LastPredIs(E, d, |d|, v, p);
  }

  lemma FreedIsLast(V: set<int>, E: Edges, done: seq<int>, queue: seq<int>, v: int)
    requires queue != [] && v in Freed(V, E, done, queue[0])
    ensures LastPred(E, done + [queue[0]], |done| + 1, v) == |done| + 1
  {
    LastPredIs(E, done + [queue[0]], |done| + 1, v, |done| + 1);
  }

  lemma TurnAdvances(V: set<int>, E: Edges, done: seq<int>, queue: seq<int>, freed: seq<int>)
    requires KahnState(V, E, done, queue) && queue != [] && InTurn(E, done, done + queue)
    requires StrictlyAscending(freed) && Elems(freed) == Freed(V, E, done, queue[0])
    ensures InTurn(E, done + [queue[0]], done + [queue[0]] + (queue[1..] + freed))
  {
    var d, s := done + [queue[0]], done + queue;
    assert d + (queue[1..] + freed) == s + freed;
    forall a, b | 0 <= a < b < |s + freed| ensures ComesFirst(E, d, (s + freed)[a], (s + freed)[b]) {
      if b < |s| {
        assert s[a] in s && s[b] in s;
        LastPredStays(V, E, done, queue, s[a]);
        LastPredStays(V, E, done, queue, s[b]);
        assert ComesFirst(E, done, s[a], s[b]);
      } else {
        var w := freed[b - |s|];
        assert w in Elems(freed);
        FreedIsLast(V, E, done, queue, w);
        if a < |s| {
          assert s[a] in s;
          LastPredStays(V, E, done, queue, s[a]);
        } else {
          assert freed[a - |s|] in Elems(freed);
          FreedIsLast(V, E, done, queue, freed[a - |s|]);
        }
      }
    }
  }

  lemma {:induction false} KahnFromIsInTurn(V: set<int>, E: Edges, done: seq<int>, queue: seq<int>)
    requires KahnState(V, E, done, queue) && InTurn(E, done, done + queue)
    ensures InTurn(E, KahnFrom(V, E, done, queue), KahnFrom(V, E, done, queue))
    decreases V - Elems(done)
  {
    if queue == [] {
      assert done + queue == done;
    } else {
      var u := queue[0];
      var freed := Ascending(Freed(V, E, done, u));
      KahnAdvance(V, E, done, queue, freed);
      assert (done + queue)[|done|] == u && u in Elems(done + queue);
      DistinctParts(done, queue);
      assert Elems(done + [u]) == Elems(done) + {u};
      TurnAdvances(V, E, done, queue, freed);
      KahnFromIsInTurn(V, E, done + [u], queue[1..] + freed);
    }
  }

  /** Whatever the graph, of two vertices the sort lists first the one whose last predecessor it
      listed first, and the smaller one if that is the same or there is none. */
  lemma KahnOrderIsInTurn(V: set<int>, E: Edges)
    requires Closed(V, E)
    ensures InTurn(E, KahnOrder(V, E), KahnOrder(V, E))
  {
    KahnStart(V, E);
    var q := Ascending(Roots(V, E));
    assert [] + q == q;
    KahnFromIsInTurn(V, E, [], q);
  }

  // ---------- When layers are listed by ascending id ----------

  ghost predicate LayersAscend(level: map<int, nat>, order: seq<int>) {
    forall a, b :: 0 <= a < b < |order| && order[a] in level && order[b] in level
      && SameLayer(level, order[a], order[b])
      ==> order[a] < order[b]
  }

  ghost predicate SameLayer(level: map<int, nat>, v: int, w: int)
    requires v in level && w in level
  {
    level[v] == level[w]
  }

  /** u is a predecessor of v on the layer just above. */
  ghost predicate JustAbove(E: Edges, level: map<int, nat>, u: int, v: int) {
    u in level && v in level && (u, v) in E && level[u] + 1 == level[v]
  }

  ghost predicate HasOneFrom(E: Edges, level: map<int, nat>, least: int, v: int) {
    exists u :: least <= u && JustAbove(E, level, u, v)
  }

  /** Of two vertices on one layer the greater id has the greater greatest predecessor just above, or
      the same one. */
  ghost predicate ParentsKeepPace(E: Edges, level: map<int, nat>) {
    forall u, v, w :: JustAbove(E, level, u, v) && w in level && SameLayer(level, v, w) && v < w
      ==> HasOneFrom(E, level, u, w)
  }

  /** The last listed predecessor of a vertex below the roots is just above it. */
  lemma LastPredIsJustAbove(V: set<int>, E: Edges, level: map<int, nat>, order: seq<int>, v: int)
    requires Closed(V, E) && Levels(V, E, level) && Elems(order) == V
    requires NonDecreasing(level, order) && v in V && level[v] > 0
    ensures var p := LastPred(E, order, |order|, v);
      && p > 0 && JustAbove(E, level, order[p - 1], v)
      && forall i :: 0 <= i < |order| && JustAbove(E, level, order[i], v) ==> i < p
  {
    hide Levels, Closed, NonDecreasing, LastPred;
    var u := Supporter(V, E, level, v);
    assert u in Elems(order);
    var i :| 0 <= i < |order| && order[i] == u;
    var p := LastPred(E, order, |order|, v);
    assert i < p;
    EdgeClimbs(V, E, level, order[p - 1], v);
    LaterIsDeeper(level, order, i, p - 1);
  }

  lemma LaterIsDeeper(level: map<int, nat>, order: seq<int>, i: nat, j: nat)
    requires NonDecreasing(level, order) && i <= j < |order| && order[i] in level && order[j] in level
    ensures level[order[i]] <= level[order[j]]
  {
  }

  lemma Supporter(V: set<int>, E: Edges, level: map<int, nat>, v: int) returns (u: int)
    requires Closed(V, E) && Levels(V, E, level) && v in V && level[v] > 0
    ensures u in V && level.Keys == V && (u, v) in E && level[u] + 1 == level[v]
  {
    assert Supported(E, level, v);
    u :| u in level && (u, v) in E && level[u] + 1 == level[v];
  }

  lemma EdgeClimbs(V: set<int>, E: Edges, level: map<int, nat>, u: int, v: int)
    requires Closed(V, E) && Levels(V, E, level) && (u, v) in E
    ensures u in V && v in V && level[u] < level[v]
  {
  }

  /** The listing of an acyclic graph by the sort, as far as it matters here. */
  ghost predicate IsListing(V: set<int>, E: Edges, level: map<int, nat>, order: seq<int>) {
    && Closed(V, E) && Levels(V, E, level) && Elems(order) == V && Distinct(order)
    && NonDecreasing(level, order) && InTurn(E, order, order)
  }

  ghost predicate AscendsAbove(level: map<int, nat>, order: seq<int>, depth: nat) {
    forall a, b :: 0 <= a < b < |order| && order[a] in level && order[b] in level
      && SameLayer(level, order[a], order[b])
      && level[order[a]] < depth
      ==> order[a] < order[b]
  }

  lemma NoPredOfRoot(V: set<int>, E: Edges, level: map<int, nat>, order: seq<int>, v: int)
    requires IsListing(V, E, level, order) && v in V && level.Keys == V && level[v] == 0
    ensures LastPred(E, order, |order|, v) == 0
  {
    forall i | 0 <= i < |order| ensures (order[i], v) !in E {
      assert order[i] in Elems(order);
    }
    LastPredIs(E, order, |order|, v, 0);
  }

  lemma PositionOf(V: set<int>, E: Edges, level: map<int, nat>, order: seq<int>, v: int) returns (i: nat)
    requires IsListing(V, E, level, order) && v in V
    ensures i < |order| && order[i] == v && level.Keys == V
  {
    assert v in Elems(order);
    i :| 0 <= i < |order| && order[i] == v;
  }

  /** The facts about a listing that one comparison needs. */
  lemma LastParents(V: set<int>, E: Edges, level: map<int, nat>, order: seq<int>, v: int) returns (p: nat)
    requires IsListing(V, E, level, order) && v in V && level.Keys == V && level[v] > 0
    ensures p < |order| && JustAbove(E, level, order[p], v) && p + 1 == LastPred(E, order, |order|, v)
    ensures forall i :: 0 <= i < |order| && JustAbove(E, level, order[i], v) ==> i <= p
  {
    LastPredIsJustAbove(V, E, level, order, v);
    p := LastPred(E, order, |order|, v) - 1;
  }

  lemma InTurnAt(V: set<int>, E: Edges, level: map<int, nat>, order: seq<int>, a: nat, b: nat)
    requires IsListing(V, E, level, order) && a < b < |order|
    ensures order[a] in V && order[b] in V && level.Keys == V && order[a] != order[b]
    ensures ComesFirst(E, order, order[a], order[b])
  {
    assert order[a] in Elems(order) && order[b] in Elems(order);
  }

  /** Where the last parents of two vertices of one layer below the roots are listed. */
  lemma ParentsInTurn(V: set<int>, E: Edges, level: map<int, nat>, order: seq<int>, a: nat, b: nat)
    returns (p: nat, q: nat)
    requires IsListing(V, E, level, order) && a < b < |order| && level.Keys == V
    requires order[a] in V && order[b] in V && SameLayer(level, order[a], order[b]) && level[order[a]] > 0
    ensures p <= q < |order| && (p == q ==> order[a] < order[b])
    ensures JustAbove(E, level, order[p], order[a]) && JustAbove(E, level, order[q], order[b])
    ensures forall i :: 0 <= i < |order| && JustAbove(E, level, order[i], order[a]) ==> i <= p
  {
    hide IsListing;
    InTurnAt(V, E, level, order, a, b);
    p := LastParents(V, E, level, order, order[a]);
    q := LastParents(V, E, level, order, order[b]);
  }

  /** If the layer just above is listed by ascending id, so is this one. */
  lemma NextLayerAscends(V: set<int>, E: Edges, level: map<int, nat>, order: seq<int>, a: nat, b: nat)
    requires IsListing(V, E, level, order) && ParentsKeepPace(E, level) && level.Keys == V
    requires a < b < |order| && order[a] in V && order[b] in V && SameLayer(level, order[a], order[b])
    requires AscendsAbove(level, order, level[order[a]])
    ensures order[a] < order[b]
  {
    hide IsListing, LastPred;
    InTurnAt(V, E, level, order, a, b);
    if level[order[a]] == 0 {
      NoPredOfRoot(V, E, level, order, order[a]);
      NoPredOfRoot(V, E, level, order, order[b]);
    } else {
      var p, q := ParentsInTurn(V, E, level, order, a, b);
      forall u | JustAbove(E, level, u, order[a])
        ensures u < order[q] || p == q
      {
        var i := PositionOf(V, E, level, order, u);
        assert i <= p && SameLayer(level, order[i], order[q]);
      }
    }
  }

  lemma {:induction false} LayersAscendUpTo(V: set<int>, E: Edges, level: map<int, nat>, order: seq<int>, depth: nat)
    requires IsListing(V, E, level, order) && ParentsKeepPace(E, level) && level.Keys == V
    ensures AscendsAbove(level, order, depth)
  {
    hide IsListing, ParentsKeepPace;
    if depth > 0 {
      LayersAscendUpTo(V, E, level, order, depth - 1);
      forall a, b | 0 <= a < b < |order| && order[a] in level && order[b] in level
        && SameLayer(level, order[a], order[b])
        && level[order[a]] < depth
        ensures order[a] < order[b]
      {
        if level[order[a]] == depth - 1 {
          NextLayerAscends(V, E, level, order, a, b);
        }
      }
    }
  }

  lemma AscendingLayersKeepPace(V: set<int>, E: Edges, level: map<int, nat>, order: seq<int>)
    requires IsListing(V, E, level, order) && LayersAscend(level, order) && level.Keys == V
    ensures ParentsKeepPace(E, level)
  {
    hide IsListing;
    forall u, v, w | JustAbove(E, level, u, v) && w in level && SameLayer(level, v, w) && v < w
      ensures HasOneFrom(E, level, u, w)
    {
      var i := PositionOf(V, E, level, order, u);
      var a := PositionOf(V, E, level, order, v);
      var b := PositionOf(V, E, level, order, w);
      assert a < b;
      var p, q := ParentsInTurn(V, E, level, order, a, b);
      assert i <= p <= q;
      assert SameLayer(level, order[i], order[q]);
      assert u <= order[q];
    }
  }

  lemma KahnOrderLists(V: set<int>, E: Edges, level: map<int, nat>)
    requires Closed(V, E) && Levels(V, E, level)
    ensures IsListing(V, E, level, KahnOrder(V, E)) && level.Keys == V && |KahnOrder(V, E)| == |V|
  {
    hide KahnOrder, Distinct, NonDecreasing, InTurn, Acyclic, Closed;
    LevelsImplyAcyclic(V, E, level);
    KahnOrderIsForward(V, E);
    KahnOrderIsComplete(V, E);
    KahnOrderIsLayered(V, E, level);
    KahnOrderIsInTurn(V, E);
  }

  /** Ties are broken by ascending id on every layer exactly when greater ids have no lesser greatest
      predecessor just above. */
  lemma TiesAscendExactlyWhen(V: set<int>, E: Edges, level: map<int, nat>)
    requires Closed(V, E) && Levels(V, E, level)
    ensures LayersAscend(level, KahnOrder(V, E)) <==> ParentsKeepPace(E, level)
  {
    var order := KahnOrder(V, E);
    KahnOrderLists(V, E, level);
    hide IsListing, ParentsKeepPace;
    if ParentsKeepPace(E, level) {
      forall a, b | 0 <= a < b < |order| && order[a] in level && order[b] in level
        && SameLayer(level, order[a], order[b])
        ensures order[a] < order[b]
      {
        LayersAscendUpTo(V, E, level, order, level[order[a]] + 1);
      }
    }
    if LayersAscend(level, order) {
      AscendingLayersKeepPace(V, E, level, order);
    }
  }

  // ---------- A graph on which ties do not ascend ----------

  const CROSSED: Edges := {(1, 4), (2, 3)}
  const CROSSED_LEVELS: map<int, nat> := map[1 := 0, 2 := 0, 3 := 1, 4 := 1]

  /** Two roots and two crossing edges: the sort lists 4 before 3, on one layer. */
  lemma TiesNeedNotAscend()
    ensures Closed({1, 2, 3, 4}, CROSSED) && Levels({1, 2, 3, 4}, CROSSED, CROSSED_LEVELS)
    ensures KahnOrder({1, 2, 3, 4}, CROSSED) == [1, 2, 4, 3]
    ensures !LayersAscend(CROSSED_LEVELS, [1, 2, 4, 3])
  {
    hide *;
    CrossedHasLevels();
    CrossedEdges();
    assert |{1, 2, 3, 4}| == 4;
    var order := KahnOrder({1, 2, 3, 4}, CROSSED);
    KahnOrderLists({1, 2, 3, 4}, CROSSED, CROSSED_LEVELS);
    FourInTwoLayers({1, 2, 3, 4}, CROSSED, CROSSED_LEVELS, order);
    FourBeforeThree(CROSSED_LEVELS, order);
  }

  lemma FourBeforeThree(level: map<int, nat>, order: seq<int>)
    requires order == [1, 2, 4, 3] && 3 in level && 4 in level && level[3] == level[4]
    ensures !LayersAscend(level, order)
  {
    assert SameLayer(level, order[2], order[3]);
  }

  lemma CrossedHasLevels()
    ensures Closed({1, 2, 3, 4}, CROSSED) && Levels({1, 2, 3, 4}, CROSSED, CROSSED_LEVELS)
  {
    var E, level := CROSSED, CROSSED_LEVELS;
    assert (1, 4) in E && (2, 3) in E;
    assert Supported(E, level, 1) && Supported(E, level, 2) && Supported(E, level, 3) && Supported(E, level, 4);
  }

  lemma FourInTwoLayers(V: set<int>, E: Edges, level: map<int, nat>, order: seq<int>)
    requires IsListing(V, E, level, order) && level.Keys == V && |order| == 4 && 1 in V && 2 in V && 3 in V && 4 in V
    requires level[1] == 0 && level[2] == 0 && level[3] == 1 && level[4] == 1
    requires (1, 4) in E && forall u :: (u, 4) in E ==> u == 1
    requires (2, 3) in E && forall u :: (u, 3) in E ==> u == 2
    ensures order == [1, 2, 4, 3]
  {
    hide *;
    NoPredOfRoot(V, E, level, order, 1);
    NoPredOfRoot(V, E, level, order, 2);
    var a := PositionOf(V, E, level, order, 1);
    var b := PositionOf(V, E, level, order, 2);
    var c := PositionOf(V, E, level, order, 4);
    var d := PositionOf(V, E, level, order, 3);
    InTurnEitherWay(V, E, level, order, a, b);
    OnlyParent(V, E, level, order, a, 1, 4);
    OnlyParent(V, E, level, order, b, 2, 3);
    InTurnEitherWay(V, E, level, order, c, d);
    ParentFirst(V, E, level, order, b, c);
    assert a < b < c < d;
  }

  lemma CrossedEdges()
    ensures (1, 4) in CROSSED && forall u :: (u, 4) in CROSSED ==> u == 1
    ensures (2, 3) in CROSSED && forall u :: (u, 3) in CROSSED ==> u == 2
    ensures CROSSED_LEVELS.Keys == {1, 2, 3, 4}
    ensures CROSSED_LEVELS[1] == CROSSED_LEVELS[2] == 0 && CROSSED_LEVELS[3] == CROSSED_LEVELS[4] == 1
  {
  }

  lemma InTurnEitherWay(V: set<int>, E: Edges, level: map<int, nat>, order: seq<int>, a: nat, b: nat)
    requires IsListing(V, E, level, order) && a < |order| && b < |order|
    requires var p, q := LastPred(E, order, |order|, order[a]), LastPred(E, order, |order|, order[b]);
      p < q || (p == q && order[a] < order[b])
    ensures a < b
  {
    hide *;
    if b < a {
      InTurnAt(V, E, level, order, b, a);
      ComesFirstMeans(E, order, order[b], order[a]);
    }
  }

  lemma ComesFirstMeans(E: Edges, order: seq<int>, v: int, w: int)
    requires ComesFirst(E, order, v, w)
    ensures var p, q := LastPred(E, order, |order|, v), LastPred(E, order, |order|, w); p < q || (p == q && v < w)
  {
  }

  lemma OnlyParent(V: set<int>, E: Edges, level: map<int, nat>, order: seq<int>, a: nat, u: int, v: int)
    requires IsListing(V, E, level, order) && a < |order| && order[a] == u
    requires (u, v) in E && forall w :: (w, v) in E ==> w == u
    ensures LastPred(E, order, |order|, v) == a + 1
  {
    LastPredIs(E, order, |order|, v, a + 1);
  }

  lemma ParentFirst(V: set<int>, E: Edges, level: map<int, nat>, order: seq<int>, a: nat, b: nat)
    requires IsListing(V, E, level, order) && a < |order| && b < |order| && order[a] in level && order[b] in level
    requires level[order[a]] < level[order[b]]
    ensures a < b
  {
  }
}
