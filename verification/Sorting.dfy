/** A stable sort by any total preorder. */
module Sorting {
  ghost predicate IsPreorder<T(!new)>(notAfter: (T, T) -> bool) {
    && (forall a, b :: notAfter(a, b) || notAfter(b, a))
    && (forall a, b, c :: notAfter(a, b) && notAfter(b, c) ==> notAfter(a, c))
  }

  /** Puts an item behind the last one that may precede it. */
  function Insert<T>(notAfter: (T, T) -> bool, s: seq<T>, e: T): seq<T> {
    if s == [] || notAfter(s[|s| - 1], e) then s + [e]
    else Insert(notAfter, s[..|s| - 1], e) + [s[|s| - 1]]
  }

  function Sort<T>(notAfter: (T, T) -> bool, s: seq<T>): seq<T> {
    if s == [] then [] else Insert(notAfter, Sort(notAfter, s[..|s| - 1]), s[|s| - 1])
  }

  ghost predicate InOrder<T>(notAfter: (T, T) -> bool, s: seq<T>) {
    forall i, j :: 0 <= i < j < |s| ==> notAfter(s[i], s[j])
  }

  ghost predicate NoRepeats<T>(s: seq<T>) {
    forall i, j :: 0 <= i < j < |s| ==> s[i] != s[j]
  }

  lemma {:induction false} InsertKeepsItems<T>(notAfter: (T, T) -> bool, s: seq<T>, e: T)
    ensures forall x :: x in Insert(notAfter, s, e) <==> x in s || x == e
    ensures NoRepeats(s) && e !in s ==> NoRepeats(Insert(notAfter, s, e))
  {
    if s != [] && !notAfter(s[|s| - 1], e) {
      var init, last := s[..|s| - 1], s[|s| - 1];
      InsertKeepsItems(notAfter, init, e);
      assert s == init + [last];
      var r := Insert(notAfter, init, e);
      if NoRepeats(s) && e !in s {
        assert NoRepeats(init) && last !in init;
        assert forall i :: 0 <= i < |r| ==> r[i] in r;
      }
    } else if e !in s {
      assert forall i :: 0 <= i < |s| ==> s[i] in s;
    }
  }

  lemma {:induction false} InsertKeepsOrder<T(!new)>(notAfter: (T, T) -> bool, s: seq<T>, e: T)
    requires IsPreorder(notAfter) && InOrder(notAfter, s)
    ensures InOrder(notAfter, Insert(notAfter, s, e))
  {
    if s == [] || notAfter(s[|s| - 1], e) {
      AppendInOrder(notAfter, s, e);
    } else {
      var init, last := s[..|s| - 1], s[|s| - 1];
      InsertKeepsOrder(notAfter, init, e);
      InsertKeepsItems(notAfter, init, e);
      forall x | x in Insert(notAfter, init, e)
        ensures notAfter(x, last)
      {
        assert x == e || x in init;
      }
      AllBefore(notAfter, Insert(notAfter, init, e), last);
    }
  }

  lemma AppendInOrder<T(!new)>(notAfter: (T, T) -> bool, s: seq<T>, e: T)
    requires IsPreorder(notAfter) && InOrder(notAfter, s) && (s == [] || notAfter(s[|s| - 1], e))
    ensures InOrder(notAfter, s + [e])
  {
    forall x | x in s
      ensures notAfter(x, e)
    {
      var i :| 0 <= i < |s| && s[i] == x;
      assert i < |s| - 1 ==> notAfter(s[i], s[|s| - 1]);
    }
    AllBefore(notAfter, s, e);
  }

  lemma AllBefore<T(!new)>(notAfter: (T, T) -> bool, s: seq<T>, e: T)
    requires InOrder(notAfter, s) && forall x :: x in s ==> notAfter(x, e)
    ensures InOrder(notAfter, s + [e])
  {
  }

  /** The sorted list is in order, holds the same items, and repeats none that was not repeated. */
  lemma {:induction false} SortOrders<T(!new)>(notAfter: (T, T) -> bool, s: seq<T>)
    requires IsPreorder(notAfter)
    ensures InOrder(notAfter, Sort(notAfter, s))
    ensures forall x :: x in Sort(notAfter, s) <==> x in s
    ensures NoRepeats(s) ==> NoRepeats(Sort(notAfter, s))
  {
    if s != [] {
      var init, last := s[..|s| - 1], s[|s| - 1];
      assert s == init + [last];
      assert NoRepeats(s) ==> NoRepeats(init) && last !in init;
      SortOrders(notAfter, init);
      InsertKeepsOrder(notAfter, Sort(notAfter, init), last);
      InsertKeepsItems(notAfter, Sort(notAfter, init), last);
    }
  }

  /** Two listings of the same items in the same strict order are equal. */
  lemma {:induction false} OrderIsUnique<T(!new)>(notAfter: (T, T) -> bool, a: seq<T>, b: seq<T>)
    requires forall x, y :: notAfter(x, y) && notAfter(y, x) ==> x == y
    requires InOrder(notAfter, a) && InOrder(notAfter, b) && NoRepeats(a) && NoRepeats(b)
    requires forall x :: x in a <==> x in b
    ensures a == b
  {
    assert a != [] ==> a[0] in a;
    assert b != [] ==> b[0] in b;
    if a != [] && b != [] {
      var x, y := a[|a| - 1], b[|b| - 1];
      LastIsGreatest(notAfter, a, y);
      LastIsGreatest(notAfter, b, x);
      assert x == y;
      WithoutLast(a);
      WithoutLast(b);
      var c, d := a[..|a| - 1], b[..|b| - 1];
      forall z | z in c
        ensures z in d
      {
        assert z in a;
      }
      forall z | z in d
        ensures z in c
      {
        assert z in b;
      }
      OrderIsUnique(notAfter, c, d);
      assert a == c + [x] && b == d + [y];
    }
  }

  lemma WithoutLast<T>(s: seq<T>)
    requires s != [] && NoRepeats(s)
    ensures NoRepeats(s[..|s| - 1])
    ensures forall x :: x in s[..|s| - 1] <==> x in s && x != s[|s| - 1]
  {
    assert s == s[..|s| - 1] + [s[|s| - 1]];
  }

  lemma LastIsGreatest<T>(notAfter: (T, T) -> bool, s: seq<T>, x: T)
    requires InOrder(notAfter, s) && x in s
    ensures notAfter(x, s[|s| - 1]) || x == s[|s| - 1]
  {
    var i :| 0 <= i < |s| && s[i] == x;
    assert i < |s| - 1 ==> notAfter(s[i], s[|s| - 1]);
  }

  // ---------- Stability ----------

  /** The items of a class, in the order in which they stand. */
  function Matching<T>(s: seq<T>, isIn: T -> bool): seq<T> {
    if s == [] then [] else Matching(s[..|s| - 1], isIn) + if isIn(s[|s| - 1]) then [s[|s| - 1]] else []
  }

  lemma {:induction false} InsertIsStable<T(!new)>(notAfter: (T, T) -> bool, s: seq<T>, e: T, isIn: T -> bool)
    requires forall a, b :: isIn(a) && isIn(b) ==> notAfter(a, b)
    ensures Matching(Insert(notAfter, s, e), isIn) == Matching(s, isIn) + if isIn(e) then [e] else []
  {
    if s == [] || notAfter(s[|s| - 1], e) {
      assert (s + [e])[..|s|] == s;
    } else {
      var init, last := s[..|s| - 1], s[|s| - 1];
      var r := Insert(notAfter, init, e);
      InsertIsStable(notAfter, init, e, isIn);
      assert (r + [last])[..|r|] == r;
    }
  }

  /** Items that may stand in either order keep the order they had. */
  lemma {:induction false} SortIsStable<T(!new)>(notAfter: (T, T) -> bool, s: seq<T>, isIn: T -> bool)
    requires forall a, b :: isIn(a) && isIn(b) ==> notAfter(a, b)
    ensures Matching(Sort(notAfter, s), isIn) == Matching(s, isIn)
  {
    if s != [] {
      SortIsStable(notAfter, s[..|s| - 1], isIn);
      InsertIsStable(notAfter, Sort(notAfter, s[..|s| - 1]), s[|s| - 1], isIn);
    }
  }
}
