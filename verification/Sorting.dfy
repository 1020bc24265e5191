/** Sorting by a total preorder, and when the result is determined by the elements.

    The sort is stable: an element is inserted after everything that is not greater.
    It is a permutation of its input for every relation, and sorted for every total
    preorder.  When the order tells unequal elements apart, two sorted sequences with the
    same elements are the same sequence, so sorting forgets the order of its input; with
    ties it need not. */
module Sorting {

  ghost predicate Preorder<T(!new)>(le: (T, T) -> bool) {
    && (forall a, b :: le(a, b) || le(b, a))
    && (forall a, b, c :: le(a, b) && le(b, c) ==> le(a, c))
  }

  ghost predicate Sorted<T>(s: seq<T>, le: (T, T) -> bool) {
    forall i, j :: 0 <= i < j < |s| ==> le(s[i], s[j])
  }

  ghost predicate AllLe<T>(s: seq<T>, x: T, le: (T, T) -> bool) {
    forall i :: 0 <= i < |s| ==> le(s[i], x)
  }

  lemma SortedPush<T(!new)>(s: seq<T>, x: T, le: (T, T) -> bool)
    requires Sorted(s, le) && AllLe(s, x, le)
    ensures Sorted(s + [x], le)
  {
  }

  lemma SortedInit<T(!new)>(s: seq<T>, le: (T, T) -> bool)
    requires Sorted(s, le) && s != []
    ensures Sorted(s[..|s| - 1], le) && AllLe(s[..|s| - 1], s[|s| - 1], le)
  {
  }

  lemma AllLeBelow<T(!new)>(s: seq<T>, x: T, y: T, le: (T, T) -> bool)
    requires Preorder(le) && AllLe(s, x, le) && le(x, y)
    ensures AllLe(s, y, le)
  {
    forall i | 0 <= i < |s| ensures le(s[i], y) {
      assert le(s[i], x);
    }
  }

  /** Inserts after everything not greater: the step of a stable sort. */
  function Insert<T(!new)>(s: seq<T>, x: T, le: (T, T) -> bool): (r: seq<T>)
    ensures multiset(r) == multiset(s) + multiset{x}
  {
    if s == [] then [x]
    else
      var m := |s| - 1;
      assert s == s[..m] + [s[m]];
      if le(s[m], x) then s + [x] else Insert(s[..m], x, le) + [s[m]]
  }

  lemma {:induction false} InsertAllLe<T(!new)>(s: seq<T>, x: T, le: (T, T) -> bool, y: T)
    requires AllLe(s, y, le) && le(x, y)
    ensures AllLe(Insert(s, x, le), y, le)
  {
    if s != [] && !le(s[|s| - 1], x) {
      InsertAllLe(s[..|s| - 1], x, le, y);
    }
  }

  lemma {:induction false} InsertSorted<T(!new)>(s: seq<T>, x: T, le: (T, T) -> bool)
    requires Preorder(le) && Sorted(s, le)
    ensures Sorted(Insert(s, x, le), le)
  {
    if s != [] {
      var m := |s| - 1;
      var init, last := s[..m], s[m];
      SortedInit(s, le);
      assert s == init + [last];
      if le(last, x) {
        AllLeBelow(init, last, x, le);
        assert AllLe(s, x, le);
        SortedPush(s, x, le);
      } else {
        InsertSorted(init, x, le);
        InsertAllLe(init, x, le, last);
        SortedPush(Insert(init, x, le), last, le);
      }
    }
  }

  /** `sorted(s)` under the order `le`. */
  function Sort<T(!new)>(s: seq<T>, le: (T, T) -> bool): (r: seq<T>)
    ensures multiset(r) == multiset(s)
  {
    if s == [] then []
    else
      assert s == s[..|s| - 1] + [s[|s| - 1]];
      Insert(Sort(s[..|s| - 1], le), s[|s| - 1], le)
  }

  lemma SortKeepsMembers<T(!new)>(s: seq<T>, le: (T, T) -> bool, x: T)
    ensures x in Sort(s, le) <==> x in s
  {
    assert x in multiset(Sort(s, le)) <==> x in multiset(s);
  }

  lemma {:induction false} SortSorts<T(!new)>(s: seq<T>, le: (T, T) -> bool)
    requires Preorder(le)
    ensures Sorted(Sort(s, le), le)
  {
    if s != [] {
      SortSorts(s[..|s| - 1], le);
      InsertSorted(Sort(s[..|s| - 1], le), s[|s| - 1], le);
    }
  }

  /** Elements the order cannot tell apart are equal. */
  ghost predicate Determines<T>(le: (T, T) -> bool, s: seq<T>) {
    forall a, b :: a in s && b in s && le(a, b) && le(b, a) ==> a == b
  }

  lemma LastIsGreatest<T(!new)>(s: seq<T>, t: seq<T>, le: (T, T) -> bool)
    requires Preorder(le) && Sorted(s, le) && s != [] && t != [] && multiset(s) == multiset(t)
    ensures t[|t| - 1] in s && le(t[|t| - 1], s[|s| - 1])
  {
    var x, m := t[|t| - 1], |s| - 1;
    assert x in multiset(s);
    var j :| 0 <= j < |s| && s[j] == x;
    assert le(s[m], s[m]);
    if j < m { assert le(s[j], s[m]); }
  }

  lemma LastsAgree<T(!new)>(s: seq<T>, t: seq<T>, le: (T, T) -> bool)
    requires Preorder(le) && Sorted(s, le) && Sorted(t, le) && Determines(le, s)
    requires s != [] && t != [] && multiset(s) == multiset(t)
    ensures s[|s| - 1] == t[|t| - 1]
  {
    LastIsGreatest(s, t, le);
    LastIsGreatest(t, s, le);
  }

  lemma InitsAgree<T>(s: seq<T>, t: seq<T>)
    requires s != [] && t != [] && multiset(s) == multiset(t) && s[|s| - 1] == t[|t| - 1]
    ensures multiset(s[..|s| - 1]) == multiset(t[..|t| - 1])
    ensures s == s[..|s| - 1] + [s[|s| - 1]]
  {
    var x := s[|s| - 1];
    assert s == s[..|s| - 1] + [x] && t == t[..|t| - 1] + [x];
    assert multiset(s[..|s| - 1]) == multiset(s) - multiset{x};
    assert multiset(t[..|t| - 1]) == multiset(t) - multiset{x};
  }

  lemma {:induction false} SortedIsDetermined<T(!new)>(s: seq<T>, t: seq<T>, le: (T, T) -> bool)
    requires Preorder(le) && Sorted(s, le) && Sorted(t, le) && multiset(s) == multiset(t) && Determines(le, s)
    ensures s == t
    decreases |s|
  {
    assert |multiset(s)| == |s| && |multiset(t)| == |t|;
    if s != [] {
      LastsAgree(s, t, le);
      InitsAgree(s, t);
      InitsAgree(t, s);
      SortedInit(s, le);
      SortedInit(t, le);
      SortedIsDetermined(s[..|s| - 1], t[..|t| - 1], le);
    }
  }

  /** Sorting forgets the order of its input when the order tells elements apart. */
  lemma SortForgetsOrder<T(!new)>(s: seq<T>, t: seq<T>, le: (T, T) -> bool)
    requires Preorder(le) && multiset(s) == multiset(t) && Determines(le, s)
    ensures Sort(s, le) == Sort(t, le)
  {
    var r := Sort(s, le);
    forall a | a in r ensures a in s { assert a in multiset(r); }
    SortSorts(s, le);
    SortSorts(t, le);
    SortedIsDetermined(r, Sort(t, le), le);
  }
}
