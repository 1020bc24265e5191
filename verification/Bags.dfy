/** Taking one element out of a sequence, finding it in a permutation, listing a set.

    Two sequences are permutations of each other when they have the same multiset of
    elements.  Facts about permutations are proved by taking the last element of one
    sequence out of the other, wherever it occurs there.  The source iterates over sets
    in no particular order; a listing is any sequence with the elements of the set, and
    nothing proved from it depends on the order chosen. */
module Bags {

  function Without<T>(g: seq<T>, k: nat): seq<T> requires k < |g| { g[..k] + g[k + 1..] }

  lemma BagWithout<T>(h: seq<T>, k: nat)
    requires k < |h|
    ensures multiset(h) == multiset(Without(h, k)) + multiset{h[k]}
  {
    assert h == h[..k] + [h[k]] + h[k + 1..];
  }

  /** An occurrence in `h` of the element at `i` of a permutation `g`. */
  lemma FindSame<T>(g: seq<T>, i: nat, h: seq<T>) returns (k: nat)
    requires multiset(g) == multiset(h) && i < |g|
    ensures k < |h| && h[k] == g[i] && multiset(Without(g, i)) == multiset(Without(h, k))
  {
    assert g[i] in multiset(h);
    k :| 0 <= k < |h| && h[k] == g[i];
    BagWithout(g, i);
    BagWithout(h, k);
    assert multiset(Without(g, i)) == multiset(g) - multiset{g[i]};
  }

  lemma FindLast<T>(g: seq<T>, h: seq<T>) returns (k: nat)
    requires multiset(g) == multiset(h) && g != []
    ensures k < |h| && h[k] == g[|g| - 1] && multiset(g[..|g| - 1]) == multiset(Without(h, k))
  {
    k := FindSame(g, |g| - 1, h);
    assert Without(g, |g| - 1) == g[..|g| - 1];
  }

  /** `list(S)`, in some order. */
  method ToList<T(==)>(S: set<T>) returns (s: seq<T>)
    ensures forall x :: x in s <==> x in S
  {
    s := [];
    var left := S;
    while left != {}
      invariant left <= S && forall x :: x in s <==> x in S - left
    {
      var x :| x in left;
      s, left := s + [x], left - {x};
    }
  }

  ghost predicate Distinct<T(!new)>(s: seq<T>) {
    forall i, j :: 0 <= i < j < |s| ==> s[i] != s[j]
  }

  lemma {:induction false} DistinctCount<T(!new)>(s: seq<T>, x: T)
    requires Distinct(s)
    ensures multiset(s)[x] == if x in s then 1 else 0
  {
    if s != [] {
      var m := |s| - 1;
      assert s == s[..m] + [s[m]];
      DistinctCount(s[..m], x);
    }
  }

  lemma DistinctSameElements<T(!new)>(s: seq<T>, t: seq<T>)
    requires Distinct(s) && Distinct(t) && forall x :: x in s <==> x in t
    ensures multiset(s) == multiset(t)
  {
    forall x ensures multiset(s)[x] == multiset(t)[x] {
      DistinctCount(s, x);
      DistinctCount(t, x);
    }
  }

  /** A sequence has as many elements as places exactly when none is repeated. */
  lemma {:induction false} ElementCount<T(!new)>(s: seq<T>)
    ensures |set x | x in s| <= |s|
    ensures |set x | x in s| == |s| <==> Distinct(s)
  {
    if s == [] {
      assert (set x | x in s) == {};
    } else {
      var m := |s| - 1;
      var front, last := s[..m], s[m];
      ElementCount(front);
      assert s == front + [last];
      assert (set x | x in s) == (set x | x in front) + {last};
      if last in front {
        var k :| 0 <= k < m && front[k] == last;
        assert s[k] == s[m];
        assert (set x | x in s) == (set x | x in front);
      }
    }
  }
}
