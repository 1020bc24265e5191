/** Lexicographic order on strings and on lists of strings, and sorting by it.

    Characters compare by their code, a string before every proper extension of itself;
    lists compare at the first place where they differ.  Both orders are total and tell
    unequal values apart, so a sorted sequence is determined by its elements.  A set of
    strings has exactly one sorted listing, which is what the source means by sorting a
    set before it iterates. */
module Orders {
  import opened Sorting

  predicate StringLe(a: string, b: string) {
    a == "" || (b != "" && (a[0] < b[0] || (a[0] == b[0] && StringLe(a[1..], b[1..]))))
  }

  lemma {:induction false} StringLeTotal(a: string, b: string)
    ensures StringLe(a, b) || StringLe(b, a)
    ensures StringLe(a, b) && StringLe(b, a) ==> a == b
  {
    if a != "" && b != "" {
      StringLeTotal(a[1..], b[1..]);
      assert a == [a[0]] + a[1..] && b == [b[0]] + b[1..];
    }
  }

  /** The first `k` characters agree, and then `a` ends or has the smaller character. */
  ghost predicate SmallerAt(a: string, b: string, k: nat) {
    k <= |a| && k <= |b| && a[..k] == b[..k] && (k == |a| || (k < |b| && a[k] < b[k]))
  }

  /** Strings compare at the first place where they differ. */
  lemma {:induction false} StringLeMeaning(a: string, b: string)
    ensures StringLe(a, b) <==> exists k: nat :: SmallerAt(a, b, k)
  {
    if a == "" {
      assert SmallerAt(a, b, 0);
    } else if b != "" && a[0] == b[0] {
      StringLeMeaning(a[1..], b[1..]);
      if StringLe(a, b) {
        var k: nat :| SmallerAt(a[1..], b[1..], k);
        assert a[..k + 1] == [a[0]] + a[1..][..k] && b[..k + 1] == [b[0]] + b[1..][..k];
        assert SmallerAt(a, b, k + 1);
      }
      if k: nat :| SmallerAt(a, b, k) {
        if k > 0 {
          assert a[1..][..k - 1] == a[..k][1..] && b[1..][..k - 1] == b[..k][1..];
          assert SmallerAt(a[1..], b[1..], k - 1);
        }
      }
    } else {
      forall k: nat | k > 0 ensures !SmallerAt(a, b, k) {
        if k <= |a| && k <= |b| { assert a[..k][0] == a[0] && b[..k][0] == b[0]; }
      }
      if b != "" && a[0] < b[0] { assert SmallerAt(a, b, 0); }
    }
  }

  lemma {:induction false} StringLeTransitive(a: string, b: string, c: string)
    requires StringLe(a, b) && StringLe(b, c)
    ensures StringLe(a, c)
  {
    if a != "" && a[0] == b[0] == c[0] {
      StringLeTransitive(a[1..], b[1..], c[1..]);
    }
  }

  ghost predicate SortedStrings(s: seq<string>) {
    forall i, j :: 0 <= i < j < |s| ==> StringLe(s[i], s[j])
  }

  lemma {:induction false} Least(S: set<string>) returns (m: string)
    requires S != {}
    ensures m in S && forall x :: x in S ==> StringLe(m, x)
    decreases |S|
  {
    var x :| x in S;
    m := x;
    StringLeTotal(x, x);
    if S != {x} {
      assert S - {x} != {};
      var y := Least(S - {x});
      StringLeTotal(x, y);
      m := if StringLe(x, y) then x else y;
      forall z | z in S ensures StringLe(m, z) {
        if z != x && m == x {
          assert z in S - {x};
          StringLeTransitive(x, y, z);
        }
      }
    }
  }

  lemma LeastExists(S: set<string>)
    requires S != {}
    ensures exists m :: m in S && forall x :: x in S ==> StringLe(m, x)
  {
    var m := Least(S);
  }

  /** `sorted(S)` of a set of strings. */
  ghost function SortedSet(S: set<string>): (s: seq<string>)
    ensures forall x :: x in s <==> x in S
    ensures SortedStrings(s) && |s| == |S|
    decreases |S|
  {
    if S == {} then []
    else
      LeastExists(S);
      var m :| m in S && (forall x :: x in S ==> StringLe(m, x));
      [m] + SortedSet(S - {m})
  }

  lemma StringLeIsAnOrder(s: seq<string>)
    ensures Preorder(StringLe) && Determines(StringLe, s)
  {
    forall a, b ensures StringLe(a, b) || StringLe(b, a) { StringLeTotal(a, b); }
    forall a, b, c | StringLe(a, b) && StringLe(b, c) ensures StringLe(a, c) { StringLeTransitive(a, b, c); }
    forall a, b | StringLe(a, b) && StringLe(b, a) ensures a == b { StringLeTotal(a, b); }
  }

  /** Lists of strings compare at the first place where they differ. */
  predicate ListLe(a: seq<string>, b: seq<string>) {
    a == [] || (b != [] && (if a[0] == b[0] then ListLe(a[1..], b[1..]) else StringLe(a[0], b[0])))
  }

  lemma {:induction false} ListLeTotal(a: seq<string>, b: seq<string>)
    ensures ListLe(a, b) || ListLe(b, a)
    ensures ListLe(a, b) && ListLe(b, a) ==> a == b
  {
    if a != [] && b != [] {
      StringLeTotal(a[0], b[0]);
      ListLeTotal(a[1..], b[1..]);
      assert a == [a[0]] + a[1..] && b == [b[0]] + b[1..];
    }
  }

  lemma {:induction false} ListLeTransitive(a: seq<string>, b: seq<string>, c: seq<string>)
    requires ListLe(a, b) && ListLe(b, c)
    ensures ListLe(a, c)
  {
    if a != [] {
      if a[0] == b[0] == c[0] {
        ListLeTransitive(a[1..], b[1..], c[1..]);
      } else {
        StringLeTotal(a[0], b[0]);
        StringLeTotal(b[0], c[0]);
        StringLeTransitive(a[0], b[0], c[0]);
      }
    }
  }

  lemma ListLeIsAnOrder(s: seq<seq<string>>)
    ensures Preorder(ListLe) && Determines(ListLe, s)
  {
    forall a, b ensures ListLe(a, b) || ListLe(b, a) { ListLeTotal(a, b); }
    forall a, b, c | ListLe(a, b) && ListLe(b, c) ensures ListLe(a, c) { ListLeTransitive(a, b, c); }
    forall a, b | ListLe(a, b) && ListLe(b, a) ensures a == b { ListLeTotal(a, b); }
  }
}
