/** Labelled rows, the index pairs a labelling agrees on, and how many there are. */
module Partitions {

  /** The number of unordered pairs among `n` things. */
  function C2(n: nat): nat { n * (n - 1) / 2 }

  lemma C2Step(n: nat)
    ensures C2(n + 1) == C2(n) + n
  {
    assert (n + 1) * n == n * (n - 1) + 2 * n;
  }

  ghost predicate Ascending(s: seq<int>) {
    forall i, j :: 0 <= i < j < |s| ==> s[i] < s[j]
  }

  /** The rows labelled `l`, in increasing order. */
  function Rows<L(==)>(labels: seq<L>, l: L): (r: seq<int>)
    ensures forall i :: i in r <==> 0 <= i < |labels| && labels[i] == l
    ensures Ascending(r)
    ensures |r| == multiset(labels)[l]
  {
    if labels == [] then []
    else
      var n := |labels| - 1;
      assert labels == labels[..n] + [labels[n]];
      var r := Rows(labels[..n], l);
      assert Ascending(r + [n]) by {
        forall k | 0 <= k < |r| ensures r[k] < n { assert r[k] in r; }
      }
      if labels[n] == l then r + [n] else r
  }

  /** The index pairs i < j carrying equal labels: the brute-force O(n^2) reference. */
  ghost function AgreeingPairs<L>(labels: seq<L>): (E: set<(int, int)>)
    ensures forall p :: p in E <==> 0 <= p.0 < p.1 < |labels| && labels[p.0] == labels[p.1]
  {
    set i, j | 0 <= i < j < |labels| && labels[i] == labels[j] :: (i, j)
  }

  /** All pairs a < b of members. */
  function PairsOf(S: set<int>): (E: set<(int, int)>)
    ensures forall p :: p in E <==> p.0 in S && p.1 in S && p.0 < p.1
  {
    set a, b | a in S && b in S && a < b :: (a, b)
  }

  ghost predicate Between(S: set<int>, a: int, b: int) {
    exists c :: c in S && a < c < b
  }

  /** The pairs a < b of members with no member in between: a chain through the group. */
  ghost function ChainOf(S: set<int>): (E: set<(int, int)>)
    ensures forall p :: p in E <==> p in PairsOf(S) && !Between(S, p.0, p.1)
  {
    set p | p in PairsOf(S) && !Between(S, p.0, p.1)
  }

  ghost function Column(S: set<int>, x: int): (E: set<(int, int)>)
    ensures forall p :: p in E ==> p.0 in S && p.1 == x
    ensures forall a :: a in S ==> (a, x) in E
  {
    set a | a in S :: (a, x)
  }

  lemma Pick<T>(S: set<T>) returns (a: T)
    requires S != {}
    ensures a in S
  {
    a :| a in S;
  }

  lemma {:induction false} ColumnSize(S: set<int>, x: int)
    ensures |Column(S, x)| == |S|
  {
    if S == {} {
      assert Column(S, x) == {};
    } else {
      var a := Pick(S);
      ColumnSize(S - {a}, x);
      assert Column(S, x) == Column(S - {a}, x) + {(a, x)};
    }
  }

  lemma {:induction false} Greatest(S: set<int>) returns (m: int)
    requires S != {}
    ensures m in S && forall a :: a in S ==> a <= m
    decreases |S|
  {
    var a := Pick(S);
    m := a;
    if S != {a} {
      var k := Greatest(S - {a});
      assert S == S - {a} + {a};
      m := if k > a then k else a;
    }
  }

  lemma PairsThroughGreatest(S: set<int>, m: int)
    requires m in S && forall a :: a in S ==> a <= m
    ensures PairsOf(S) == PairsOf(S - {m}) + Column(S - {m}, m)
    ensures PairsOf(S - {m}) !! Column(S - {m}, m)
  {
  }

  lemma MorePairs(S: set<int>, m: int)
    requires m in S && forall a :: a in S ==> a <= m
    ensures |PairsOf(S)| == |PairsOf(S - {m})| + |S - {m}|
  {
    PairsThroughGreatest(S, m);
    ColumnSize(S - {m}, m);
  }

  /** A group of k rows has k(k-1)/2 pairs. */
  lemma {:induction false} PairsOfSize(S: set<int>)
    ensures |PairsOf(S)| == C2(|S|)
    decreases |S|
  {
    if S == {} {
      assert PairsOf(S) == {};
    } else {
      var m := Greatest(S);
      MorePairs(S, m);
      PairsOfSize(S - {m});
      C2Step(|S - {m}|);
    }
  }

  lemma ChainThroughGreatest(S: set<int>, m: int, k: int)
    requires m in S && k in S && k < m && forall a :: a in S - {m} ==> a <= k
    ensures forall p :: p in ChainOf(S) <==> p in ChainOf(S - {m}) || p == (k, m)
  {
    var T := S - {m};
    forall p ensures p in ChainOf(S) <==> p in ChainOf(T) || p == (k, m) {
      if p in PairsOf(T) {
        if Between(S, p.0, p.1) {
          var c :| c in S && p.0 < c < p.1;
          assert c in T;
        }
      } else if p in PairsOf(S) && p.0 != k {
        assert p.1 == m && p.0 < k < m;
      }
    }
  }

  /** A chain through k rows has k - 1 links. */
  lemma {:induction false} ChainOfSize(S: set<int>)
    requires S != {}
    ensures |ChainOf(S)| == |S| - 1
    decreases |S|
  {
    var m := Greatest(S);
    var T := S - {m};
    if T == {} {
      assert S == {m} && ChainOf(S) == {};
    } else {
      var k := Greatest(T);
      ChainOfSize(T);
      ChainThroughGreatest(S, m, k);
      assert ChainOf(S) == ChainOf(T) + {(k, m)};
    }
  }

  function Elements(s: seq<int>): set<int> { set x | x in s }

  lemma {:induction false} ElementsSize(s: seq<int>)
    requires Ascending(s)
    ensures |Elements(s)| == |s|
  {
    if s != [] {
      var n := |s| - 1;
      assert s == s[..n] + [s[n]];
      ElementsSize(s[..n]);
      assert Elements(s) == Elements(s[..n]) + {s[n]};
    }
  }

  lemma LaterMembersAreGreater(s: seq<int>, i: nat)
    requires Ascending(s) && i < |s|
    ensures forall y :: y in s[i + 1..] <==> y in s && s[i] < y
  {
    forall y | y in s && s[i] < y ensures y in s[i + 1..] {
      var k :| 0 <= k < |s| && s[k] == y;
      assert s[i + 1..][k - i - 1] == y;
    }
  }

  lemma AgreeingPairsStep<L>(labels: seq<L>, l: L)
    ensures |AgreeingPairs(labels + [l])| == |AgreeingPairs(labels)| + multiset(labels)[l]
  {
    var n, rows := |labels|, Rows(labels, l);
    ElementsSize(rows);
    ColumnSize(Elements(rows), n);
    assert AgreeingPairs(labels + [l]) == AgreeingPairs(labels) + Column(Elements(rows), n);
    assert AgreeingPairs(labels) !! Column(Elements(rows), n);
  }

  // -------------------------------------------------------------- counters

  /** `ct` tallies `labels`: one entry per label that occurs, holding how often. */
  ghost predicate Tallies<L(!new)>(ct: map<L, nat>, labels: seq<L>) {
    && (forall l :: l in ct <==> l in labels)
    && (forall l :: l in ct ==> ct[l] == multiset(labels)[l])
  }

  /** Sum of C(v, 2) over the values of a counter, in whatever order they come. */
  ghost function SumC2<L>(ct: map<L, nat>): nat {
    if ct == map[] then 0
    else
      var l :| l in ct;
      C2(ct[l]) + SumC2(ct - {l})
  }

  lemma {:induction false} SumC2Remove<L>(ct: map<L, nat>, l: L)
    requires l in ct
    ensures SumC2(ct) == C2(ct[l]) + SumC2(ct - {l})
    decreases |ct|
  {
    var k :| k in ct && SumC2(ct) == C2(ct[k]) + SumC2(ct - {k});
    if k != l {
      SumC2Remove(ct - {k}, l);
      SumC2Remove(ct - {l}, k);
      assert ct - {k} - {l} == ct - {l} - {k};
    }
  }

  lemma SumC2Increment<L>(ct: map<L, nat>, l: L)
    ensures SumC2(ct[l := (if l in ct then ct[l] else 0) + 1]) == SumC2(ct) + if l in ct then ct[l] else 0
  {
    var v: nat := if l in ct then ct[l] else 0;
    var ct' := ct[l := v + 1];
    SumC2Remove(ct', l);
    C2Step(v);
    if l in ct {
      SumC2Remove(ct, l);
      assert ct' - {l} == ct - {l};
    } else {
      assert ct' - {l} == ct;
    }
  }

  /** The counter before its last increment. */
  function Uncount<L(==)>(ct: map<L, nat>, l: L): map<L, nat>
    requires l in ct
  {
    if ct[l] > 1 then ct[l := ct[l] - 1] else ct - {l}
  }

  lemma UncountTallies<L(!new)>(ct: map<L, nat>, init: seq<L>, l: L)
    requires Tallies(ct, init + [l])
    ensures l in ct && Tallies(Uncount(ct, l), init)
  {
    assert l in init + [l];
    forall k ensures multiset(init + [l])[k] == multiset(init)[k] + if k == l then 1 else 0
      ensures k in init + [l] <==> k in init || k == l
    {
    }
    assert l in init <==> multiset(init)[l] > 0;
  }

  lemma UncountRecounts<L(!new)>(ct: map<L, nat>, init: seq<L>, l: L)
    requires Tallies(ct, init + [l]) && l in ct
    ensures var before := Uncount(ct, l); ct == before[l := (if l in before then before[l] else 0) + 1]
  {
    assert ct[l] == multiset(init)[l] + 1;
  }

  /** The O(n) count is exact: adding up C(count, 2) over a counter's cells gives the
      number of index pairs that carry equal labels. */
  lemma {:induction false} TallyCountsPairs<L(!new)>(ct: map<L, nat>, labels: seq<L>)
    requires Tallies(ct, labels)
    ensures SumC2(ct) == |AgreeingPairs(labels)|
    decreases |labels|
  {
    if labels == [] {
      assert ct == map[];
      assert AgreeingPairs(labels) == {};
    } else {
      var n := |labels| - 1;
      var init, l := labels[..n], labels[n];
      assert labels == init + [l];
      UncountTallies(ct, init, l);
      UncountRecounts(ct, init, l);
      TallyCountsPairs(Uncount(ct, l), init);
      SumC2Increment(Uncount(ct, l), l);
      AgreeingPairsStep(init, l);
    }
  }

  // --------------------------------------------------------------- buckets

  /** `g` groups the rows by label: an entry per label that occurs, rows in order. */
  ghost predicate Buckets<L(!new)>(g: map<L, seq<int>>, labels: seq<L>) {
    && (forall l :: l in g <==> l in labels)
    && (forall l :: l in g ==> g[l] == Rows(labels, l))
  }

  /** `g.setdefault(l, []).append(i)`. */
  function Append<L(==)>(g: map<L, seq<int>>, l: L, i: int): map<L, seq<int>> {
    g[l := (if l in g then g[l] else []) + [i]]
  }

  lemma RowsStep<L>(labels: seq<L>, i: nat, l: L)
    requires i < |labels|
    ensures Rows(labels[..i + 1], l) == if labels[i] == l then Rows(labels[..i], l) + [i] else Rows(labels[..i], l)
    ensures l in labels[..i + 1] <==> l in labels[..i] || l == labels[i]
    ensures l !in labels[..i] ==> Rows(labels[..i], l) == []
  {
    var before, after := labels[..i], labels[..i + 1];
    assert after[..i] == before && after == before + [labels[i]];
    if l !in before {
      assert multiset(before)[l] == 0;
    }
  }

  lemma AppendBuckets<L(!new)>(g: map<L, seq<int>>, labels: seq<L>, i: nat)
    requires i < |labels| && Buckets(g, labels[..i])
    ensures Buckets(Append(g, labels[i], i), labels[..i + 1])
  {
    forall l
      ensures l in Append(g, labels[i], i) <==> l in labels[..i + 1]
      ensures l in Append(g, labels[i], i) ==> Append(g, labels[i], i)[l] == Rows(labels[..i + 1], l)
    {
      RowsStep(labels, i, l);
    }
  }

  lemma {:induction false} AscendingIsDetermined(s: seq<int>, t: seq<int>)
    requires Ascending(s) && Ascending(t) && forall x :: x in s <==> x in t
    ensures s == t
  {
    if s != [] { assert s[0] in s; }
    if t != [] { assert t[0] in t; }
    if s != [] {
      var m, n := |s| - 1, |t| - 1;
      assert s[m] in t && t[n] in s;
      assert s[m] == t[n];
      assert s == s[..m] + [s[m]] && t == t[..n] + [t[n]];
      forall x ensures x in s[..m] <==> x in t[..n] {
        assert x in s[..m] <==> x in s && x != s[m];
        assert x in t[..n] <==> x in t && x != t[n];
      }
      AscendingIsDetermined(s[..m], t[..n]);
    }
  }
}
