/** scripts/bench_fs_single_mk_probe.py: pairwise precision and recall from a contingency table. */
module FsSingleMkProbe {
  import opened Partitions
  import opened Clusterings
  import opened Rates

  /** The assignment loops; members outside 0 .. n-1 are ignored. */
  method AssignPredictions(clusters: Clusters, n: nat) returns (pred: array<Label>)
    ensures fresh(pred) && pred[..] == PredictedLabels(clusters, n)
  {
    pred := new Label[n](_ => Unassigned);
    for c := 0 to |clusters|
      invariant forall i :: 0 <= i < n ==> pred[i] == Predicted(clusters[..c], i)
    {
      var (cid, members) := clusters[c];
      for k := 0 to |members|
        invariant forall i :: 0 <= i < n ==>
          pred[i] == if i in members[..k] then Cluster(cid) else Predicted(clusters[..c], i)
      {
        var m := members[k];
        if 0 <= m < n {
          pred[m] := Cluster(cid);
        }
        assert members[..k + 1] == members[..k] + [m];
      }
      assert members[..|members|] == members;
      assert clusters[..c + 1][..c] == clusters[..c];
    }
    assert clusters[..|clusters|] == clusters;
  }

  function Bump<K(==)>(ct: map<K, nat>, k: K): map<K, nat> {
    ct[k := (if k in ct then ct[k] else 0) + 1]
  }

  lemma BumpTallies<K(!new)>(ct: map<K, nat>, s: seq<K>, i: nat)
    requires i < |s| && Tallies(ct, s[..i])
    ensures Tallies(Bump(ct, s[i]), s[..i + 1])
  {
    assert s[..i + 1] == s[..i] + [s[i]];
    forall l | l in s[..i + 1]
      ensures l in Bump(ct, s[i]) && Bump(ct, s[i])[l] == multiset(s[..i + 1])[l]
    {
      assert l in s[..i] || l == s[i];
    }
  }

  /** `sum(_c2(v) for v in counter.values())`. */
  method SumOfPairs<K(==)>(ct: map<K, nat>) returns (total: nat)
    ensures total == SumC2(ct)
  {
    var left := ct;
    total := 0;
    while left.Keys != {}
      invariant total + SumC2(left) == SumC2(ct)
      decreases |left|
    {
      var k :| k in left.Keys;
      SumC2Remove(left, k);
      total := total + C2(left[k]);
      left := left - {k};
    }
    assert left == map[];
  }

  function Zip<A, B>(s: seq<A>, t: seq<B>): (z: seq<(A, B)>)
    requires |s| == |t|
    ensures |z| == |s| && forall i :: 0 <= i < |z| ==> z[i] == (s[i], t[i])
  {
    seq(|s|, i requires 0 <= i < |s| => (s[i], t[i]))
  }

  /** A cell of the contingency table counts rows agreeing on both labels. */
  lemma ZipAgreement<A, B>(s: seq<A>, t: seq<B>)
    requires |s| == |t|
    ensures AgreeingPairs(Zip(s, t)) == AgreeingPairs(s) * AgreeingPairs(t)
  {
  }

  datatype Quality = Quality(tp: nat, predPairs: nat, truePairs: nat, precision: real, recall: real, f1: real)

  /** One pass over the rows fills the three counters. */
  method Tabulate<L(==, !new)>(truth: seq<L>, pred: seq<Label>)
    returns (pairCt: map<(L, Label), nat>, tCt: map<L, nat>, pCt: map<Label, nat>)
    requires |truth| == |pred|
    ensures Tallies(pairCt, Zip(truth, pred)) && Tallies(tCt, truth) && Tallies(pCt, pred)
  {
    var n := |truth|;
    ghost var cells := Zip(truth, pred);
    pairCt, tCt, pCt := map[], map[], map[];
    for i := 0 to n
      invariant Tallies(pairCt, cells[..i])
      invariant Tallies(tCt, truth[..i])
      invariant Tallies(pCt, pred[..i])
    {
      var t, p := truth[i], pred[i];
      BumpTallies(pairCt, cells, i);
      BumpTallies(tCt, truth, i);
      BumpTallies(pCt, pred, i);
      pairCt, tCt, pCt := Bump(pairCt, (t, p)), Bump(tCt, t), Bump(pCt, p);
    }
    assert cells[..n] == cells && truth[..n] == truth && pred[..n] == pred;
  }

  /** The whole block: the contingency counts equal what enumerating every pair of
      rows would find. */
  method PairwiseQuality<L(==, !new)>(truth: seq<L>, clusters: Clusters) returns (q: Quality)
    ensures var same, kept := AgreeingPairs(truth), AgreeingPairs(PredictedLabels(clusters, |truth|));
      q.tp == |same * kept| && q.predPairs == |kept| && q.truePairs == |same|
    ensures q.precision == Ratio(q.tp, q.predPairs) && q.recall == Ratio(q.tp, q.truePairs)
    ensures q.f1 == HarmonicMean(q.precision, q.recall)
  {
    var slots := AssignPredictions(clusters, |truth|);
    var pred := slots[..];
    var pairCt, tCt, pCt := Tabulate(truth, pred);
    TallyCountsPairs(pairCt, Zip(truth, pred));
    TallyCountsPairs(tCt, truth);
    TallyCountsPairs(pCt, pred);
    ZipAgreement(truth, pred);
    var tp := SumOfPairs(pairCt);
    var predPairs := SumOfPairs(pCt);
    var truePairs := SumOfPairs(tCt);
    var p, r := Ratio(tp, predPairs), Ratio(tp, truePairs);
    q := Quality(tp, predPairs, truePairs, p, r, HarmonicMean(p, r));
  }

  // ------------------------------------------------------------ properties

  lemma SubsetSize<T>(A: set<T>, B: set<T>)
    ensures |A * B| <= |A| && |A * B| <= |B|
    ensures |A * B| == |A| == |B| ==> A == B
  {
    assert A == A * B + (A - B) && B == A * B + (B - A);
  }

  /** Every figure is a proportion, and F1 reaches 1 exactly when the predicted
      labelling joins the same rows as the truth and joins at least two. */
  lemma QualityBounds<L>(truth: seq<L>, pred: seq<Label>, tp: nat, predPairs: nat, truePairs: nat)
    requires |truth| == |pred|
    requires tp == |AgreeingPairs(truth) * AgreeingPairs(pred)|
    requires predPairs == |AgreeingPairs(pred)| && truePairs == |AgreeingPairs(truth)|
    ensures tp <= predPairs && tp <= truePairs
    ensures var p, r := Ratio(tp, predPairs), Ratio(tp, truePairs);
      0.0 <= p <= 1.0 && 0.0 <= r <= 1.0 && 0.0 <= HarmonicMean(p, r) <= 1.0
    ensures HarmonicMean(Ratio(tp, predPairs), Ratio(tp, truePairs)) == 1.0
       <==> AgreeingPairs(truth) == AgreeingPairs(pred) != {}
  {
    var A, B := AgreeingPairs(truth), AgreeingPairs(pred);
    SubsetSize(A, B);
    if A == B { assert A * B == A; }
    RatioInUnit(tp, predPairs);
    RatioInUnit(tp, truePairs);
    F1OfCounts(tp, predPairs, truePairs);
    RatioInUnit(2 * tp, predPairs + truePairs);
  }

  /** Pairs of rows that some predicted cluster holds together. */
  ghost function ClusterPairs(clusters: Clusters, n: nat): (E: set<(int, int)>)
    ensures forall p :: p in E <==> 0 <= p.0 < p.1 < n && SameCluster(clusters, p.0, p.1)
  {
    set i, j | 0 <= i < j < n && SameCluster(clusters, i, j) :: (i, j)
  }

  /** Rows in no predicted cluster. */
  ghost function Strays(clusters: Clusters, n: nat): (S: set<int>)
    ensures forall i :: i in S <==> 0 <= i < n && !Covered(clusters, i)
  {
    set i | 0 <= i < n && !Covered(clusters, i)
  }

  lemma PredictedPairsSplit(clusters: Clusters, n: nat)
    requires WellFormed(clusters)
    ensures AgreeingPairs(PredictedLabels(clusters, n)) == ClusterPairs(clusters, n) + PairsOf(Strays(clusters, n))
    ensures ClusterPairs(clusters, n) !! PairsOf(Strays(clusters, n))
  {
    var pred := PredictedLabels(clusters, n);
    forall p ensures p in AgreeingPairs(pred) <==> p in ClusterPairs(clusters, n) || p in PairsOf(Strays(clusters, n)) {
      if 0 <= p.0 < p.1 < n { PredictedAgreement(clusters, p.0, p.1); }
    }
  }

  /** What the number of predicted pairs counts: the pairs inside clusters, and in addition
      every pair of rows no cluster covers, because those share the label `None`.  So it
      counts the clusters' pairs exactly when at most one row is left over. */
  lemma PredictedPairsCountStrays(clusters: Clusters, n: nat, predPairs: nat)
    requires WellFormed(clusters) && predPairs == |AgreeingPairs(PredictedLabels(clusters, n))|
    ensures predPairs == |ClusterPairs(clusters, n)| + C2(|Strays(clusters, n)|)
    ensures predPairs == |ClusterPairs(clusters, n)| <==> |Strays(clusters, n)| <= 1
  {
    PredictedPairsSplit(clusters, n);
    PairsOfSize(Strays(clusters, n));
    NoPairs(|Strays(clusters, n)|);
  }

  lemma {:induction false} NoPairs(k: nat)
    ensures C2(k) == 0 <==> k <= 1
  {
    if k > 1 {
      C2Step(k - 1);
    }
  }

  /** No two of the left-over rows are the same entity. */
  ghost predicate StraysDiffer<L>(truth: seq<L>, clusters: Clusters) {
    forall p :: p in PairsOf(Strays(clusters, |truth|)) ==> truth[p.0] != truth[p.1]
  }

  lemma DisjointUnionSize<T>(P: set<T>, A: set<T>, B: set<T>)
    requires A !! B
    ensures |P * (A + B)| == |P * A| + |P * B|
  {
    assert P * (A + B) == P * A + P * B;
  }

  /** What the true pairs found count: the true pairs inside clusters, and in addition the
      pairs of left-over rows of one entity, which no cluster has joined.  Recall is that of
      the clusters exactly when no two left-over rows are the same entity. */
  lemma FoundPairsCountStrays<L>(truth: seq<L>, clusters: Clusters)
    requires WellFormed(clusters)
    ensures var same, joined := AgreeingPairs(truth), ClusterPairs(clusters, |truth|);
      var tp := |same * AgreeingPairs(PredictedLabels(clusters, |truth|))|;
      && tp == |same * joined| + |same * PairsOf(Strays(clusters, |truth|))|
      && (tp == |same * joined| <==> StraysDiffer(truth, clusters))
  {
    var same, loose := AgreeingPairs(truth), PairsOf(Strays(clusters, |truth|));
    PredictedPairsSplit(clusters, |truth|);
    DisjointUnionSize(same, ClusterPairs(clusters, |truth|), loose);
    assert same * loose == {} <==> StraysDiffer(truth, clusters) by {
      if p :| p in loose && truth[p.0] == truth[p.1] {
        assert p in same * loose;
      }
    }
  }

  lemma OneTruePair(truth: seq<int>)
    requires truth == [0, 1, 1]
    ensures AgreeingPairs(truth) == PairsOf({1, 2}) == {(1, 2)}
  {
  }

  lemma LonelyFirstRow(clusters: Clusters)
    requires clusters == [(7, [0])]
    ensures WellFormed(clusters) && Strays(clusters, 3) == {1, 2} && ClusterPairs(clusters, 3) == {}
  {
    assert 0 in clusters[0].1;
  }

  /** Three rows, the first in a cluster of its own and the other two in none: one predicted
      pair, and a true one if those two are the same entity, without any pair in a cluster. */
  lemma TwoStraysAreAPair()
    ensures var clusters, truth := [(7, [0])], [0, 1, 1];
      && WellFormed(clusters) && Strays(clusters, 3) == {1, 2} && ClusterPairs(clusters, 3) == {}
      && |AgreeingPairs(PredictedLabels(clusters, 3))| == 1
      && |AgreeingPairs(truth) * AgreeingPairs(PredictedLabels(clusters, 3))| == 1
  {
    var clusters, truth := [(7, [0])], [0, 1, 1];
    LonelyFirstRow(clusters);
    PredictedPairsSplit(clusters, 3);
    OneTruePair(truth);
  }
}
