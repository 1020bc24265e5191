/** A clustering as the engine returns it: a dictionary from cluster id to member rows. */
module Clusterings {

  datatype Label = Unassigned | Cluster(id: int)

  /** A predicted cluster: its id and its member rows, in dictionary order. */
  type Clusters = seq<(int, seq<int>)>

  /** The label left on row `i` once every cluster has written its members: the
      last cluster listing the row wins, and a row in no cluster stays Unassigned. */
  function Predicted(clusters: Clusters, i: int): Label {
    if clusters == [] then Unassigned
    else
      var (cid, members) := clusters[|clusters| - 1];
      if i in members then Cluster(cid) else Predicted(clusters[..|clusters| - 1], i)
  }

  function PredictedLabels(clusters: Clusters, n: nat): (s: seq<Label>)
    ensures |s| == n && forall i :: 0 <= i < n ==> s[i] == Predicted(clusters, i)
  {
    seq(n, i => Predicted(clusters, i))
  }

  ghost predicate SameCluster(clusters: Clusters, i: int, j: int) {
    exists c :: 0 <= c < |clusters| && i in clusters[c].1 && j in clusters[c].1
  }

  ghost predicate Covered(clusters: Clusters, i: int) {
    exists c :: 0 <= c < |clusters| && i in clusters[c].1
  }

  /** Dictionary keys are distinct and no row is listed by two clusters. */
  ghost predicate WellFormed(clusters: Clusters) {
    && (forall c, d :: 0 <= c < d < |clusters| ==> clusters[c].0 != clusters[d].0)
    && (forall c, d, i :: 0 <= c < d < |clusters| && i in clusters[c].1 ==> i !in clusters[d].1)
  }

  lemma PredictedIsHome(clusters: Clusters, c: int, i: int)
    requires WellFormed(clusters) && 0 <= c < |clusters| && i in clusters[c].1
    ensures Predicted(clusters, i) == Cluster(clusters[c].0)
  {
    PredictedIsLast(clusters, c, i);
  }

  /** A row is labelled with the last cluster that lists it. */
  lemma {:induction false} PredictedIsLast(clusters: Clusters, c: int, i: int)
    requires 0 <= c < |clusters| && i in clusters[c].1
    requires forall d :: c < d < |clusters| ==> i !in clusters[d].1
    ensures Predicted(clusters, i) == Cluster(clusters[c].0)
    decreases |clusters|
  {
    if c < |clusters| - 1 {
      PredictedIsLast(clusters[..|clusters| - 1], c, i);
    }
  }

  lemma {:induction false} PredictedUncovered(clusters: Clusters, i: int)
    requires !Covered(clusters, i)
    ensures Predicted(clusters, i) == Unassigned
  {
    if clusters != [] {
      var m := |clusters| - 1;
      forall c | 0 <= c < m ensures i !in clusters[..m][c].1 { assert clusters[..m][c] == clusters[c]; }
      assert i !in clusters[m].1;
      PredictedUncovered(clusters[..m], i);
    }
  }

  lemma {:induction false} CoveredIsPredicted(clusters: Clusters, i: int)
    ensures Predicted(clusters, i).Cluster? <==> Covered(clusters, i)
  {
    if !Covered(clusters, i) {
      PredictedUncovered(clusters, i);
    } else {
      var c :| 0 <= c < |clusters| && i in clusters[c].1;
      var m := |clusters| - 1;
      if i !in clusters[m].1 {
        assert i in clusters[..m][c].1;
        CoveredIsPredicted(clusters[..m], i);
      }
    }
  }

  /** What the predicted pairs really are: rows of one cluster, and in addition every
      two rows that no cluster covers, because those all keep the same label. */
  lemma PredictedAgreement(clusters: Clusters, i: int, j: int)
    requires WellFormed(clusters)
    ensures Predicted(clusters, i) == Predicted(clusters, j)
       <==> SameCluster(clusters, i, j) || (!Covered(clusters, i) && !Covered(clusters, j))
  {
    if Covered(clusters, i) {
      var c :| 0 <= c < |clusters| && i in clusters[c].1;
      PredictedIsHome(clusters, c, i);
      if Covered(clusters, j) {
        var d :| 0 <= d < |clusters| && j in clusters[d].1;
        PredictedIsHome(clusters, d, j);
      } else {
        PredictedUncovered(clusters, j);
      }
    } else {
      PredictedUncovered(clusters, i);
      if Covered(clusters, j) {
        var d :| 0 <= d < |clusters| && j in clusters[d].1;
        PredictedIsHome(clusters, d, j);
      } else {
        PredictedUncovered(clusters, j);
      }
    }
  }
}
