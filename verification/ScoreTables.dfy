/** Scored pairs tabulated by score, and the metrics read off such a table. */
module ScoreTables {
  import opened Bags
  import opened Options
  import opened Rates

  // A row says that `nTotal` pairs, `nTrue` of them true, carry one score.  A single
  // scored pair is a row with `nTotal == 1`, so a list of pairs and its grouped form
  // are both tables, and the definitions below are the reference for both.  None of
  // them mentions sorting, tie groups or running totals.

  datatype Row = Row(score: real, nTrue: nat, nTotal: nat)

  type Table = seq<Row>

  ghost predicate Sound(g: Table) { forall k :: 0 <= k < |g| ==> g[k].nTrue <= g[k].nTotal }

  function Init(g: Table): Table requires g != [] { g[..|g| - 1] }

  function Last(g: Table): Row requires g != [] { g[|g| - 1] }

  function NTrue(g: Table): nat { if g == [] then 0 else NTrue(Init(g)) + Last(g).nTrue }

  function Total(g: Table): nat { if g == [] then 0 else Total(Init(g)) + Last(g).nTotal }

  /** True pairs scoring at least `t`. */
  function TrueAbove(g: Table, t: real): nat {
    if g == [] then 0 else TrueAbove(Init(g), t) + if Last(g).score >= t then Last(g).nTrue else 0
  }

  /** Pairs scoring at least `t`. */
  function Above(g: Table, t: real): nat {
    if g == [] then 0 else Above(Init(g), t) + if Last(g).score >= t then Last(g).nTotal else 0
  }

  /** Precision, recall and F1 = 2 TP / (2 TP + FP + FN) of accepting exactly the pairs
      with score >= t. */
  function PrecisionAt(g: Table, t: real): real { Ratio(TrueAbove(g, t), Above(g, t)) }

  function RecallAt(g: Table, t: real): real { Ratio(TrueAbove(g, t), NTrue(g)) }

  function F1At(g: Table, t: real): real { Ratio(2 * TrueAbove(g, t), Above(g, t) + NTrue(g)) }

  /** The precision at a row's score, once per true pair of the row. */
  function Weight(g: Table, r: Row): real { Times(r.nTrue, PrecisionAt(g, r.score)) }

  /** Over the true pairs of `part`, the sum of the precision `g` has at their scores. */
  function PrecisionSum(g: Table, part: Table): real {
    if part == [] then 0.0
    else PrecisionSum(g, Init(part)) + Weight(g, Last(part))
  }

  /** Average precision: the mean, over the true pairs, of the precision at their score. */
  function AveragePrecision(g: Table): real
    requires NTrue(g) > 0
  {
    PrecisionSum(g, g) / NTrue(g) as real
  }

  /** `f` is the highest F1 of any cut whatever, and `t` the highest cut reaching it. */
  ghost predicate IsBestCut(g: Table, f: real, t: real) {
    && F1At(g, t) == f
    && (forall u: real :: F1At(g, u) <= f)
    && (forall u: real :: u > t ==> F1At(g, u) < f)
  }

  datatype Metrics = Metrics(averagePrecision: Option<real>, bestF1: Option<real>, bestThreshold: Option<real>,
                             nPairs: nat, nTrue: nat, baseRate: Option<real>)

  /** What the metrics of a table are, including the two degenerate answers. */
  ghost predicate IsMetrics(g: Table, m: Metrics) {
    && m.nPairs == Total(g) && m.nTrue == NTrue(g)
    && (m.baseRate == if Total(g) == 0 then None else Some(Ratio(NTrue(g), Total(g))))
    && (NTrue(g) == 0 ==> m.averagePrecision == m.bestF1 == m.bestThreshold == None)
    && (NTrue(g) > 0 ==>
          && m.averagePrecision == Some(AveragePrecision(g))
          && m.bestF1.Some? && m.bestThreshold.Some?
          && IsBestCut(g, m.bestF1.value, m.bestThreshold.value))
  }

  lemma MetricsAreUnique(g: Table, m: Metrics, m': Metrics)
    requires IsMetrics(g, m) && IsMetrics(g, m')
    ensures m == m'
  {
    if NTrue(g) > 0 {
      var t, t' := m.bestThreshold.value, m'.bestThreshold.value;
      assert F1At(g, t) == m.bestF1.value && F1At(g, t') == m'.bestF1.value;
    }
  }

  // ---------------------------------------------------------------- counts

  lemma PrefixStep(g: Table, j: nat, ref: Table)
    requires 0 < j <= |g|
    ensures NTrue(g[..j]) == NTrue(g[..j - 1]) + g[j - 1].nTrue
    ensures Total(g[..j]) == Total(g[..j - 1]) + g[j - 1].nTotal
    ensures PrecisionSum(ref, g[..j]) == PrecisionSum(ref, g[..j - 1]) + Weight(ref, g[j - 1])
  {
    assert Init(g[..j]) == g[..j - 1] && Last(g[..j]) == g[j - 1];
  }

  lemma {:induction false} CountBounds(g: Table, t: real)
    requires Sound(g)
    ensures TrueAbove(g, t) <= NTrue(g) <= Total(g)
    ensures TrueAbove(g, t) <= Above(g, t) <= Total(g)
    ensures Above(g, t) - TrueAbove(g, t) <= Total(g) - NTrue(g)
  {
    if g != [] {
      CountBounds(Init(g), t);
    }
  }

  /** F1 of a cut is the harmonic mean of its precision and recall. */
  lemma F1IsHarmonicMean(g: Table, t: real)
    requires Sound(g)
    ensures HarmonicMean(PrecisionAt(g, t), RecallAt(g, t)) == F1At(g, t)
  {
    CountBounds(g, t);
    F1OfCounts(TrueAbove(g, t), Above(g, t), NTrue(g));
  }

  // ---------------------------------------------------------- permutations

  lemma {:induction false} TakeOut(g: Table, k: nat, t: real)
    requires k < |g|
    ensures NTrue(g) == NTrue(Without(g, k)) + g[k].nTrue
    ensures Total(g) == Total(Without(g, k)) + g[k].nTotal
    ensures TrueAbove(g, t) == TrueAbove(Without(g, k), t) + (if g[k].score >= t then g[k].nTrue else 0)
    ensures Above(g, t) == Above(Without(g, k), t) + (if g[k].score >= t then g[k].nTotal else 0)
    decreases |g|
  {
    if k == |g| - 1 {
      assert Without(g, k) == Init(g);
    } else {
      TakeOut(Init(g), k, t);
      assert Init(Without(g, k)) == Without(Init(g), k);
    }
  }

  lemma {:induction false} TakeOutPrecision(g: Table, k: nat, ref: Table)
    requires k < |g|
    ensures PrecisionSum(ref, g) == PrecisionSum(ref, Without(g, k)) + Weight(ref, g[k])
    decreases |g|
  {
    if k == |g| - 1 {
      assert Without(g, k) == Init(g);
    } else {
      TakeOutPrecision(Init(g), k, ref);
      var w := Without(g, k);
      assert Init(w) == Without(Init(g), k) && Last(w) == Last(g);
      assert PrecisionSum(ref, w) == PrecisionSum(ref, Init(w)) + Weight(ref, Last(w));
    }
  }

  lemma {:induction false} PermutedCounts(g: Table, h: Table, t: real)
    requires multiset(g) == multiset(h)
    ensures NTrue(g) == NTrue(h) && Total(g) == Total(h)
    ensures TrueAbove(g, t) == TrueAbove(h, t) && Above(g, t) == Above(h, t)
    decreases |g|
  {
    if g == [] {
      assert |multiset(h)| == 0;
    } else {
      var k := FindLast(g, h);
      PermutedCounts(Init(g), Without(h, k), t);
      TakeOut(h, k, t);
    }
  }

  lemma {:induction false} PermutedPrecision(g: Table, h: Table, ref: Table)
    requires multiset(g) == multiset(h)
    ensures PrecisionSum(ref, g) == PrecisionSum(ref, h)
    decreases |g|
  {
    if g == [] {
      assert |multiset(h)| == 0;
    } else {
      var k := FindLast(g, h);
      PermutedPrecision(Init(g), Without(h, k), ref);
      TakeOutPrecision(h, k, ref);
      assert PrecisionSum(ref, g) == PrecisionSum(ref, Init(g)) + Weight(ref, Last(g));
    }
  }

  /** Tables giving every cut the same counts give every part the same precision sum. */
  lemma {:induction false} SameCutsSamePrecision(g: Table, h: Table, part: Table)
    requires forall t :: TrueAbove(g, t) == TrueAbove(h, t) && Above(g, t) == Above(h, t)
    ensures PrecisionSum(g, part) == PrecisionSum(h, part)
  {
    if part != [] {
      SameCutsSamePrecision(g, h, Init(part));
      var t := Last(part).score;
      assert TrueAbove(g, t) == TrueAbove(h, t) && Above(g, t) == Above(h, t);
    }
  }

  /** What makes two tables indistinguishable to every metric. */
  ghost predicate Equivalent(g: Table, h: Table) {
    && NTrue(g) == NTrue(h) && Total(g) == Total(h)
    && (forall t :: TrueAbove(g, t) == TrueAbove(h, t) && Above(g, t) == Above(h, t))
    && (forall ref :: PrecisionSum(ref, g) == PrecisionSum(ref, h))
  }

  lemma EquivalentMetrics(g: Table, h: Table, m: Metrics)
    requires Equivalent(g, h) && IsMetrics(g, m)
    ensures IsMetrics(h, m)
  {
    SameCutsSamePrecision(g, h, g);
    forall u: real ensures F1At(g, u) == F1At(h, u) {
      assert TrueAbove(g, u) == TrueAbove(h, u) && Above(g, u) == Above(h, u);
    }
    assert PrecisionSum(h, g) == PrecisionSum(h, h);
  }

  lemma PermutedTables(g: Table, h: Table)
    requires multiset(g) == multiset(h)
    ensures Equivalent(g, h)
  {
    PermutedCounts(g, h, 0.0);
    forall t: real ensures TrueAbove(g, t) == TrueAbove(h, t) && Above(g, t) == Above(h, t) {
      PermutedCounts(g, h, t);
    }
    forall ref: Table ensures PrecisionSum(ref, g) == PrecisionSum(ref, h) {
      PermutedPrecision(g, h, ref);
    }
  }

  // ------------------------------------------------------------------ cuts

  /** Any cut either accepts nothing or is the same cut as one at a score of the table. */
  lemma {:induction false} CutAtScore(g: Table, u: real) returns (k: int)
    ensures k < 0 ==> forall j :: 0 <= j < |g| ==> g[j].score < u
    ensures k >= 0 ==> (k < |g| && g[k].score >= u &&
      forall j :: 0 <= j < |g| && g[j].score >= u ==> g[j].score >= g[k].score)
  {
    k := -1;
    if g != [] {
      k := CutAtScore(Init(g), u);
      if Last(g).score >= u && (k < 0 || Last(g).score < g[k].score) {
        k := |g| - 1;
      }
    }
  }

  lemma {:induction false} NothingAbove(g: Table, u: real)
    requires forall j :: 0 <= j < |g| ==> g[j].score < u
    ensures Above(g, u) == 0 && TrueAbove(g, u) == 0
  {
    if g != [] {
      assert Last(g) == g[|g| - 1];
      NothingAbove(Init(g), u);
    }
  }

  lemma {:induction false} SameCut(g: Table, t: real, u: real)
    requires forall j :: 0 <= j < |g| ==> (g[j].score >= t <==> g[j].score >= u)
    ensures Above(g, t) == Above(g, u) && TrueAbove(g, t) == TrueAbove(g, u)
  {
    if g != [] {
      assert Last(g) == g[|g| - 1];
      SameCut(Init(g), t, u);
    }
  }

  lemma {:induction false} EverythingAbove(g: Table, u: real)
    requires forall j :: 0 <= j < |g| ==> g[j].score >= u
    ensures Above(g, u) == Total(g) && TrueAbove(g, u) == NTrue(g)
  {
    if g != [] {
      assert Last(g) == g[|g| - 1];
      EverythingAbove(Init(g), u);
    }
  }

  /** To be best among the cuts at the table's own scores is to be best among all. */
  lemma BestAmongScores(g: Table, f: real, t: real)
    requires Sound(g) && f > 0.0
    requires F1At(g, t) == f
    requires forall j :: 0 <= j < |g| ==> F1At(g, g[j].score) <= f
    requires forall j :: 0 <= j < |g| && g[j].score > t ==> F1At(g, g[j].score) < f
    ensures IsBestCut(g, f, t)
  {
    forall u: real
      ensures F1At(g, u) <= f && (u > t ==> F1At(g, u) < f)
    {
      var k := CutAtScore(g, u);
      if k < 0 {
        NothingAbove(g, u);
      } else {
        SameCut(g, u, g[k].score);
      }
    }
  }
}
