/** scripts/_fs_quality_metrics.py: average precision and best F1, per pair or per row grouped by score. */
module FsQualityMetrics {
  import opened Bags
  import opened Options
  import opened Rates
  import opened ScoreTables
  import opened Sorting

  type Scored = seq<(real, bool)>

  /** Each scored pair as a table row of its own. */
  function AsTable(scored: Scored): (g: Table)
    ensures |g| == |scored|
    ensures forall k :: 0 <= k < |g| ==> g[k] == Row(scored[k].0, if scored[k].1 then 1 else 0, 1)
  {
    seq(|scored|, k requires 0 <= k < |scored| => Row(scored[k].0, if scored[k].1 then 1 else 0, 1))
  }

  // --------------------------------------------------------------- sorting

  ghost predicate Descending(g: Table) {
    forall i, j :: 0 <= i < j < |g| ==> g[i].score >= g[j].score
  }

  function Higher<T>(score: T -> real): (T, T) -> bool { (a, b) => score(a) >= score(b) }

  lemma HigherIsAnOrder<T(!new)>(score: T -> real)
    ensures Preorder(Higher(score))
  {
  }

  /** `sorted(s, key=lambda e: -score)`: stable, highest score first. */
  function SortDescending<T(!new)>(s: seq<T>, score: T -> real): (r: seq<T>)
    ensures multiset(r) == multiset(s) && |r| == |s|
    ensures forall i, j :: 0 <= i < j < |r| ==> score(r[i]) >= score(r[j])
  {
    HigherIsAnOrder(score);
    SortSorts(s, Higher(score));
    var r := Sort(s, Higher(score));
    assert |multiset(r)| == |r| && |multiset(s)| == |s|;
    r
  }

  lemma AsTableWithout(t: Scored, k: nat)
    requires k < |t|
    ensures multiset(AsTable(t)) == multiset(AsTable(Without(t, k))) + multiset{AsTable(t)[k]}
  {
    var r, front, back := AsTable(t)[k], AsTable(t[..k]), AsTable(t[k + 1..]);
    assert AsTable(t) == front + [r] + back;
    assert AsTable(Without(t, k)) == front + back;
  }

  lemma {:induction false} SamePairsSameTable(s: Scored, t: Scored)
    requires multiset(s) == multiset(t)
    ensures multiset(AsTable(s)) == multiset(AsTable(t))
    decreases |s|
  {
    if s == [] {
      assert |multiset(t)| == 0;
    } else {
      var k := FindLast(s, t);
      var n := |s| - 1;
      SamePairsSameTable(s[..n], Without(t, k));
      AsTableWithout(t, k);
      AsTableWithout(s, n);
      assert Without(s, n) == s[..n];
    }
  }

  // ------------------------------------------------------------- the walk

  /** `ap` is `sum` over `T`, and `prevRecall` is `tp` over `T`. */
  ghost predicate Averaged(ap: real, prevRecall: real, sum: real, tp: nat, T: nat) {
    Times(T, ap) == sum && prevRecall == Ratio(tp, T)
  }

  /** The running counts and averages of the walk. */
  datatype Sums = Sums(tp: nat, fp: nat, prevRecall: real, ap: real)

  /** The best cut of the walk so far. */
  datatype Best = Best(f1: real, threshold: Option<real>)

  /** What a tie group adds to the average precision. */
  function Gain(precision: real, recall: real, prevRecall: real): real { precision * (recall - prevRecall) }

  /** The statements that close a tie group, counts first, ... */
  function AddGroup(s: Sums, tp: nat, fp: nat, nTrue: nat): Sums {
    var precision, recall := Ratio(tp, tp + fp), Ratio(tp, nTrue);
    Sums(tp, fp, recall, s.ap + Gain(precision, recall, s.prevRecall))
  }

  /** ... then the comparison with the best F1. */
  function Offer(b: Best, f1: real, thr: real): Best {
    if f1 > b.f1 then Best(f1, Some(thr)) else b
  }

  function GroupF1(tp: nat, fp: nat, nTrue: nat): real {
    HarmonicMean(Ratio(tp, tp + fp), Ratio(tp, nTrue))
  }

  /** The counts and averages after the first `i` rows of a descending table. */
  ghost predicate SumsAfter(g: Table, nTrue: nat, i: nat, s: Sums)
    requires i <= |g|
  {
    && s.tp == NTrue(g[..i]) && s.tp + s.fp == Total(g[..i])
    && Averaged(s.ap, s.prevRecall, PrecisionSum(g, g[..i]), s.tp, nTrue)
  }

  /** The best cut among the first `i` rows. */
  ghost predicate BestAfter(g: Table, i: nat, b: Best)
    requires i <= |g|
  {
    && b.f1 >= 0.0
    && (forall k :: 0 <= k < i ==> F1At(g, g[k].score) <= b.f1)
    && (b.threshold.None? ==> b.f1 == 0.0)
    && (b.threshold.Some? ==>
          && b.f1 > 0.0 && i > 0 && g[i - 1].score <= b.threshold.value && F1At(g, b.threshold.value) == b.f1
          && forall k :: 0 <= k < i && g[k].score > b.threshold.value ==> F1At(g, g[k].score) < b.f1)
  }

  lemma {:induction false} CountsAtCut(g: Table, j: nat, t: real)
    requires j <= |g|
    requires forall k :: 0 <= k < j ==> g[k].score >= t
    requires forall k :: j <= k < |g| ==> g[k].score < t
    ensures TrueAbove(g, t) == NTrue(g[..j]) && Above(g, t) == Total(g[..j])
  {
    if j == |g| {
      assert g[..j] == g;
      EverythingAbove(g, t);
    } else {
      assert Last(g) == g[|g| - 1] && Init(g)[..j] == g[..j];
      CountsAtCut(Init(g), j, t);
    }
  }

  /** A tie group adds its true pairs times the precision at its score. */
  lemma {:induction false} TieGroupSum(g: Table, i: nat, j: nat, t: real)
    requires i <= j <= |g| && forall k :: i <= k < j ==> g[k].score == t
    ensures NTrue(g[..i]) <= NTrue(g[..j])
    ensures PrecisionSum(g, g[..j]) ==
            PrecisionSum(g, g[..i]) + Times(NTrue(g[..j]) - NTrue(g[..i]), PrecisionAt(g, t))
  {
    if i < j {
      TieGroupSum(g, i, j - 1, t);
      PrefixStep(g, j, g);
      Distribute(NTrue(g[..j - 1]) - NTrue(g[..i]), g[j - 1].nTrue, PrecisionAt(g, t));
    }
  }

  /** The increment `precision * (recall - prev_recall)` is the tie group's share. */
  lemma AveragedStep(ap: real, prev: real, sum: real, sum': real, tp: nat, tp': nat, T: nat, p: real)
    requires T > 0 && tp <= tp' && Averaged(ap, prev, sum, tp, T)
    requires sum' == sum + Times(tp' - tp, p)
    ensures Averaged(ap + Gain(p, Ratio(tp', T), prev), Ratio(tp', T), sum', tp', T)
  {
    ShareOfGroup(T, p, tp, tp', Ratio(tp', T), prev);
    TimesAdds(T, ap, Gain(p, Ratio(tp', T), prev));
  }

  lemma ShareOfGroup(T: nat, p: real, tp: nat, tp': nat, r: real, prev: real)
    requires T > 0 && tp <= tp' && r == Ratio(tp', T) && prev == Ratio(tp, T)
    ensures Times(T, Gain(p, r, prev)) == Times(tp' - tp, p)
  {
    RatioTimes(tp, T);
    RatioTimes(tp', T);
    Spread(T as real, p, r, prev, tp as real, tp' as real);
    TimesIsProduct(T, Gain(p, r, prev));
    TimesIsProduct(tp' - tp, p);
  }

  lemma Spread(t: real, p: real, r: real, prev: real, a: real, b: real)
    requires r * t == b && prev * t == a
    ensures t * (p * (r - prev)) == (b - a) * p
  {
    calc {
      t * (p * (r - prev));
      (r * t - prev * t) * p;
    }
  }

  lemma ApOfGroup(g: Table, nTrue: nat, i: nat, j: nat, ap: real, prev: real, tp: nat, tp': nat, p: real)
    requires i < j <= |g| && nTrue > 0
    requires forall k :: i <= k < j ==> g[k].score == g[i].score
    requires p == PrecisionAt(g, g[i].score)
    requires tp == NTrue(g[..i]) && tp' == NTrue(g[..j])
    requires Averaged(ap, prev, PrecisionSum(g, g[..i]), tp, nTrue)
    ensures Averaged(ap + Gain(p, Ratio(tp', nTrue), prev), Ratio(tp', nTrue), PrecisionSum(g, g[..j]), tp', nTrue)
  {
    TieGroupSum(g, i, j, g[i].score);
    AveragedStep(ap, prev, PrecisionSum(g, g[..i]), PrecisionSum(g, g[..j]), tp, tp', nTrue, p);
  }

  /** The rows i .. j-1 are one whole tie group, and `tp`, `fp` count everything up to it. */
  ghost predicate TieGroup(g: Table, i: nat, j: nat, tp: nat, fp: nat) {
    && i < j <= |g|
    && (forall k :: i <= k < j ==> g[k].score == g[i].score)
    && (j < |g| ==> g[j].score < g[i].score)
    && tp == NTrue(g[..j]) && tp + fp == Total(g[..j])
  }

  /** After a whole tie group the F1 computed is that of the cut at its score. */
  lemma GroupF1IsF1At(g: Table, nTrue: nat, i: nat, j: nat, tp: nat, fp: nat)
    requires Sound(g) && Descending(g) && TieGroup(g, i, j, tp, fp) && nTrue == NTrue(g)
    ensures GroupF1(tp, fp, nTrue) == F1At(g, g[i].score)
  {
    CountsAtCut(g, j, g[i].score);
    F1IsHarmonicMean(g, g[i].score);
  }

  lemma OfferKeepsBest(g: Table, i: nat, j: nat, b: Best, f1: real)
    requires Descending(g) && i < j <= |g| && BestAfter(g, i, b)
    requires forall k :: i <= k < j ==> g[k].score == g[i].score
    requires f1 == F1At(g, g[i].score)
    ensures BestAfter(g, j, Offer(b, f1, g[i].score))
  {
  }

  lemma AddGroupKeepsSums(g: Table, nTrue: nat, i: nat, j: nat, s: Sums, tp: nat, fp: nat)
    requires Descending(g) && nTrue > 0 && TieGroup(g, i, j, tp, fp) && SumsAfter(g, nTrue, i, s)
    ensures SumsAfter(g, nTrue, j, AddGroup(s, tp, fp, nTrue))
  {
    CountsAtCut(g, j, g[i].score);
    ApOfGroup(g, nTrue, i, j, s.ap, s.prevRecall, s.tp, tp, Ratio(tp, tp + fp));
  }

  lemma WalkStarts(g: Table, nTrue: nat)
    ensures SumsAfter(g, nTrue, 0, Sums(0, 0, 0.0, 0.0)) && BestAfter(g, 0, Best(0.0, None))
  {
    TimesIsProduct(nTrue, 0.0);
  }

  lemma AveragedIsQuotient(ap: real, prev: real, sum: real, tp: nat, T: nat)
    requires T > 0 && Averaged(ap, prev, sum, tp, T)
    ensures ap == sum / T as real
  {
    TimesIsProduct(T, ap);
  }

  lemma WalkEnds(g: Table, nTrue: nat, s: Sums, b: Best)
    requires Sound(g) && Descending(g) && nTrue == NTrue(g) > 0
    requires SumsAfter(g, nTrue, |g|, s) && BestAfter(g, |g|, b)
    ensures s.ap == AveragePrecision(g)
    ensures b.threshold.Some? && IsBestCut(g, b.f1, b.threshold.value)
  {
    assert g[..|g|] == g;
    AveragedIsQuotient(s.ap, s.prevRecall, PrecisionSum(g, g), s.tp, nTrue);
    LastCutIsPositive(g);
    BestAmongScores(g, b.f1, b.threshold.value);
  }

  /** The last cut accepts everything, so some cut has a positive F1. */
  lemma LastCutIsPositive(g: Table)
    requires Sound(g) && NTrue(g) > 0 && Descending(g)
    ensures g != [] && F1At(g, g[|g| - 1].score) > 0.0
  {
    var u := g[|g| - 1].score;
    EverythingAbove(g, u);
    RatioTimes(2 * NTrue(g), Total(g) + NTrue(g));
  }

  // ------------------------------------------------------ the two functions

  const NOTHING := Metrics(None, None, None, 0, 0, None)

  lemma DescendingTable(s: Scored)
    requires forall i, j :: 0 <= i < j < |s| ==> s[i].0 >= s[j].0
    ensures Descending(AsTable(s)) && Sound(AsTable(s)) && Total(AsTable(s)) == |s|
  {
    TotalIsLength(s);
  }

  lemma {:induction false} TotalIsLength(s: Scored)
    ensures Total(AsTable(s)) == |s|
  {
    if s != [] {
      assert Init(AsTable(s)) == AsTable(s[..|s| - 1]);
      TotalIsLength(s[..|s| - 1]);
    }
  }

  /** `sum(1 for _s, t in scored if t)`. */
  method CountTrue(scored: Scored) returns (n: nat)
    ensures n == NTrue(AsTable(scored))
  {
    var g := AsTable(scored);
    n := 0;
    for i := 0 to |scored|
      invariant n == NTrue(g[..i])
    {
      PrefixStep(g, i + 1, g);
      if scored[i].1 { n := n + 1; }
    }
    assert g[..|scored|] == g;
  }

  /** `tp` and `fp` count the first `j` rows. */
  ghost predicate Counted(g: Table, j: nat, tp: nat, fp: nat) {
    j <= |g| && tp == NTrue(g[..j]) && tp + fp == Total(g[..j])
  }

  lemma CountOne(sorted: Scored, j: nat, tp: nat, fp: nat)
    requires j < |sorted| && Counted(AsTable(sorted), j, tp, fp)
    ensures Counted(AsTable(sorted), j + 1, if sorted[j].1 then tp + 1 else tp, if sorted[j].1 then fp else fp + 1)
  {
    var g := AsTable(sorted);
    PrefixStep(g, j + 1, g);
  }

  /** The inner loop: takes every pair scored like pair `i`, counting true and false. */
  method TakeTies(sorted: Scored, i: nat, tp0: nat, fp0: nat) returns (j: nat, tp: nat, fp: nat)
    requires forall k, l :: 0 <= k < l < |sorted| ==> sorted[k].0 >= sorted[l].0
    requires i < |sorted| && Counted(AsTable(sorted), i, tp0, fp0)
    ensures TieGroup(AsTable(sorted), i, j, tp, fp)
  {
    ghost var g := AsTable(sorted);
    var thr := sorted[i].0;
    j, tp, fp := i, tp0, fp0;
    while j < |sorted| && sorted[j].0 == thr
      invariant i <= j <= |sorted| && (j == i ==> sorted[j].0 == thr)
      invariant forall k :: i <= k < j ==> g[k].score == thr
      invariant Counted(g, j, tp, fp)
    {
      CountOne(sorted, j, tp, fp);
      if sorted[j].1 { tp := tp + 1; } else { fp := fp + 1; }
      j := j + 1;
    }
  }

  /** The walk of `ranking_metrics` over the sorted pairs: tie groups of equal score
      are admitted whole. */
  method WalkPairs(sorted: Scored, nTrue: nat) returns (s: Sums, b: Best)
    requires forall i, j :: 0 <= i < j < |sorted| ==> sorted[i].0 >= sorted[j].0
    requires nTrue == NTrue(AsTable(sorted)) > 0
    ensures SumsAfter(AsTable(sorted), nTrue, |sorted|, s) && BestAfter(AsTable(sorted), |sorted|, b)
  {
    ghost var g := AsTable(sorted);
    DescendingTable(sorted);
    WalkStarts(g, nTrue);
    s, b := Sums(0, 0, 0.0, 0.0), Best(0.0, None);
    var i := 0;
    while i < |sorted|
      invariant i <= |sorted| && SumsAfter(g, nTrue, i, s) && BestAfter(g, i, b)
    {
      var j, tp, fp := TakeTies(sorted, i, s.tp, s.fp);
      GroupF1IsF1At(g, nTrue, i, j, tp, fp);
      AddGroupKeepsSums(g, nTrue, i, j, s, tp, fp);
      OfferKeepsBest(g, i, j, b, GroupF1(tp, fp, nTrue));
      s := AddGroup(s, tp, fp, nTrue);
      b := Offer(b, GroupF1(tp, fp, nTrue), sorted[i].0);
      i := j;
    }
  }

  /** `ranking_metrics`, degenerate answers included. */
  method RankingMetrics(scored: Scored) returns (m: Metrics)
    ensures IsMetrics(AsTable(scored), m)
  {
    if scored == [] {
      return NOTHING;
    }
    var n := |scored|;
    TotalIsLength(scored);
    var nTrue := CountTrue(scored);
    if nTrue == 0 {
      return Metrics(None, None, None, n, 0, Some(0.0));
    }
    var sorted := SortDescending(scored, (p: (real, bool)) => p.0);
    SamePairsSameTable(scored, sorted);
    PermutedTables(AsTable(sorted), AsTable(scored));
    var s, b := WalkPairs(sorted, nTrue);
    DescendingTable(sorted);
    WalkEnds(AsTable(sorted), nTrue, s, b);
    m := Metrics(Some(s.ap), Some(b.f1), b.threshold, n, nTrue, Some(Ratio(nTrue, n)));
    EquivalentMetrics(AsTable(sorted), AsTable(scored), m);
  }

  // ---------------------------------------------------------- grouped form

  ghost predicate DistinctScores(g: Table) {
    forall i, j :: 0 <= i < j < |g| ==> g[i].score != g[j].score
  }

  /** The highest-scored row stands for no pair at all. */
  ghost predicate TopIsEmpty(g: Table) {
    exists k :: 0 <= k < |g| && g[k].nTotal == 0 && forall j :: 0 <= j < |g| ==> g[j].score <= g[k].score
  }

  datatype Outcome = DivisionByZero | Done(metrics: Metrics)

  /** Sorting rows with distinct scores leaves each row its own tie group. */
  lemma SortedRows(groups: Table, rows: Table)
    requires Sound(groups) && DistinctScores(groups) && Descending(rows) && multiset(rows) == multiset(groups)
    ensures Sound(rows) && DistinctScores(rows) && Equivalent(rows, groups)
    ensures rows != [] ==> (TopIsEmpty(groups) <==> rows[0].nTotal == 0)
  {
    PermutedTables(rows, groups);
    forall r | r in rows ensures r.nTrue <= r.nTotal {
      assert r in multiset(groups);
    }
    forall r | r in groups ensures r in rows {
      assert r in multiset(rows);
    }
    assert |multiset(rows)| == |rows| && |multiset(groups)| == |groups|;
    forall i, j | 0 <= i < j < |rows| ensures rows[i].score != rows[j].score {
      TwoPlaces(groups, rows, i, j);
    }
    if rows != [] {
      assert rows[0] in multiset(groups);
      var top :| 0 <= top < |groups| && groups[top] == rows[0];
      forall j | 0 <= j < |groups| ensures groups[j].score <= rows[0].score {
        assert groups[j] in rows;
      }
    }
  }

  lemma TwoPlaces(groups: Table, rows: Table, i: nat, j: nat)
    requires DistinctScores(groups) && multiset(rows) == multiset(groups) && i < j < |rows|
    ensures rows[i].score != rows[j].score
  {
    var k := FindSame(rows, j, groups);
    var l := FindSame(Without(rows, j), i, Without(groups, k));
    var l' := if l < k then l else l + 1;
    assert groups[l'] == rows[i] && groups[k] == rows[j] && l' != k;
  }

  /** The walk of `ranking_metrics_grouped`: one row is one tie group. */
  method WalkRows(rows: Table, nTrue: nat) returns (ok: bool, s: Sums, b: Best)
    requires Sound(rows) && Descending(rows) && DistinctScores(rows) && nTrue == NTrue(rows) > 0
    ensures ok <==> rows[0].nTotal != 0
    ensures ok ==> SumsAfter(rows, nTrue, |rows|, s) && BestAfter(rows, |rows|, b)
  {
    WalkStarts(rows, nTrue);
    s, b := Sums(0, 0, 0.0, 0.0), Best(0.0, None);
    for i := 0 to |rows|
      invariant SumsAfter(rows, nTrue, i, s) && BestAfter(rows, i, b)
      invariant i > 0 ==> rows[0].nTotal != 0 && s.tp + s.fp > 0
    {
      PrefixStep(rows, i + 1, rows);
      var tp := s.tp + rows[i].nTrue;
      var fp := s.fp + rows[i].nTotal - rows[i].nTrue;
      if tp + fp == 0 {
        return false, s, b;
      }
      assert TieGroup(rows, i, i + 1, tp, fp);
      GroupF1IsF1At(rows, nTrue, i, i + 1, tp, fp);
      AddGroupKeepsSums(rows, nTrue, i, i + 1, s, tp, fp);
      OfferKeepsBest(rows, i, i + 1, b, GroupF1(tp, fp, nTrue));
      s := AddGroup(s, tp, fp, nTrue);
      b := Offer(b, GroupF1(tp, fp, nTrue), rows[i].score);
    }
    ok := true;
  }

  /** `ranking_metrics_grouped`: fails exactly when there are true pairs but the
      highest-scored row is empty; otherwise its answer is the table's metrics. */
  method RankingMetricsGrouped(groups: Table) returns (r: Outcome)
    requires Sound(groups) && DistinctScores(groups)
    ensures r.DivisionByZero? <==> NTrue(groups) > 0 && TopIsEmpty(groups)
    ensures r.Done? ==> IsMetrics(groups, r.metrics)
  {
    var n, nTrue := SumCounts(groups);
    CountBounds(groups, 0.0);
    if n == 0 {
      return Done(NOTHING);
    }
    if nTrue == 0 {
      return Done(Metrics(None, None, None, n, 0, Some(0.0)));
    }
    var rows := SortDescending(groups, (row: Row) => row.score);
    SortedRows(groups, rows);
    var ok, s, b := WalkRows(rows, nTrue);
    if !ok {
      return DivisionByZero;
    }
    WalkEnds(rows, nTrue, s, b);
    var m := Metrics(Some(s.ap), Some(b.f1), b.threshold, n, nTrue, Some(Ratio(nTrue, n)));
    EquivalentMetrics(rows, groups, m);
    r := Done(m);
  }

  /** The two sums at the head of the function. */
  method SumCounts(groups: Table) returns (n: nat, nTrue: nat)
    ensures n == Total(groups) && nTrue == NTrue(groups)
  {
    n, nTrue := 0, 0;
    for i := 0 to |groups|
      invariant n == Total(groups[..i]) && nTrue == NTrue(groups[..i])
    {
      PrefixStep(groups, i + 1, groups);
      n, nTrue := n + groups[i].nTotal, nTrue + groups[i].nTrue;
    }
    assert groups[..|groups|] == groups;
  }

  const EMPTY_TOP: Table := [Row(1.0, 0, 0), Row(0.0, 1, 1)]

  /** An admissible input that meets the condition of the division by zero: the top score
      without a pair, a true pair below it. */
  lemma EmptyTopDividesByZero()
    ensures Sound(EMPTY_TOP) && DistinctScores(EMPTY_TOP)
    ensures NTrue(EMPTY_TOP) > 0 && TopIsEmpty(EMPTY_TOP)
  {
    assert Init(EMPTY_TOP) == [Row(1.0, 0, 0)] && Last(EMPTY_TOP) == Row(0.0, 1, 1);
    assert EMPTY_TOP[0].nTotal == 0;
  }
}
