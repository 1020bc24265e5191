/** What the ranking metrics of scripts/_fs_quality_metrics.py guarantee. */
module FsQualityTheorems {
  import opened Options
  import opened Rates
  import opened ScoreTables
  import opened FsQualityMetrics

  // ------------------------------------------------------ grouping is exact

  /** Adding a row to a table grouped by score. */
  function Merge(t: Table, r: Row): Table {
    if t == [] then [r]
    else if Last(t).score == r.score then Init(t) + [Row(r.score, Last(t).nTrue + r.nTrue, Last(t).nTotal + r.nTotal)]
    else Merge(Init(t), r) + [Last(t)]
  }

  /** One row per distinct score: the engine's group-by. */
  function Collapse(g: Table): Table {
    if g == [] then [] else Merge(Collapse(Init(g)), Last(g))
  }

  /** Every row stands for at least one pair, and no two rows share a score. */
  ghost predicate Grouped(t: Table) {
    Sound(t) && DistinctScores(t) && forall k :: 0 <= k < |t| ==> t[k].nTotal > 0
  }

  lemma {:induction false} MergeShape(t: Table, r: Row)
    requires Grouped(t) && r.nTrue <= r.nTotal && r.nTotal > 0
    ensures Grouped(Merge(t, r))
    ensures forall k :: 0 <= k < |Merge(t, r)| ==>
      Merge(t, r)[k].score == r.score || exists j :: 0 <= j < |t| && Merge(t, r)[k].score == t[j].score
  {
    if t != [] && Last(t).score != r.score {
      MergeShape(Init(t), r);
      var front := Merge(Init(t), r);
      forall k | 0 <= k < |front|
        ensures front[k].score != Last(t).score
        ensures front[k].score == r.score || exists j :: 0 <= j < |t| && front[k].score == t[j].score
      {
        if front[k].score != r.score {
          var j :| 0 <= j < |Init(t)| && front[k].score == Init(t)[j].score;
          assert t[j].score == front[k].score;
        }
      }
    }
  }

  lemma AppendCounts(t: Table, r: Row, u: real)
    ensures NTrue(t + [r]) == NTrue(t) + r.nTrue && Total(t + [r]) == Total(t) + r.nTotal
    ensures TrueAbove(t + [r], u) == TrueAbove(t, u) + if r.score >= u then r.nTrue else 0
    ensures Above(t + [r], u) == Above(t, u) + if r.score >= u then r.nTotal else 0
  {
    assert Init(t + [r]) == t;
  }

  lemma {:induction false} MergeCounts(t: Table, r: Row, u: real)
    ensures NTrue(Merge(t, r)) == NTrue(t) + r.nTrue && Total(Merge(t, r)) == Total(t) + r.nTotal
    ensures TrueAbove(Merge(t, r), u) == TrueAbove(t, u) + if r.score >= u then r.nTrue else 0
    ensures Above(Merge(t, r), u) == Above(t, u) + if r.score >= u then r.nTotal else 0
  {
    if t == [] {
      AppendCounts([], r, u);
    } else if Last(t).score == r.score {
      AppendCounts(Init(t), Row(r.score, Last(t).nTrue + r.nTrue, Last(t).nTotal + r.nTotal), u);
    } else {
      MergeCounts(Init(t), r, u);
      AppendCounts(Merge(Init(t), r), Last(t), u);
    }
  }

  lemma AppendPrecision(t: Table, r: Row, ref: Table)
    ensures PrecisionSum(ref, t + [r]) == PrecisionSum(ref, t) + Weight(ref, r)
  {
    assert Init(t + [r]) == t;
  }

  lemma {:induction false} MergePrecision(t: Table, r: Row, ref: Table)
    ensures PrecisionSum(ref, Merge(t, r)) == PrecisionSum(ref, t) + Weight(ref, r)
  {
    if t == [] {
      AppendPrecision([], r, ref);
    } else if Last(t).score == r.score {
      AppendPrecision(Init(t), Row(r.score, Last(t).nTrue + r.nTrue, Last(t).nTotal + r.nTotal), ref);
      Distribute(Last(t).nTrue, r.nTrue, PrecisionAt(ref, r.score));
    } else {
      MergePrecision(Init(t), r, ref);
      AppendPrecision(Merge(Init(t), r), Last(t), ref);
    }
  }

  lemma {:induction false} CollapseCounts(g: Table, u: real, ref: Table)
    ensures NTrue(Collapse(g)) == NTrue(g) && Total(Collapse(g)) == Total(g)
    ensures TrueAbove(Collapse(g), u) == TrueAbove(g, u) && Above(Collapse(g), u) == Above(g, u)
    ensures PrecisionSum(ref, Collapse(g)) == PrecisionSum(ref, g)
  {
    if g != [] {
      CollapseCounts(Init(g), u, ref);
      MergeCounts(Collapse(Init(g)), Last(g), u);
      MergePrecision(Collapse(Init(g)), Last(g), ref);
    }
  }

  lemma {:induction false} CollapseShape(g: Table)
    requires Sound(g) && forall k :: 0 <= k < |g| ==> g[k].nTotal > 0
    ensures Grouped(Collapse(g))
  {
    if g != [] {
      assert Last(g) == g[|g| - 1];
      CollapseShape(Init(g));
      MergeShape(Collapse(Init(g)), Last(g));
    }
  }

  lemma CollapseIsEquivalent(g: Table)
    ensures Equivalent(g, Collapse(g))
  {
    CollapseCounts(g, 0.0, []);
    forall u: real ensures TrueAbove(g, u) == TrueAbove(Collapse(g), u) && Above(g, u) == Above(Collapse(g), u) {
      CollapseCounts(g, u, []);
    }
    forall ref: Table ensures PrecisionSum(ref, g) == PrecisionSum(ref, Collapse(g)) {
      CollapseCounts(g, 0.0, ref);
    }
  }

  lemma PermutedGroups(t: Table, h: Table)
    requires Grouped(t) && multiset(t) == multiset(h)
    ensures Grouped(h)
  {
    forall k | 0 <= k < |h| ensures h[k].nTrue <= h[k].nTotal && h[k].nTotal > 0 {
      assert h[k] in multiset(t);
    }
    assert |multiset(h)| == |h| && |multiset(t)| == |t|;
    forall i, j | 0 <= i < j < |h| ensures h[i].score != h[j].score {
      TwoPlaces(t, h, i, j);
    }
  }

  /** The grouped function, fed the distinct scores of any pair list in any order, is
      within its contract, never divides by zero, and answers what `ranking_metrics`
      answers on the pairs themselves. */
  lemma GroupingIsExact(scored: Scored, groups: Table, m: Metrics, r: Outcome)
    requires multiset(groups) == multiset(Collapse(AsTable(scored)))
    requires IsMetrics(AsTable(scored), m)
    requires r.DivisionByZero? <==> NTrue(groups) > 0 && TopIsEmpty(groups)
    requires r.Done? ==> IsMetrics(groups, r.metrics)
    ensures Sound(groups) && DistinctScores(groups)
    ensures r == Done(m)
  {
    var g := AsTable(scored);
    CollapseShape(g);
    PermutedGroups(Collapse(g), groups);
    CollapseIsEquivalent(g);
    PermutedTables(Collapse(g), groups);
    EquivalentMetrics(g, Collapse(g), m);
    EquivalentMetrics(Collapse(g), groups, m);
    MetricsAreUnique(groups, m, r.metrics);
  }

  /** The answer depends on the multiset of scored pairs only, not on their order,
      inside a tie or otherwise. */
  lemma OrderIsIrrelevant(s: Scored, s': Scored, m: Metrics, m': Metrics)
    requires multiset(s) == multiset(s')
    requires IsMetrics(AsTable(s), m) && IsMetrics(AsTable(s'), m')
    ensures m == m'
  {
    SamePairsSameTable(s, s');
    PermutedTables(AsTable(s), AsTable(s'));
    EquivalentMetrics(AsTable(s), AsTable(s'), m);
    MetricsAreUnique(AsTable(s'), m, m');
  }

  // --------------------------------------------------- bounds on precision

  /** Falses that come before the truths: sum over i = 1 .. t of i / (f + i). */
  function WorstSum(f: nat, t: nat): real { if t == 0 then 0.0 else WorstSum(f, t - 1) + Ratio(t, f + t) }

  ghost function NFalse(g: Table): nat
    requires Sound(g)
  {
    CountBounds(g, 0.0);
    Total(g) - NTrue(g)
  }

  lemma RatioMonotone(a: nat, b: nat, f: nat)
    requires a <= b
    ensures Ratio(a, f + a) <= Ratio(b, f + b)
    ensures a < b && f > 0 ==> Ratio(a, f + a) < Ratio(b, f + b)
  {
    if a > 0 {
      RatioTimes(a, f + a);
      RatioTimes(b, f + b);
      CompareQuotients(a as real, b as real, f as real, Ratio(a, f + a), Ratio(b, f + b));
    } else if b > 0 {
      RatioTimes(b, f + b);
    }
  }

  lemma CrossMultiply(x: real, y: real, p: real, q: real)
    ensures (y - x) * (p * q) == (y * q) * p - (x * p) * q
  {
    var d := p * q;
    assert y * d == (y * q) * p;
    assert x * d == (x * p) * q;
  }

  lemma CompareQuotients(a: real, b: real, f: real, x: real, y: real)
    requires 0.0 < a <= b && f >= 0.0 && x * (f + a) == a && y * (f + b) == b
    ensures x <= y
    ensures a < b && f > 0.0 ==> x < y
  {
    var u, d, e := y - x, (f + a) * (f + b), f * (b - a);
    var p, q := f + a, f + b;
    CrossMultiply(x, y, p, q);
    assert y * q == b && x * p == a;
    assert u * d == b * p - a * q;
    assert b * p - a * q == e;
    SignOf(u, d);
    assert e >= 0.0 && (a < b && f > 0.0 ==> e > 0.0);
  }

  /** A run of m more truths with at most f falses above it adds at least its share. */
  lemma {:induction false} WorstRun(f: nat, a: nat, m: nat, p: real)
    requires m > 0 ==> p >= Ratio(a + m, f + a + m)
    ensures WorstSum(f, a + m) <= WorstSum(f, a) + Times(m, p)
  {
    if m > 0 {
      RatioMonotone(a + m - 1, a + m, f);
      WorstRun(f, a, m - 1, p);
    }
  }

  /** The precision at a score with `a` truths accepted is at least a / (f + a). */
  lemma PrecisionFloor(g: Table, t: real, a: nat)
    requires Sound(g) && 0 < a <= TrueAbove(g, t)
    ensures PrecisionAt(g, t) >= Ratio(a, NFalse(g) + a)
  {
    var f, b := NFalse(g), TrueAbove(g, t);
    CountBounds(g, t);
    RatioMonotone(a, b, f);
    RatioAntitone(b, Above(g, t), f + b);
  }

  lemma {:induction false} WorstPrefix(g: Table, k: nat)
    requires Sound(g) && Descending(g) && k <= |g|
    ensures WorstSum(NFalse(g), NTrue(g[..k])) <= PrecisionSum(g, g[..k])
  {
    CountBounds(g, 0.0);
    if k > 0 {
      WorstPrefix(g, k - 1);
      PrefixStep(g, k, g);
      var r, a := g[k - 1], NTrue(g[..k - 1]);
      if r.nTrue > 0 {
        PrefixCounted(g, k, r.score);
        PrecisionFloor(g, r.score, a + r.nTrue);
      }
      WorstRun(NFalse(g), a, r.nTrue, PrecisionAt(g, r.score));
    }
  }

  lemma {:induction false} PrefixCounted(g: Table, k: nat, t: real)
    requires k <= |g| && forall j :: 0 <= j < k ==> g[j].score >= t
    ensures NTrue(g[..k]) <= TrueAbove(g, t)
  {
    if k == |g| {
      assert g[..k] == g;
      EverythingAbove(g, t);
    } else {
      assert Init(g)[..k] == g[..k];
      PrefixCounted(Init(g), k, t);
    }
  }

  lemma DivideBound(x: real, y: real, d: real)
    requires d > 0.0
    ensures x <= y ==> x / d <= y / d
    ensures x < y ==> x / d < y / d
    ensures x / d == y / d ==> x == y
  {
    var p, q := x / d, y / d;
    assert p * d == x && q * d == y;
    assert (q - p) * d == y - x;
    SignOf(q - p, d);
  }

  /** The sharp lower bound, ties included: average precision is at least the mean of
      i / (F + i) over i = 1 .. T, for T true and F false pairs. */
  lemma AveragePrecisionFloor(g: Table)
    requires Sound(g) && NTrue(g) > 0
    ensures AveragePrecision(g) >= WorstSum(NFalse(g), NTrue(g)) / NTrue(g) as real
  {
    WorstTotal(g);
    DivideBound(WorstSum(NFalse(g), NTrue(g)), PrecisionSum(g, g), NTrue(g) as real);
  }

  lemma WorstTotal(g: Table)
    requires Sound(g)
    ensures WorstSum(NFalse(g), NTrue(g)) <= PrecisionSum(g, g)
  {
    var rows := SortDescending(g, (row: Row) => row.score);
    SortKeepsSound(g, rows);
    PermutedTables(rows, g);
    WorstPrefix(rows, |rows|);
    assert rows[..|rows|] == rows;
    SameCutsSamePrecision(rows, g, rows);
    assert PrecisionSum(g, rows) == PrecisionSum(g, g);
  }

  lemma SortKeepsSound(g: Table, rows: Table)
    requires Sound(g) && multiset(rows) == multiset(g)
    ensures Sound(rows)
  {
    forall k | 0 <= k < |rows| ensures rows[k].nTrue <= rows[k].nTotal {
      assert rows[k] in multiset(g);
    }
  }

  /** The ranking that puts `f` false pairs first and then `t` true ones, no two tied. */
  function FalsesFirst(f: nat, t: nat): Scored {
    if t > 0 then FalsesFirst(f, t - 1) + [(-(t as real), true)]
    else if f > 0 then FalsesFirst(f - 1, 0) + [(1.0 / f as real, false)]
    else []
  }

  lemma {:induction false} FalsesFirstCounts(f: nat, t: nat, i: nat)
    requires 0 < i
    ensures var g := AsTable(FalsesFirst(f, t));
      && NTrue(g) == t && Total(g) == f + t
      && TrueAbove(g, -(i as real)) == (if i <= t then i else t)
      && Above(g, -(i as real)) == f + (if i <= t then i else t)
    decreases t, f
  {
    var s := FalsesFirst(f, t);
    if t > 0 {
      FalsesFirstCounts(f, t - 1, i);
      assert Init(AsTable(s)) == AsTable(FalsesFirst(f, t - 1));
    } else if f > 0 {
      FalsesFirstCounts(f - 1, 0, i);
      assert Init(AsTable(s)) == AsTable(FalsesFirst(f - 1, 0));
    }
  }

  lemma TruthWeight(f: nat, t: nat, i: nat)
    requires 0 < i <= t
    ensures Weight(AsTable(FalsesFirst(f, t)), Row(-(i as real), 1, 1)) == Ratio(i, f + i)
  {
    FalsesFirstCounts(f, t, i);
    var p := Ratio(i, f + i);
    assert Times(1, p) == Times(0, p) + p;
  }

  lemma {:induction false} FalsesFirstSum(f: nat, t: nat, i: nat)
    requires i <= t
    ensures PrecisionSum(AsTable(FalsesFirst(f, t)), AsTable(FalsesFirst(f, i))) == WorstSum(f, i)
    decreases i, f
  {
    var ref := AsTable(FalsesFirst(f, t));
    if i > 0 {
      FalsesFirstSum(f, t, i - 1);
      TruthWeight(f, t, i);
      AppendPrecision(AsTable(FalsesFirst(f, i - 1)), Row(-(i as real), 1, 1), ref);
      assert AsTable(FalsesFirst(f, i)) == AsTable(FalsesFirst(f, i - 1)) + [Row(-(i as real), 1, 1)];
    } else {
      OnlyFalses(ref, f);
    }
  }

  lemma {:induction false} OnlyFalses(ref: Table, f: nat)
    ensures PrecisionSum(ref, AsTable(FalsesFirst(f, 0))) == 0.0
  {
    if f > 0 {
      OnlyFalses(ref, f - 1);
      var s := FalsesFirst(f, 0);
      assert Init(AsTable(s)) == AsTable(FalsesFirst(f - 1, 0));
      assert Weight(ref, Last(AsTable(s))) == 0.0;
    }
  }

  /** The bound is attained, so it cannot be improved for any counts. */
  lemma FloorIsAttained(f: nat, t: nat)
    requires t > 0
    ensures var g := AsTable(FalsesFirst(f, t));
      && Sound(g) && NTrue(g) == t && NFalse(g) == f
      && AveragePrecision(g) == WorstSum(f, t) / t as real
  {
    FalsesFirstCounts(f, t, 1);
    FalsesFirstSum(f, t, t);
  }

  // ------------------------------------------------------ the base rate

  /** With two truths and a false the worst case falls short of the base rate. */
  lemma {:induction false} WorstBelowBase(f: nat, t: nat)
    ensures WorstSum(f, t) <= Times(t, Ratio(t, f + t))
    ensures t >= 2 && f > 0 ==> WorstSum(f, t) < Times(t, Ratio(t, f + t))
  {
    if t > 0 {
      WorstBelowBase(f, t - 1);
      RatioMonotone(t - 1, t, f);
      TimesMonotone(t - 1, Ratio(t - 1, f + t - 1), Ratio(t, f + t));
    }
  }

  lemma {:induction false} TimesMonotone(n: nat, x: real, y: real)
    requires x <= y
    ensures Times(n, x) <= Times(n, y)
    ensures n > 0 && x < y ==> Times(n, x) < Times(n, y)
  {
    if n > 0 {
      TimesMonotone(n - 1, x, y);
    }
  }

  lemma {:induction false} WorstAtBase(f: nat, t: nat)
    requires t == 1 || f == 0
    ensures WorstSum(f, t) == Times(t, Ratio(t, f + t))
  {
    if t == 1 {
      assert WorstSum(f, 1) == WorstSum(f, 0) + Ratio(1, f + 1);
      assert Times(1, Ratio(1, f + 1)) == Times(0, Ratio(1, f + 1)) + Ratio(1, f + 1);
    } else if t > 1 {
      WorstAtBase(0, t - 1);
      assert Ratio(t, t) == 1.0 && Ratio(t - 1, t - 1) == 1.0;
    }
  }

  /** The module's own documentation says average precision is bounded below by the
      positive rate.  It is not; for given counts every ranking meets that bound exactly
      when there is a single true pair or no false one. */
  lemma BaseRateBoundExactly(t: nat, f: nat)
    requires t > 0
    ensures (forall g: Table :: Sound(g) && NTrue(g) == t && NFalse(g) == f ==> AveragePrecision(g) >= Ratio(t, f + t))
       <==> t == 1 || f == 0
  {
    TimesIsProduct(t, Ratio(t, f + t));
    QuotientIs(Times(t, Ratio(t, f + t)), t as real, Ratio(t, f + t));
    WorstBelowBase(f, t);
    DivideBound(WorstSum(f, t), Times(t, Ratio(t, f + t)), t as real);
    FloorIsAttained(f, t);
    if t == 1 || f == 0 {
      WorstAtBase(f, t);
      forall g: Table | Sound(g) && NTrue(g) == t && NFalse(g) == f ensures AveragePrecision(g) >= Ratio(t, f + t) {
        AveragePrecisionFloor(g);
      }
    } else {
      var g := AsTable(FalsesFirst(f, t));
      assert AveragePrecision(g) < Ratio(t, f + t);
    }
  }

  /** A ranking below its base rate: false, false, true, true has 5/12 against 1/2. */
  lemma BelowBaseRate()
    ensures var g := AsTable(FalsesFirst(2, 2));
      && NTrue(g) == 2 && Total(g) == 4
      && AveragePrecision(g) == 5.0 / 12.0 < Ratio(NTrue(g), Total(g))
  {
    FloorIsAttained(2, 2);
    assert WorstSum(2, 1) == Ratio(1, 3) && WorstSum(2, 2) == Ratio(1, 3) + Ratio(2, 4);
  }

  lemma {:induction false} ConstantSum(g: Table, part: Table, c: real, p: real)
    requires forall k :: 0 <= k < |part| ==> part[k].score == c
    requires p == PrecisionAt(g, c)
    ensures PrecisionSum(g, part) == Times(NTrue(part), p)
  {
    if part != [] {
      assert Last(part) == part[|part| - 1];
      ConstantSum(g, Init(part), c, p);
      Distribute(NTrue(Init(part)), Last(part).nTrue, p);
    }
  }

  /** A constant classifier reaches the base rate exactly. */
  lemma ConstantScoreGivesBaseRate(g: Table, c: real)
    requires Sound(g) && NTrue(g) > 0 && forall k :: 0 <= k < |g| ==> g[k].score == c
    ensures AveragePrecision(g) == Ratio(NTrue(g), Total(g))
  {
    EverythingAbove(g, c);
    var p := Ratio(NTrue(g), Total(g));
    ConstantSum(g, g, c, p);
    TimesIsProduct(NTrue(g), p);
    var sum, n := PrecisionSum(g, g), NTrue(g) as real;
    assert p * n == sum;
    QuotientIs(sum, n, p);
  }

  // ------------------------------------------------- perfect separation

  /** Every false pair scores strictly below row `j`. */
  ghost predicate Clear(g: Table, j: nat)
    requires j < |g|
  {
    forall k :: 0 <= k < |g| && g[k].nTotal > g[k].nTrue ==> g[j].score > g[k].score
  }

  /** Every true pair scores strictly above every false pair. */
  ghost predicate Separated(g: Table) {
    forall j :: 0 <= j < |g| && g[j].nTrue > 0 ==> Clear(g, j)
  }

  lemma {:induction false} PureCut(g: Table, t: real)
    requires Sound(g)
    ensures TrueAbove(g, t) == Above(g, t) <==>
            forall k :: 0 <= k < |g| && g[k].score >= t ==> g[k].nTrue == g[k].nTotal
  {
    if g != [] {
      CountBounds(Init(g), t);
      PureCut(Init(g), t);
      assert Last(g) == g[|g| - 1];
      assert forall k :: 0 <= k < |Init(g)| ==> Init(g)[k] == g[k];
    }
  }

  lemma PrecisionAtMostOne(g: Table, j: nat)
    requires Sound(g) && j < |g| && g[j].nTrue > 0
    ensures PrecisionAt(g, g[j].score) <= 1.0
    ensures PrecisionAt(g, g[j].score) == 1.0 <==> Clear(g, j)
  {
    var t := g[j].score;
    CountBounds(g, t);
    RatioInUnit(TrueAbove(g, t), Above(g, t));
    TakeOut(g, j, t);
    PureCut(g, t);
  }

  /** Up to row `k` the precision sum stays below the number of truths, and reaches it
      exactly when every row with truths sees no false pair at or above its score. */
  lemma {:induction false} SumAtMostCount(g: Table, k: nat)
    requires Sound(g) && k <= |g|
    ensures PrecisionSum(g, g[..k]) <= Times(NTrue(g[..k]), 1.0)
    ensures PrecisionSum(g, g[..k]) == Times(NTrue(g[..k]), 1.0) <==>
            forall j :: 0 <= j < k && g[j].nTrue > 0 ==> Clear(g, j)
  {
    if k > 0 {
      SumAtMostCount(g, k - 1);
      PrefixStep(g, k, g);
      var r := g[k - 1];
      var p := PrecisionAt(g, r.score);
      Distribute(NTrue(g[..k - 1]), r.nTrue, 1.0);
      if r.nTrue > 0 {
        PrecisionAtMostOne(g, k - 1);
        TimesMonotone(r.nTrue, p, 1.0);
      }
    }
  }

  /** Average precision is at most 1, and is 1 exactly for a perfect separation. */
  lemma AveragePrecisionCeiling(g: Table)
    requires Sound(g) && NTrue(g) > 0
    ensures AveragePrecision(g) <= 1.0
    ensures AveragePrecision(g) == 1.0 <==> Separated(g)
  {
    SumAtMostCount(g, |g|);
    assert g[..|g|] == g;
    TimesIsProduct(NTrue(g), 1.0);
    QuotientIs(NTrue(g) as real, NTrue(g) as real, 1.0);
    DivideBound(PrecisionSum(g, g), NTrue(g) as real, NTrue(g) as real);
  }

  // ------------------------------------------------------------- best F1

  lemma {:induction false} LowestScore(g: Table) returns (u: real)
    ensures forall k :: 0 <= k < |g| ==> g[k].score >= u
  {
    u := 0.0;
    if g != [] {
      u := LowestScore(Init(g));
      u := if Last(g).score < u then Last(g).score else u;
      assert forall k :: 0 <= k < |g| - 1 ==> g[k] == Init(g)[k];
    }
  }

  lemma AcceptEverything(g: Table) returns (u: real)
    requires Sound(g) && NTrue(g) > 0
    ensures F1At(g, u) == Ratio(2 * NTrue(g), Total(g) + NTrue(g)) > 0.0
  {
    CountBounds(g, 0.0);
    u := LowestScore(g);
    EverythingAbove(g, u);
    RatioTimes(2 * NTrue(g), Total(g) + NTrue(g));
  }

  lemma BaseRateF1(T: nat, n: nat)
    requires 0 < T <= n
    ensures Ratio(T, n) > 0.0
    ensures Ratio(2 * T, n + T) == 2.0 * Ratio(T, n) / (1.0 + Ratio(T, n))
  {
    RatioTimes(T, n);
    RatioTimes(2 * T, n + T);
    F1OfBaseRate(T as real, n as real, Ratio(T, n), Ratio(2 * T, n + T));
  }

  /** Accepting everything already gives 2b / (1 + b) for base rate b. */
  lemma BestF1Floor(g: Table, m: Metrics)
    requires Sound(g) && NTrue(g) > 0 && IsMetrics(g, m)
    ensures m.baseRate.Some? && m.baseRate.value > 0.0
    ensures m.bestF1.value >= 2.0 * m.baseRate.value / (1.0 + m.baseRate.value)
  {
    CountBounds(g, 0.0);
    BaseRateF1(NTrue(g), Total(g));
    var u := AcceptEverything(g);
    assert F1At(g, u) <= m.bestF1.value;
  }

  lemma F1OfBaseRate(t: real, n: real, b: real, f: real)
    requires 0.0 < t <= n && b * n == t && f * (n + t) == 2.0 * t
    ensures b > 0.0 && f == 2.0 * b / (1.0 + b)
  {
    assert b > 0.0;
    assert f * (1.0 + b) * n == 2.0 * b * n by {
      assert f * (1.0 + b) * n == f * (n + b * n);
    }
    Cancel(f * (1.0 + b), 2.0 * b, n);
    QuotientIs(2.0 * b, 1.0 + b, f);
  }

  // ------------------------------------------------------------ rescaling

  function Rescale(g: Table, f: real -> real): (h: Table)
    ensures |h| == |g| && forall k :: 0 <= k < |g| ==> h[k] == Row(f(g[k].score), g[k].nTrue, g[k].nTotal)
  {
    seq(|g|, k requires 0 <= k < |g| => Row(f(g[k].score), g[k].nTrue, g[k].nTotal))
  }

  ghost predicate Increasing(f: real -> real) { forall x, y :: x < y ==> f(x) < f(y) }

  lemma {:induction false} RescaleCounts(g: Table, f: real -> real, t: real)
    requires Increasing(f)
    ensures NTrue(Rescale(g, f)) == NTrue(g) && Total(Rescale(g, f)) == Total(g)
    ensures TrueAbove(Rescale(g, f), f(t)) == TrueAbove(g, t) && Above(Rescale(g, f), f(t)) == Above(g, t)
  {
    if g != [] {
      RescaleCounts(Init(g), f, t);
      assert Init(Rescale(g, f)) == Rescale(Init(g), f);
      var x := Last(g).score;
      assert (f(x) >= f(t)) == (x >= t);
    }
  }

  lemma {:induction false} RescalePrecision(g: Table, f: real -> real, part: Table)
    requires Increasing(f)
    ensures PrecisionSum(Rescale(g, f), Rescale(part, f)) == PrecisionSum(g, part)
  {
    if part != [] {
      RescalePrecision(g, f, Init(part));
      assert Init(Rescale(part, f)) == Rescale(Init(part), f);
      RescaleCounts(g, f, Last(part).score);
    }
  }

  lemma RescaleF1(g: Table, f: real -> real, best: real, t: real, k: nat)
    requires Increasing(f) && IsBestCut(g, best, t) && k < |g|
    ensures F1At(Rescale(g, f), Rescale(g, f)[k].score) <= best
    ensures Rescale(g, f)[k].score > f(t) ==> F1At(Rescale(g, f), Rescale(g, f)[k].score) < best
  {
    var x := g[k].score;
    RescaleCounts(g, f, x);
    assert F1At(Rescale(g, f), f(x)) == F1At(g, x);
    assert f(x) > f(t) ==> x > t;
  }

  lemma RescaleBest(g: Table, f: real -> real, best: real, t: real)
    requires Sound(g) && NTrue(g) > 0 && Increasing(f) && IsBestCut(g, best, t)
    ensures IsBestCut(Rescale(g, f), best, f(t))
  {
    var h := Rescale(g, f);
    RescaleCounts(g, f, t);
    forall k | 0 <= k < |h|
      ensures F1At(h, h[k].score) <= best && (h[k].score > f(t) ==> F1At(h, h[k].score) < best)
    {
      RescaleF1(g, f, best, t, k);
    }
    var u := AcceptEverything(g);
    assert F1At(h, f(t)) == F1At(g, t);
    BestAmongScores(h, best, f(t));
  }

  /** Engines that calibrate differently but rank alike get the same figures: under a
      strictly increasing rescaling only the reported threshold moves, with the scores. */
  lemma OnlyTheRankingCounts(g: Table, f: real -> real, m: Metrics)
    requires Sound(g) && Increasing(f) && IsMetrics(g, m)
    ensures IsMetrics(Rescale(g, f),
                      if m.bestThreshold.None? then m else m.(bestThreshold := Some(f(m.bestThreshold.value))))
  {
    RescaleCounts(g, f, 0.0);
    RescalePrecision(g, f, g);
    if NTrue(g) > 0 {
      RescaleBest(g, f, m.bestF1.value, m.bestThreshold.value);
    }
  }
}
