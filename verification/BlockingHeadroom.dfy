/** scripts/blocking_headroom.py: candidate pairs, recall and ceiling of a blocking key. */
module BlockingHeadroom {
  import opened Options
  import opened Partitions
  import opened Rates

  // -------------------------------------------------------------- candidates

  /** Pairs of rows whose keys are present and equal. */
  ghost function Candidates<K>(keys: seq<Option<K>>): set<(int, int)> {
    set p | p in AgreeingPairs(keys) && keys[p.0].Some?
  }

  /** The rows of every key that occurs; rows without a key are in no bucket. */
  ghost predicate KeyBuckets<K(!new)>(buckets: map<K, seq<int>>, keys: seq<Option<K>>) {
    && (forall k :: k in buckets <==> Some(k) in keys)
    && (forall k :: k in buckets ==> buckets[k] == Rows(keys, Some(k)))
  }

  lemma KeyBucketsStep<K(!new)>(buckets: map<K, seq<int>>, keys: seq<Option<K>>, i: nat)
    requires i < |keys| && KeyBuckets(buckets, keys[..i])
    ensures KeyBuckets(if keys[i].Some? then Append(buckets, keys[i].value, i) else buckets, keys[..i + 1])
  {
    var after := if keys[i].Some? then Append(buckets, keys[i].value, i) else buckets;
    forall k
      ensures k in after <==> Some(k) in keys[..i + 1]
      ensures k in after ==> after[k] == Rows(keys[..i + 1], Some(k))
    {
      RowsStep(keys, i, Some(k));
    }
  }

  /** The bucket loop of `measure_keys`. */
  method BuildBuckets<K(==, !new)>(keys: seq<Option<K>>) returns (buckets: map<K, seq<int>>)
    ensures KeyBuckets(buckets, keys)
  {
    buckets := map[];
    for i := 0 to |keys|
      invariant KeyBuckets(buckets, keys[..i])
    {
      KeyBucketsStep(buckets, keys, i);
      if keys[i].Some? {
        buckets := Append(buckets, keys[i].value, i);
      }
    }
    assert keys[..|keys|] == keys;
  }

  /** The size of each bucket. */
  ghost function BucketSizes<K>(buckets: map<K, seq<int>>): map<K, nat> {
    map k | k in buckets :: |buckets[k]|
  }

  lemma BucketPairs<K(!new)>(buckets: map<K, seq<int>>, keys: seq<Option<K>>, k: K)
    requires KeyBuckets(buckets, keys) && k in buckets
    ensures forall p :: p in PairsOf(Elements(buckets[k])) <==> p in Candidates(keys) && keys[p.0] == Some(k)
    ensures |PairsOf(Elements(buckets[k]))| == C2(|buckets[k]|)
  {
    ElementsSize(buckets[k]);
    PairsOfSize(Elements(buckets[k]));
  }

  /** The loop state: `out` has the candidates of the buckets no longer in `left`, ... */
  ghost predicate Gathered<K(!new)>(out: set<(int, int)>, left: set<K>, keys: seq<Option<K>>) {
    forall p :: p in out <==> p in Candidates(keys) && keys[p.0].value !in left
  }

  /** ... and as many of them as those buckets have pairs. */
  ghost predicate Counted<K>(out: set<(int, int)>, buckets: map<K, seq<int>>, left: map<K, seq<int>>) {
    |out| + SumC2(BucketSizes(left)) == SumC2(BucketSizes(buckets))
  }

  lemma GatherStep<K(!new)>(out: set<(int, int)>, buckets: map<K, seq<int>>, left: set<K>, keys: seq<Option<K>>, k: K)
    requires KeyBuckets(buckets, keys) && k in left && left <= buckets.Keys && Gathered(out, left, keys)
    ensures var more := PairsOf(Elements(buckets[k]));
      && Gathered(out + more, left - {k}, keys) && |out + more| == |out| + C2(|buckets[k]|)
      && (|buckets[k]| < 2 ==> out + more == out)
  {
    var more := PairsOf(Elements(buckets[k]));
    BucketPairs(buckets, keys, k);
    assert out !! more;
    assert C2(0) == 0 && C2(1) == 0;
  }

  lemma CountStep<K>(out: set<(int, int)>, out': set<(int, int)>, buckets: map<K, seq<int>>,
                     left: map<K, seq<int>>, k: K)
    requires k in left && Counted(out, buckets, left) && |out'| == |out| + C2(|left[k]|)
    ensures Counted(out', buckets, left - {k})
  {
    SumC2Remove(BucketSizes(left), k);
    assert BucketSizes(left) - {k} == BucketSizes(left - {k});
  }

  lemma GatherStart<K(!new)>(buckets: map<K, seq<int>>, keys: seq<Option<K>>)
    requires KeyBuckets(buckets, keys)
    ensures Gathered({}, buckets.Keys, keys)
  {
    forall p | p in Candidates(keys) ensures keys[p.0].value in buckets {
      assert keys[p.0] == Some(keys[p.0].value);
    }
  }

  /** The loop state as a whole. */
  ghost predicate Gathering<K(!new)>(out: set<(int, int)>, buckets: map<K, seq<int>>, left: map<K, seq<int>>,
                                    keys: seq<Option<K>>) {
    && left.Keys <= buckets.Keys && (forall k :: k in left ==> left[k] == buckets[k])
    && Gathered(out, left.Keys, keys) && Counted(out, buckets, left)
  }

  /** Taking the pairs of one bucket, or skipping a bucket that has none. */
  lemma GatherBucket<K(!new)>(out: set<(int, int)>, buckets: map<K, seq<int>>, left: map<K, seq<int>>,
                             keys: seq<Option<K>>, k: K)
    requires KeyBuckets(buckets, keys) && Gathering(out, buckets, left, keys) && k in left
    ensures Gathering(if |left[k]| >= 2 then out + PairsOf(Elements(left[k])) else out, buckets, left - {k}, keys)
  {
    var out' := if |left[k]| >= 2 then out + PairsOf(Elements(left[k])) else out;
    GatherStep(out, buckets, left.Keys, keys, k);
    CountStep(out, out', buckets, left, k);
    assert (left - {k}).Keys == left.Keys - {k};
  }

  lemma GatherEnd<K(!new)>(out: set<(int, int)>, buckets: map<K, seq<int>>, left: map<K, seq<int>>,
                          keys: seq<Option<K>>)
    requires Gathering(out, buckets, left, keys) && left.Keys == {}
    ensures out == Candidates(keys) && |out| == SumC2(BucketSizes(buckets))
  {
    assert BucketSizes(left) == map[];
  }

  /** `_pairs_from_groups` over the buckets: exactly the candidate pairs, as many as
      the buckets have pairs of members. */
  method PairsFromBuckets<K(==, !new)>(buckets: map<K, seq<int>>, ghost keys: seq<Option<K>>)
    returns (out: set<(int, int)>)
    requires KeyBuckets(buckets, keys)
    ensures out == Candidates(keys) && |out| == SumC2(BucketSizes(buckets))
  {
    out := {};
    var left := buckets;
    GatherStart(buckets, keys);
    while left.Keys != {}
      invariant Gathering(out, buckets, left, keys)
      decreases |left|
    {
      var k :| k in left.Keys;
      GatherBucket(out, buckets, left, keys, k);
      if |left[k]| >= 2 {
        out := out + PairsOf(Elements(left[k]));
      }
      left := left - {k};
    }
    GatherEnd(out, buckets, left, keys);
  }

  /** The shipped key and the compound `+ year` key, row by row.  The compound key also
      drops rows whose title key is the empty string. */
  function Compound(titleKeys: seq<Option<string>>, years: seq<string>): (keys: seq<Option<(string, string)>>)
    requires |titleKeys| == |years|
    ensures |keys| == |titleKeys|
    ensures forall i :: 0 <= i < |keys| ==>
      keys[i] == if titleKeys[i].Some? && titleKeys[i].value != "" then Some((titleKeys[i].value, years[i])) else None
  {
    seq(|titleKeys|, i requires 0 <= i < |titleKeys| =>
      if titleKeys[i].Some? && titleKeys[i].value != "" then Some((titleKeys[i].value, years[i])) else None)
  }

  // ------------------------------------------------------------------ score

  datatype Score = Score(candidates: nat, recall: real, ceiling: real)

  function AtLeastOne(n: nat): nat { if n > 1 then n else 1 }

  /** `_score`, before rounding. */
  function ScoreOf(cands: set<(int, int)>, truth: set<(int, int)>): Score {
    var hit := |cands * truth|;
    Score(|cands|, Ratio(hit, AtLeastOne(|truth|)), Ratio(hit, AtLeastOne(|cands|)))
  }

  /** `s` says of the candidates how many there are, which part of the true pairs is among
      them and which part of them is true; a part of nothing is 0. */
  ghost predicate Measures(s: Score, cands: set<(int, int)>, truth: set<(int, int)>) {
    && s.candidates == |cands|
    && (if truth == {} then s.recall == 0.0 else s.recall * |truth| as real == |cands * truth| as real)
    && (if cands == {} then s.ceiling == 0.0 else s.ceiling * |cands| as real == |cands * truth| as real)
  }

  lemma ScoreMeasures(cands: set<(int, int)>, truth: set<(int, int)>)
    ensures Measures(ScoreOf(cands, truth), cands, truth)
  {
    var hit := |cands * truth|;
    RatioTimes(hit, AtLeastOne(|truth|));
    RatioTimes(hit, AtLeastOne(|cands|));
    if truth == {} || cands == {} { assert cands * truth == {}; }
  }

  /** `measure_keys`: the row of the shipped key and, if the table has a year column and
      any rows, the row of the compound key. */
  method MeasureKeys(titleKeys: seq<Option<string>>, years: Option<seq<string>>, truth: set<(int, int)>)
    returns (base: Score, compound: Option<Score>)
    requires years.Some? ==> |titleKeys| == |years.value|
    ensures base == ScoreOf(Candidates(titleKeys), truth)
    ensures compound ==
      if years.None? || years.value == [] then None
      else Some(ScoreOf(Candidates(Compound(titleKeys, years.value)), truth))
    ensures Measures(base, Candidates(titleKeys), truth)
    ensures compound.Some? ==> Measures(compound.value, Candidates(Compound(titleKeys, years.value)), truth)
  {
    var buckets := BuildBuckets(titleKeys);
    var cands := PairsFromBuckets(buckets, titleKeys);
    base := ScoreOf(cands, truth);
    ScoreMeasures(cands, truth);
    compound := None;
    if years.Some? && years.value != [] {
      var keys := Compound(titleKeys, years.value);
      var buckets' := BuildBuckets(keys);
      cands := PairsFromBuckets(buckets', keys);
      compound := Some(ScoreOf(cands, truth));
      ScoreMeasures(cands, truth);
    }
  }

  // ------------------------------------------------------------- properties

  /** Adding the year only removes candidates. */
  lemma CompoundRefines(titleKeys: seq<Option<string>>, years: seq<string>)
    requires |titleKeys| == |years|
    ensures Candidates(Compound(titleKeys, years)) <= Candidates(titleKeys)
    ensures |Candidates(Compound(titleKeys, years))| <= |Candidates(titleKeys)|
    ensures forall p :: p in Candidates(titleKeys) ==>
      (p in Candidates(Compound(titleKeys, years)) <==> titleKeys[p.0] != Some("") && years[p.0] == years[p.1])
  {
    var A, B := Candidates(Compound(titleKeys, years)), Candidates(titleKeys);
    SubsetIsSmaller(A, B);
  }

  lemma SubsetIsSmaller<T>(A: set<T>, B: set<T>)
    ensures A <= B ==> |A| <= |B| && (|A| == |B| <==> A == B)
  {
    if A <= B {
      assert B == A + (B - A);
    }
  }

  /** The compound key keeps the recall exactly when it loses no true pair: every true
      pair the title key proposes agrees on the year and has a non-empty title key.
      The ceiling then does not fall. */
  lemma YearIsFreeExactlyWhenTruthAgrees(titleKeys: seq<Option<string>>, years: seq<string>, truth: set<(int, int)>)
    requires |titleKeys| == |years|
    ensures var base, compound :=
        ScoreOf(Candidates(titleKeys), truth), ScoreOf(Candidates(Compound(titleKeys, years)), truth);
      && compound.recall <= base.recall
      && (compound.recall == base.recall <==>
            forall p :: p in truth && p in Candidates(titleKeys) ==>
              titleKeys[p.0] != Some("") && years[p.0] == years[p.1])
      && (compound.recall == base.recall ==> compound.ceiling >= base.ceiling)
  {
    CompoundRefines(titleKeys, years);
    NestedScores(Candidates(Compound(titleKeys, years)), Candidates(titleKeys), truth);
  }

  lemma NestedScores(A: set<(int, int)>, B: set<(int, int)>, truth: set<(int, int)>)
    requires A <= B
    ensures ScoreOf(A, truth).recall <= ScoreOf(B, truth).recall
    ensures ScoreOf(A, truth).recall == ScoreOf(B, truth).recall <==> forall p :: p in truth && p in B ==> p in A
    ensures ScoreOf(A, truth).recall == ScoreOf(B, truth).recall ==>
      ScoreOf(A, truth).ceiling >= ScoreOf(B, truth).ceiling
  {
    SubsetIsSmaller(A, B);
    SubsetIsSmaller(A * truth, B * truth);
    RatioOrder(|A * truth|, |B * truth|, AtLeastOne(|truth|));
    if forall p :: p in truth && p in B ==> p in A {
      assert A * truth == B * truth;
    } else {
      var p :| p in truth && p in B && p !in A;
      assert p in B * truth && p !in A * truth;
    }
    RatioAntitone(|B * truth|, AtLeastOne(|A|), AtLeastOne(|B|));
  }

  lemma RatioOrder(a: nat, b: nat, n: nat)
    requires a <= b && n > 0
    ensures Ratio(a, n) <= Ratio(b, n) && (Ratio(a, n) == Ratio(b, n) <==> a == b)
  {
    RatioTimes(a, n);
    RatioTimes(b, n);
    assert (Ratio(a, n) - Ratio(b, n)) * n as real == (a - b) as real;
    SignOf(Ratio(b, n) - Ratio(a, n), n as real);
  }

  /** A true pair of one title with two years: the compound key loses it. */
  lemma YearCanLoseATruePair()
    ensures var titles, years, truth := [Some("t"), Some("t")], ["1999", "2000"], {(0, 1)};
      && ScoreOf(Candidates(titles), truth).recall == 1.0
      && ScoreOf(Candidates(Compound(titles, years)), truth).recall == 0.0
  {
    var titles, years, truth := [Some("t"), Some("t")], ["1999", "2000"], {(0, 1)};
    assert (0, 1) in AgreeingPairs(titles);
    assert Candidates(titles) * truth == {(0, 1)};
    assert "1999"[0] != "2000"[0];
    assert Candidates(Compound(titles, years)) * truth == {};
  }
}
