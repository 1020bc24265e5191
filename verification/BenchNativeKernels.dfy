/** scripts/bench_native_kernels.py: the pure-Python block scorer and its block sizes. */
module BenchNativeKernels {
  import opened Options
  import opened Partitions

  /** The scorer's arguments other than the block sizes.  `sim(f, a, b)` is the
      similarity function of field `f`. */
  datatype Input = Input(rowIds: seq<int>, fields: seq<seq<Option<string>>>, weights: seq<real>,
                         totalWeight: real, threshold: real, sim: (nat, string, string) -> real)
  {
    ghost predicate Valid(n: nat) {
      && n <= |rowIds| && |weights| == |fields|
      && forall f :: 0 <= f < |fields| ==> n <= |fields[f]|
    }
  }

  type Triple = (int, int, real)

  // ------------------------------------------------------------- reference

  predicate Comparable(x: Input, f: nat, i: nat, j: nat)
    requires f < |x.fields| && i < |x.fields[f]| && j < |x.fields[f]|
  {
    x.fields[f][i].Some? && x.fields[f][j].Some?
  }

  function Term(x: Input, f: nat, i: nat, j: nat): real
    requires f < |x.fields| == |x.weights| && i < |x.fields[f]| && j < |x.fields[f]| && Comparable(x, f, i, j)
  {
    x.sim(f, x.fields[f][i].value, x.fields[f][j].value) * x.weights[f]
  }

  /** Weighted similarity and weight over the first `k` fields present on both rows. */
  function ScoreSum(x: Input, k: nat, i: nat, j: nat): (real, real)
    requires k <= |x.fields| == |x.weights|
    requires forall f :: 0 <= f < k ==> i < |x.fields[f]| && j < |x.fields[f]|
  {
    if k == 0 then (0.0, 0.0)
    else
      var f := k - 1;
      var (ss, ws) := ScoreSum(x, f, i, j);
      if Comparable(x, f, i, j)
      then (ss + Term(x, f, i, j), ws + x.weights[f])
      else (ss, ws)
  }

  /** What comparing rows i < j emits: one triple, lower row id first, or nothing. */
  function Emit(x: Input, n: nat, i: nat, j: nat): seq<Triple>
    requires x.Valid(n) && i < n && j < n
  {
    var (ss, ws) := ScoreSum(x, |x.fields|, i, j);
    if ws > 0.0 && x.totalWeight != 0.0 && ss / x.totalWeight >= x.threshold then
      var c := ss / x.totalWeight;
      [if x.rowIds[i] < x.rowIds[j] then (x.rowIds[i], x.rowIds[j], c) else (x.rowIds[j], x.rowIds[i], c)]
    else []
  }

  /** Comparing rows i and j does not divide by a total weight of zero. */
  predicate Divides(x: Input, n: nat, i: nat, j: nat)
    requires x.Valid(n) && i < n && j < n
  {
    ScoreSum(x, |x.fields|, i, j).1 > 0.0 ==> x.totalWeight != 0.0
  }

  type Emitter = (int, int) -> seq<Triple>

  /** `Emit` for a table of `n` rows, as one value. */
  function EmitterOf(x: Input, n: nat): (emit: Emitter)
    requires x.Valid(n)
    ensures forall i: nat, j: nat :: i < n && j < n ==> emit(i, j) == Emit(x, n, i, j)
  {
    (i, j) => if 0 <= i < n && 0 <= j < n then Emit(x, n, i, j) else []
  }

  type Guard = (int, int) -> bool

  /** `Divides` for a table of `n` rows, as one value. */
  function GuardOf(x: Input, n: nat): (safe: Guard)
    requires x.Valid(n)
    ensures forall i: nat, j: nat :: i < n && j < n ==> safe(i, j) == Divides(x, n, i, j)
  {
    (i, j) => if 0 <= i < n && 0 <= j < n then Divides(x, n, i, j) else true
  }

  /** No comparison of row i with a later row of the same key fails. */
  ghost predicate RowSafe<K>(safe: Guard, keys: seq<K>, i: nat)
    requires i < |keys|
  {
    forall j :: i < j < |keys| && keys[j] == keys[i] ==> safe(i, j)
  }

  ghost predicate AllSafe<K>(safe: Guard, keys: seq<K>, lo: nat, hi: nat)
    requires hi <= |keys|
  {
    forall i :: lo <= i < hi ==> RowSafe(safe, keys, i)
  }

  /** Brute force for row i: every later row below `end` with the same key, in order. */
  function BruteRow<K(==)>(emit: Emitter, keys: seq<K>, i: nat, end: nat): seq<Triple>
    requires i < |keys| && end <= |keys|
  {
    if end <= i + 1 then []
    else BruteRow(emit, keys, i, end - 1) + if keys[i] == keys[end - 1] then emit(i, end - 1) else []
  }

  /** Brute force over all rows before `i` against all later rows. */
  function Brute<K(==)>(emit: Emitter, keys: seq<K>, i: nat): seq<Triple>
    requires i <= |keys|
  {
    if i == 0 then [] else Brute(emit, keys, i - 1) + BruteRow(emit, keys, i - 1, |keys|)
  }

  lemma BruteStep<K>(emit: Emitter, keys: seq<K>, i: nat)
    requires i < |keys|
    ensures Brute(emit, keys, i + 1) == Brute(emit, keys, i) + BruteRow(emit, keys, i, |keys|)
    ensures |Brute(emit, keys, i + 1)| == |Brute(emit, keys, i)| + |BruteRow(emit, keys, i, |keys|)|
  {
  }

  // ------------------------------------------------------ what is emitted

  /** Field `f` is present on both rows. */
  ghost predicate Shared(x: Input, f: int, i: nat, j: nat) {
    0 <= f < |x.fields| && i < |x.fields[f]| && j < |x.fields[f]| && x.fields[f][i].Some? && x.fields[f][j].Some?
  }

  ghost function SharedFields(x: Input, k: nat, i: nat, j: nat): set<int> {
    set f | 0 <= f < k && Shared(x, f, i, j)
  }

  /** The sum of `term` over the fields of `S`, in whatever order they come. */
  ghost function SumOver<F>(S: set<F>, term: F -> real): real {
    if S == {} then 0.0
    else
      var f :| f in S;
      term(f) + SumOver(S - {f}, term)
  }

  lemma {:induction false} SumOverWithout<F>(S: set<F>, term: F -> real, f: F)
    requires f in S
    ensures SumOver(S, term) == term(f) + SumOver(S - {f}, term)
    decreases |S|
  {
    var g :| g in S && SumOver(S, term) == term(g) + SumOver(S - {g}, term);
    if g != f {
      SumOverWithout(S - {g}, term, f);
      SumOverWithout(S - {f}, term, g);
      assert S - {g} - {f} == S - {f} - {g};
    }
  }

  /** The similarity of the two rows in a field, times its weight. */
  ghost function WeightedSimilarity(x: Input, i: nat, j: nat): (term: int -> real) {
    f => if Shared(x, f, i, j) && f < |x.weights| then
           x.sim(f, x.fields[f][i].value, x.fields[f][j].value) * x.weights[f]
         else 0.0
  }

  ghost function FieldWeight(x: Input): (term: int -> real) {
    f => if 0 <= f < |x.weights| then x.weights[f] else 0.0
  }

  /** Over the fields present on both rows: the weighted similarities ... */
  ghost function Similarity(x: Input, i: nat, j: nat): real {
    SumOver(SharedFields(x, |x.fields|, i, j), WeightedSimilarity(x, i, j))
  }

  /** ... and the weights. */
  ghost function Weight(x: Input, i: nat, j: nat): real {
    SumOver(SharedFields(x, |x.fields|, i, j), FieldWeight(x))
  }

  lemma SumOverNext(x: Input, k: nat, i: nat, j: nat, term: int -> real)
    ensures SumOver(SharedFields(x, k + 1, i, j), term) ==
      SumOver(SharedFields(x, k, i, j), term) + if Shared(x, k, i, j) then term(k) else 0.0
  {
    var S := SharedFields(x, k + 1, i, j);
    if Shared(x, k, i, j) {
      SumOverWithout(S, term, k);
      assert S - {k} == SharedFields(x, k, i, j);
    } else {
      assert S == SharedFields(x, k, i, j);
    }
  }

  lemma FieldStep(x: Input, k: nat, i: nat, j: nat, sims: int -> real, weights: int -> real)
    requires sims == WeightedSimilarity(x, i, j) && weights == FieldWeight(x)
    requires k < |x.fields| == |x.weights|
    requires forall f :: 0 <= f < |x.fields| ==> i < |x.fields[f]| && j < |x.fields[f]|
    ensures var (ss, ws) := ScoreSum(x, k, i, j);
      ScoreSum(x, k + 1, i, j) == if Shared(x, k, i, j) then (ss + sims(k), ws + weights(k)) else (ss, ws)
  {
    assert Shared(x, k, i, j) <==> Comparable(x, k, i, j);
    if Comparable(x, k, i, j) {
      assert sims(k) == Term(x, k, i, j) && weights(k) == x.weights[k];
    }
  }

  /** The field loop adds up both sums. */
  lemma {:induction false} LoopAddsUp(x: Input, k: nat, i: nat, j: nat, sims: int -> real, weights: int -> real)
    requires sims == WeightedSimilarity(x, i, j) && weights == FieldWeight(x)
    requires k <= |x.fields| == |x.weights|
    requires forall f :: 0 <= f < |x.fields| ==> i < |x.fields[f]| && j < |x.fields[f]|
    ensures ScoreSum(x, k, i, j) ==
      (SumOver(SharedFields(x, k, i, j), sims), SumOver(SharedFields(x, k, i, j), weights))
  {
    if k == 0 {
      assert SharedFields(x, 0, i, j) == {};
    } else {
      LoopAddsUp(x, k - 1, i, j, sims, weights);
      FieldStep(x, k - 1, i, j, sims, weights);
      SumOverNext(x, k - 1, i, j, sims);
      SumOverNext(x, k - 1, i, j, weights);
    }
  }

  /** `t` names the two rows, the lower id first, with their score, which is at the
      threshold or above. */
  ghost predicate IsTripleOf(x: Input, i: nat, j: nat, t: Triple)
    requires i < |x.rowIds| && j < |x.rowIds|
  {
    && t.0 <= t.1 && ((t.0, t.1) == (x.rowIds[i], x.rowIds[j]) || (t.0, t.1) == (x.rowIds[j], x.rowIds[i]))
    && t.2 * x.totalWeight == Similarity(x, i, j) && t.2 >= x.threshold
  }

  /** Comparing the two rows divides by a total weight of zero. */
  ghost predicate Fails(x: Input, i: nat, j: nat) { Weight(x, i, j) > 0.0 && x.totalWeight == 0.0 }

  /** The rows share some weight and their similarity reaches the threshold's part of the
      total weight; a negative total turns the comparison round. */
  ghost predicate Passes(x: Input, i: nat, j: nat) {
    && Weight(x, i, j) > 0.0 && x.totalWeight != 0.0
    && if x.totalWeight > 0.0 then Similarity(x, i, j) >= x.threshold * x.totalWeight
       else Similarity(x, i, j) <= x.threshold * x.totalWeight
  }

  lemma Signs(d: real, w: real)
    requires w > 0.0
    ensures d >= 0.0 <==> d * w >= 0.0
  {
    if d >= 0.0 {
      assert d * w >= 0.0;
    } else {
      assert -d * w > 0.0;
    }
  }

  lemma Quotient(s: real, w: real, t: real)
    requires w != 0.0
    ensures s / w * w == s
    ensures s / w >= t <==> if w > 0.0 then s >= t * w else s <= t * w
  {
    var q := s / w;
    assert q * w == s;
    if w > 0.0 {
      Signs(q - t, w);
    } else {
      Signs(q - t, -w);
    }
  }

  lemma SameQuotient(c: real, d: real, w: real)
    requires w != 0.0 && c * w == d * w
    ensures c == d
  {
    assert (c - d) * w == 0.0;
  }

  lemma ComparisonPasses(x: Input, n: nat, i: nat, j: nat)
    requires x.Valid(n) && i < n && j < n
    ensures ScoreSum(x, |x.fields|, i, j) == (Similarity(x, i, j), Weight(x, i, j))
    ensures Divides(x, n, i, j) <==> !Fails(x, i, j)
    ensures Emit(x, n, i, j) != [] <==> Passes(x, i, j)
  {
    LoopAddsUp(x, |x.fields|, i, j, WeightedSimilarity(x, i, j), FieldWeight(x));
    if x.totalWeight != 0.0 {
      Quotient(Similarity(x, i, j), x.totalWeight, x.threshold);
    }
  }

  /** What comparing two rows emits, said of the sums. */
  lemma EmitMeaning(x: Input, n: nat, i: nat, j: nat, t: Triple)
    requires x.Valid(n) && i < n && j < n
    ensures Emit(x, n, i, j) == [t] <==> Passes(x, i, j) && IsTripleOf(x, i, j, t)
  {
    ComparisonPasses(x, n, i, j);
    if Passes(x, i, j) {
      var s, w := Similarity(x, i, j), x.totalWeight;
      Quotient(s, w, x.threshold);
      if t.2 * w == s { SameQuotient(t.2, s / w, w); }
    }
  }

  /** Some two rows of one block pass, and `t` is their triple. */
  ghost predicate Scored(x: Input, ids: seq<int>, t: Triple)
    requires |ids| <= |x.rowIds|
  {
    exists p :: p in AgreeingPairs(ids) && Passes(x, p.0, p.1) && IsTripleOf(x, p.0, p.1, t)
  }

  ghost function PassingPairs(x: Input, ids: seq<int>): set<(int, int)> {
    set p | p in AgreeingPairs(ids) && Passes(x, p.0, p.1)
  }

  /** What the scorer owes for rows in these blocks.  It fails exactly if two rows of one
      block make it divide by zero; otherwise its triples are those of the pairs that
      pass, as many of them as there are such pairs. */
  ghost predicate Outcome(x: Input, ids: seq<int>, ok: bool, out: seq<Triple>)
    requires |ids| <= |x.rowIds|
  {
    && (ok <==> forall p :: p in AgreeingPairs(ids) ==> !Fails(x, p.0, p.1))
    && (ok ==> forall t :: t in out <==> Scored(x, ids, t))
    && (ok ==> |out| == |PassingPairs(x, ids)|)
  }

  // ----------------------------------------------------------------- blocks

  function Repeat(id: int, n: nat): (s: seq<int>)
    ensures |s| == n && forall i :: 0 <= i < n ==> s[i] == id
  {
    seq(n, _ => id)
  }

  /** The block each row is in when blocks of these sizes are laid end to end. */
  function BlockIds(sizes: seq<nat>): (ids: seq<int>)
    ensures forall i :: 0 <= i < |ids| ==> 0 <= ids[i] < |sizes|
  {
    if sizes == [] then []
    else
      var m := |sizes| - 1;
      BlockIds(sizes[..m]) + Repeat(m, sizes[m])
  }

  /** sum(s * (s - 1) // 2 for s in sizes). */
  function PairCount(sizes: seq<nat>): nat {
    if sizes == [] then 0 else PairCount(sizes[..|sizes| - 1]) + C2(sizes[|sizes| - 1])
  }

  lemma {:induction false} BlockIdsPrefix(sizes: seq<nat>, k: nat)
    requires k <= |sizes|
    ensures BlockIds(sizes[..k]) <= BlockIds(sizes)
    decreases |sizes| - k
  {
    if k == |sizes| {
      assert sizes[..k] == sizes;
    } else {
      BlockIdsPrefix(sizes, k + 1);
      assert sizes[..k + 1][..k] == sizes[..k];
      assert BlockIds(sizes[..k]) <= BlockIds(sizes[..k + 1]);
    }
  }

  /** The k-th block occupies one stretch, holding exactly the rows with id k. */
  lemma {:induction false} BlockStretch(sizes: seq<nat>, k: nat)
    requires k < |sizes|
    ensures var ids, lo := BlockIds(sizes), |BlockIds(sizes[..k])|;
      && lo + sizes[k] == |BlockIds(sizes[..k + 1])| <= |ids|
      && forall i :: 0 <= i < |ids| ==> (ids[i] == k <==> lo <= i < lo + sizes[k])
    decreases |sizes|
  {
    var m := |sizes| - 1;
    assert sizes[..k + 1][..k] == sizes[..k];
    if k == m {
      assert sizes[..k + 1] == sizes;
    } else {
      BlockStretch(sizes[..m], k);
      assert sizes[..m][..k] == sizes[..k] && sizes[..m][..k + 1] == sizes[..k + 1];
    }
  }

  /** No row from `end` on shares the key of row `i`. */
  ghost predicate NoneLater<K>(keys: seq<K>, i: nat, end: nat)
    requires i < |keys|
  {
    forall j :: end <= j < |keys| ==> keys[j] != keys[i]
  }

  /** Rows past the end of a row's block add nothing. */
  lemma {:induction false} NothingBeyond<K>(emit: Emitter, keys: seq<K>, i: nat, end: nat, far: nat)
    requires i < end <= far <= |keys| && NoneLater(keys, i, end)
    ensures BruteRow(emit, keys, i, far) == BruteRow(emit, keys, i, end)
  {
    if far > end {
      NothingBeyond(emit, keys, i, end, far - 1);
    }
  }

  // ---------------------------------------------------------------- py_loop

  /** The field loop of one comparison; not `ok` is a division by zero. */
  method ComparePair(x: Input, ghost n: nat, i: nat, j: nat) returns (ok: bool, out: seq<Triple>)
    requires x.Valid(n) && i < n && j < n
    ensures ok <==> Divides(x, n, i, j)
    ensures ok ==> out == Emit(x, n, i, j)
  {
    var ri, rj := x.rowIds[i], x.rowIds[j];
    var pk := if ri < rj then (ri, rj) else (rj, ri);
    var ss, ws := 0.0, 0.0;
    for f := 0 to |x.fields|
      invariant (ss, ws) == ScoreSum(x, f, i, j)
    {
      var va, vb := x.fields[f][i], x.fields[f][j];
      if va.Some? && vb.Some? {
        ss := ss + Term(x, f, i, j);
        ws := ws + x.weights[f];
      }
    }
    ok, out := true, [];
    if ws > 0.0 {
      if x.totalWeight == 0.0 {
        return false, [];
      }
      var c := ss / x.totalWeight;
      if c >= x.threshold {
        out := [(pk.0, pk.1, c)];
      }
    }
  }

  /** The rows lo .. hi-1 are exactly the rows with the id of row `i`. */
  ghost predicate InBlock(ids: seq<int>, lo: nat, hi: nat, i: nat) {
    lo <= i < hi <= |ids| && forall j :: 0 <= j < |ids| ==> (ids[j] == ids[i] <==> lo <= j < hi)
  }

  lemma BlockEnds(ids: seq<int>, lo: nat, hi: nat, i: nat)
    requires InBlock(ids, lo, hi, i)
    ensures NoneLater(ids, i, hi)
  {
  }

  lemma SameBlock(ids: seq<int>, lo: nat, hi: nat, i: nat, k: nat)
    requires InBlock(ids, lo, hi, i) && lo <= k < hi
    ensures InBlock(ids, lo, hi, k)
  {
    assert ids[k] == ids[i];
  }

  /** Row i has met the rows before `j`: what it emitted, and how often it compared. */
  ghost predicate RowState(emit: Emitter, safe: Guard, ids: seq<int>, i: nat, j: nat, out0: seq<Triple>,
                           out: seq<Triple>, compared: nat) {
    && i < j <= |ids| && out == out0 + BruteRow(emit, ids, i, j) && compared == j - i - 1
    && forall k :: i < k < j ==> safe(i, k)
  }

  lemma RowStart(emit: Emitter, safe: Guard, ids: seq<int>, i: nat, out: seq<Triple>)
    requires i < |ids|
    ensures RowState(emit, safe, ids, i, i + 1, out, out, 0)
  {
    assert BruteRow(emit, ids, i, i + 1) == [];
  }

  lemma RowStep(emit: Emitter, safe: Guard, ids: seq<int>, lo: nat, hi: nat, i: nat, j: nat, out0: seq<Triple>,
                out: seq<Triple>, compared: nat)
    requires RowState(emit, safe, ids, i, j, out0, out, compared) && InBlock(ids, lo, hi, i) && j < hi && safe(i, j)
    ensures RowState(emit, safe, ids, i, j + 1, out0, out + emit(i, j), compared + 1)
  {
    var before, hit := BruteRow(emit, ids, i, j), emit(i, j);
    assert ids[j] == ids[i];
    assert BruteRow(emit, ids, i, j + 1) == before + hit;
    assert out0 + before + hit == out0 + (before + hit);
  }

  lemma RowEnd(emit: Emitter, safe: Guard, ids: seq<int>, lo: nat, hi: nat, i: nat, out0: seq<Triple>,
               out: seq<Triple>, compared: nat)
    requires RowState(emit, safe, ids, i, hi, out0, out, compared) && InBlock(ids, lo, hi, i)
    ensures RowSafe(safe, ids, i) && out == out0 + BruteRow(emit, ids, i, |ids|)
  {
    BlockEnds(ids, lo, hi, i);
    NothingBeyond(emit, ids, i, hi, |ids|);
  }

  lemma RowFails(safe: Guard, ids: seq<int>, lo: nat, hi: nat, i: nat, j: nat)
    requires InBlock(ids, lo, hi, i) && i < j < hi && !safe(i, j)
    ensures !RowSafe(safe, ids, i)
  {
    assert ids[j] == ids[i];
  }

  /** One row against the rest of its block. */
  method ScoreRow(x: Input, ghost emit: Emitter, ghost safe: Guard, ghost ids: seq<int>, ghost lo: nat, i: nat,
                  end: nat, out0: seq<Triple>)
    returns (ok: bool, out: seq<Triple>, ghost compared: nat)
    requires x.Valid(|ids|) && emit == EmitterOf(x, |ids|) && safe == GuardOf(x, |ids|) && InBlock(ids, lo, end, i)
    ensures ok <==> RowSafe(safe, ids, i)
    ensures ok ==> out == out0 + BruteRow(emit, ids, i, |ids|) && compared == end - i - 1
  {
    ok, out, compared := true, out0, 0;
    RowStart(emit, safe, ids, i, out0);
    for j := i + 1 to end
      invariant RowState(emit, safe, ids, i, j, out0, out, compared)
    {
      var fine, hit := ComparePair(x, |ids|, i, j);
      if !fine {
        RowFails(safe, ids, lo, end, i, j);
        return false, out, compared;
      }
      RowStep(emit, safe, ids, lo, end, i, j, out0, out, compared);
      out := out + hit;
      compared := compared + 1;
    }
    RowEnd(emit, safe, ids, lo, end, i, out0, out, compared);
  }

  /** 0 + 1 + ... + (n - 1). */
  function Triangle(n: nat): nat { if n == 0 then 0 else Triangle(n - 1) + n - 1 }

  lemma {:induction false} TriangleIsC2(n: nat)
    ensures Triangle(n) == C2(n)
  {
    if n > 0 {
      TriangleIsC2(n - 1);
      C2Step(n - 1);
    }
  }

  lemma LastRowOfBlock<K>(emit: Emitter, keys: seq<K>, end: nat)
    requires 0 < end <= |keys| && NoneLater(keys, end - 1, end)
    ensures Brute(emit, keys, end) == Brute(emit, keys, end - 1)
  {
    NothingBeyond(emit, keys, end - 1, end, |keys|);
    assert BruteRow(emit, keys, end - 1, end) == [];
    BruteStep(emit, keys, end - 1);
  }

  /** The last row of a block has no later row to meet. */
  lemma BlockDone(emit: Emitter, safe: Guard, ids: seq<int>, lo: nat, hi: nat)
    requires InBlock(ids, lo, hi, lo)
    ensures Brute(emit, ids, hi) == Brute(emit, ids, hi - 1)
    ensures RowSafe(safe, ids, hi - 1)
  {
    SameBlock(ids, lo, hi, lo, hi - 1);
    BlockEnds(ids, lo, hi, hi - 1);
    LastRowOfBlock(emit, ids, hi);
  }

  /** The rows of a block before `i` are scored, none of them failing. */
  ghost predicate BlockState(emit: Emitter, safe: Guard, ids: seq<int>, lo: nat, hi: nat, i: nat,
                             out: seq<Triple>, compared: nat) {
    && lo <= i < hi <= |ids| && out == Brute(emit, ids, i) && AllSafe(safe, ids, lo, i)
    && compared + Triangle(hi - i) == Triangle(hi - lo)
  }

  lemma BlockStep(emit: Emitter, safe: Guard, ids: seq<int>, lo: nat, hi: nat, i: nat, out: seq<Triple>, compared: nat)
    requires BlockState(emit, safe, ids, lo, hi, i, out, compared) && i + 1 < hi && RowSafe(safe, ids, i)
    ensures BlockState(emit, safe, ids, lo, hi, i + 1, out + BruteRow(emit, ids, i, |ids|), compared + (hi - i - 1))
  {
    BruteStep(emit, ids, i);
    assert Triangle(hi - i) == Triangle(hi - i - 1) + (hi - i - 1);
  }

  lemma BlockEnd(emit: Emitter, safe: Guard, ids: seq<int>, lo: nat, hi: nat, out: seq<Triple>, compared: nat)
    requires InBlock(ids, lo, hi, lo) && BlockState(emit, safe, ids, lo, hi, hi - 1, out, compared)
    ensures out == Brute(emit, ids, hi) && AllSafe(safe, ids, lo, hi) && compared == Triangle(hi - lo)
  {
    BlockDone(emit, safe, ids, lo, hi);
    assert Triangle(1) == 0;
  }

  /** One block of two rows or more, from `offset` to `end`. */
  method ScoreBlock(x: Input, ghost emit: Emitter, ghost safe: Guard, ghost ids: seq<int>, offset: nat,
                    end: nat, out0: seq<Triple>)
    returns (ok: bool, out: seq<Triple>, ghost compared: nat)
    requires x.Valid(|ids|) && emit == EmitterOf(x, |ids|) && safe == GuardOf(x, |ids|)
    requires offset + 2 <= end && InBlock(ids, offset, end, offset)
    requires out0 == Brute(emit, ids, offset)
    ensures ok <==> AllSafe(safe, ids, offset, end)
    ensures ok ==> out == Brute(emit, ids, end) && compared == Triangle(end - offset)
  {
    ok, out, compared := true, out0, 0;
    for i := offset to end - 1
      invariant BlockState(emit, safe, ids, offset, end, i, out, compared)
    {
      SameBlock(ids, offset, end, offset, i);
      ghost var before, c := out, 0;
      ok, out, c := ScoreRow(x, emit, safe, ids, offset, i, end, out);
      if !ok {
        return;
      }
      BlockStep(emit, safe, ids, offset, end, i, before, compared);
      compared := compared + c;
    }
    BlockEnd(emit, safe, ids, offset, end, out, compared);
  }

  /** Where block `k` lies, and what its comparisons add to the count. */
  lemma BlockAt(sizes: seq<nat>, k: nat)
    requires k < |sizes|
    ensures var ids, lo := BlockIds(sizes), |BlockIds(sizes[..k])|;
      && lo + sizes[k] == |BlockIds(sizes[..k + 1])| <= |ids|
      && (sizes[k] > 0 ==> InBlock(ids, lo, lo + sizes[k], lo))
    ensures PairCount(sizes[..k + 1]) == PairCount(sizes[..k]) + C2(sizes[k])
  {
    BlockStretch(sizes, k);
    assert sizes[..k + 1][..k] == sizes[..k];
  }

  lemma LoneRow(emit: Emitter, safe: Guard, ids: seq<int>, lo: nat)
    requires InBlock(ids, lo, lo + 1, lo)
    ensures Brute(emit, ids, lo + 1) == Brute(emit, ids, lo) && AllSafe(safe, ids, lo, lo + 1)
  {
    BlockDone(emit, safe, ids, lo, lo + 1);
  }

  /** The guard on the block size: a block of one row is skipped. */
  method ScoreSizedBlock(x: Input, ghost emit: Emitter, ghost safe: Guard, ghost ids: seq<int>, offset: nat,
                         size: nat, out0: seq<Triple>)
    returns (ok: bool, out: seq<Triple>, ghost compared: nat)
    requires x.Valid(|ids|) && emit == EmitterOf(x, |ids|) && safe == GuardOf(x, |ids|) && offset + size <= |ids|
    requires (size > 0 ==> InBlock(ids, offset, offset + size, offset)) && out0 == Brute(emit, ids, offset)
    ensures ok <==> AllSafe(safe, ids, offset, offset + size)
    ensures ok ==> out == Brute(emit, ids, offset + size) && compared == C2(size)
  {
    TriangleIsC2(size);
    ok, out, compared := true, out0, 0;
    if size >= 2 {
      ok, out, compared := ScoreBlock(x, emit, safe, ids, offset, offset + size, out0);
    } else if size == 1 {
      LoneRow(emit, safe, ids, offset);
    }
  }

  /** Everything before `offset` is scored, none of it failing. */
  ghost predicate LoopState(emit: Emitter, safe: Guard, sizes: seq<nat>, k: nat, offset: nat, out: seq<Triple>,
                            compared: nat) {
    var ids := BlockIds(sizes);
    && k <= |sizes| && offset == |BlockIds(sizes[..k])| <= |ids| && AllSafe(safe, ids, 0, offset)
    && out == Brute(emit, ids, offset) && compared == PairCount(sizes[..k])
  }

  /** The next block fits, and is one stretch of rows. */
  lemma NextBlock(emit: Emitter, safe: Guard, sizes: seq<nat>, k: nat, offset: nat, out: seq<Triple>, compared: nat)
    requires LoopState(emit, safe, sizes, k, offset, out, compared) && k < |sizes|
    ensures var ids := BlockIds(sizes);
      offset + sizes[k] <= |ids| && (sizes[k] > 0 ==> InBlock(ids, offset, offset + sizes[k], offset))
  {
    BlockAt(sizes, k);
  }

  lemma LoopStep(emit: Emitter, safe: Guard, sizes: seq<nat>, k: nat, offset: nat, out: seq<Triple>,
                 compared: nat, out': seq<Triple>)
    requires LoopState(emit, safe, sizes, k, offset, out, compared) && k < |sizes|
    requires offset + sizes[k] <= |BlockIds(sizes)| && AllSafe(safe, BlockIds(sizes), offset, offset + sizes[k])
    requires out' == Brute(emit, BlockIds(sizes), offset + sizes[k])
    ensures LoopState(emit, safe, sizes, k + 1, offset + sizes[k], out', compared + C2(sizes[k]))
  {
    BlockAt(sizes, k);
  }

  lemma LoopEnd(emit: Emitter, safe: Guard, sizes: seq<nat>, offset: nat, out: seq<Triple>, compared: nat)
    requires LoopState(emit, safe, sizes, |sizes|, offset, out, compared)
    ensures var ids := BlockIds(sizes);
      AllSafe(safe, ids, 0, |ids|) && out == Brute(emit, ids, |ids|) && compared == PairCount(sizes)
  {
    assert sizes[..|sizes|] == sizes;
  }

  /** The loop over the blocks: what it emits is what brute force over all pairs of rows in
      one block emits, in the same order. */
  method BlockLoop(x: Input, sizes: seq<nat>) returns (ok: bool, out: seq<Triple>, ghost compared: nat)
    requires x.Valid(|BlockIds(sizes)|)
    ensures var ids := BlockIds(sizes); ok <==> AllSafe(GuardOf(x, |ids|), ids, 0, |ids|)
    ensures ok ==> out == Brute(EmitterOf(x, |BlockIds(sizes)|), BlockIds(sizes), |BlockIds(sizes)|)
    ensures ok ==> compared == PairCount(sizes)
  {
    ghost var ids := BlockIds(sizes);
    ghost var emit, safe := EmitterOf(x, |ids|), GuardOf(x, |ids|);
    ok, out, compared := true, [], 0;
    var offset := 0;
    for k := 0 to |sizes|
      invariant LoopState(emit, safe, sizes, k, offset, out, compared)
    {
      NextBlock(emit, safe, sizes, k, offset, out, compared);
      ghost var before, c := out, 0;
      ok, out, c := ScoreSizedBlock(x, emit, safe, ids, offset, sizes[k], out);
      if !ok {
        return;
      }
      LoopStep(emit, safe, sizes, k, offset, before, compared, out);
      compared := compared + c;
      offset := offset + sizes[k];
    }
    LoopEnd(emit, safe, sizes, offset, out, compared);
  }

  /** `_py_loop`: block by block it emits exactly what brute force over all pairs of
      rows in one block emits, in the same order, comparing s(s-1)/2 pairs per block.  It
      fails exactly if some comparison inside a block divides by a total weight of zero,
      and otherwise its triples are those of the pairs that pass. */
  method PyLoop(x: Input, sizes: seq<nat>) returns (ok: bool, out: seq<Triple>, ghost compared: nat)
    requires x.Valid(|BlockIds(sizes)|)
    ensures Outcome(x, BlockIds(sizes), ok, out)
    ensures ok ==> out == Brute(EmitterOf(x, |BlockIds(sizes)|), BlockIds(sizes), |BlockIds(sizes)|)
    ensures ok ==> compared == PairCount(sizes)
  {
    ok, out, compared := BlockLoop(x, sizes);
    LoopOutcome(x, BlockIds(sizes), ok, out);
  }

  // ------------------------------------------------------------ block sizes

  /** `group_by(key, maintain_order=True).agg(len)`: groups in order of first
      appearance, each with its size. */
  function GroupSizes<K(==)>(keys: seq<K>): seq<(K, nat)> {
    if keys == [] then []
    else CountKey(GroupSizes(keys[..|keys| - 1]), keys[|keys| - 1])
  }

  function CountKey<K(==)>(groups: seq<(K, nat)>, key: K): seq<(K, nat)> {
    if groups == [] then [(key, 1)]
    else if groups[0].0 == key then [(key, groups[0].1 + 1)] + groups[1..]
    else [groups[0]] + CountKey(groups[1..], key)
  }

  function Sizes<K>(groups: seq<(K, nat)>): (s: seq<nat>)
    ensures |s| == |groups| && forall k :: 0 <= k < |s| ==> s[k] == groups[k].1
  {
    seq(|groups|, k requires 0 <= k < |groups| => groups[k].1)
  }

  /** Equal keys are adjacent, as they are once the rows are sorted by key. */
  ghost predicate Contiguous<K(!new)>(keys: seq<K>) {
    forall i, j, k :: 0 <= i <= j <= k < |keys| && keys[i] == keys[k] ==> keys[j] == keys[i]
  }

  ghost predicate DistinctKeys<K(!new)>(groups: seq<(K, nat)>) {
    forall i, j :: 0 <= i < j < |groups| ==> groups[i].0 != groups[j].0
  }

  /** Row i belongs to the group numbered ids[i]. */
  ghost predicate Assigns<K(!new)>(groups: seq<(K, nat)>, ids: seq<int>, keys: seq<K>) {
    |ids| == |keys| && forall i :: 0 <= i < |ids| ==> 0 <= ids[i] < |groups| && groups[ids[i]].0 == keys[i]
  }

  /** Laying blocks of these sizes end to end puts every row in the block of its key. */
  ghost predicate Describes<K(!new)>(groups: seq<(K, nat)>, keys: seq<K>) {
    DistinctKeys(groups) && Assigns(groups, BlockIds(Sizes(groups)), keys)
  }

  ghost predicate LastKeyIs<K(!new)>(groups: seq<(K, nat)>, key: K) { groups != [] && groups[|groups| - 1].0 == key }

  lemma {:induction false} CountKnown<K(!new)>(groups: seq<(K, nat)>, key: K)
    requires DistinctKeys(groups) && LastKeyIs(groups, key)
    ensures CountKey(groups, key) == groups[|groups| - 1 := (key, groups[|groups| - 1].1 + 1)]
  {
    if |groups| > 1 {
      CountKnown(groups[1..], key);
    }
  }

  lemma {:induction false} CountNew<K(!new)>(groups: seq<(K, nat)>, key: K)
    requires forall k :: 0 <= k < |groups| ==> groups[k].0 != key
    ensures CountKey(groups, key) == groups + [(key, 1)]
  {
    if groups != [] {
      CountNew(groups[1..], key);
    }
  }

  lemma BlockIdsGrow(sizes: seq<nat>)
    ensures sizes != [] ==> var m := |sizes| - 1; BlockIds(sizes[m := sizes[m] + 1]) == BlockIds(sizes) + [m]
    ensures BlockIds(sizes + [1]) == BlockIds(sizes) + [|sizes|]
  {
    var m := |sizes| - 1;
    if sizes != [] {
      assert sizes[m := sizes[m] + 1][..m] == sizes[..m];
      assert Repeat(m, sizes[m] + 1) == Repeat(m, sizes[m]) + [m];
    }
    assert (sizes + [1])[..m + 1] == sizes;
    assert Repeat(m + 1, 1) == [m + 1];
  }

  /** One more row, in the block numbered `id`. */
  lemma DescribesMore<K(!new)>(groups: seq<(K, nat)>, keys: seq<K>, groups': seq<(K, nat)>, id: int, key: K)
    requires Describes(groups, keys) && DistinctKeys(groups')
    requires |groups| <= |groups'| && forall k :: 0 <= k < |groups| ==> groups'[k].0 == groups[k].0
    requires 0 <= id < |groups'| && groups'[id].0 == key
    requires BlockIds(Sizes(groups')) == BlockIds(Sizes(groups)) + [id]
    ensures Describes(groups', keys + [key])
  {
    var ids := BlockIds(Sizes(groups));
    forall i | 0 <= i < |keys| + 1
      ensures var r := (ids + [id])[i]; 0 <= r < |groups'| && groups'[r].0 == (keys + [key])[i]
    {
      if i < |keys| { assert groups[ids[i]].0 == keys[i]; }
    }
  }

  /** A row with the key of the last group joins its block ... */
  lemma CountLast<K(!new)>(groups: seq<(K, nat)>, key: K)
    requires DistinctKeys(groups) && LastKeyIs(groups, key)
    ensures var h := CountKey(groups, key);
      && |h| == |groups| && (forall k :: 0 <= k < |groups| ==> h[k].0 == groups[k].0)
      && DistinctKeys(h) && BlockIds(Sizes(h)) == BlockIds(Sizes(groups)) + [|groups| - 1]
  {
    var m, s := |groups| - 1, Sizes(groups);
    CountKnown(groups, key);
    assert Sizes(CountKey(groups, key)) == s[m := s[m] + 1];
    BlockIdsGrow(s);
  }

  lemma NewBlock<K>(groups: seq<(K, nat)>, key: K)
    ensures BlockIds(Sizes(groups + [(key, 1)])) == BlockIds(Sizes(groups)) + [|groups|]
  {
    BlockIdsGrow(Sizes(groups));
    assert Sizes(groups + [(key, 1)]) == Sizes(groups) + [1];
  }

  /** ... and a row with a new key opens a block of its own. */
  lemma CountOther<K(!new)>(groups: seq<(K, nat)>, key: K)
    requires DistinctKeys(groups) && forall k :: 0 <= k < |groups| ==> groups[k].0 != key
    ensures var h := CountKey(groups, key);
      && |h| == |groups| + 1 && (forall k :: 0 <= k < |groups| ==> h[k].0 == groups[k].0) && h[|groups|].0 == key
      && DistinctKeys(h) && BlockIds(Sizes(h)) == BlockIds(Sizes(groups)) + [|groups|]
  {
    CountNew(groups, key);
    NewBlock(groups, key);
  }

  ghost predicate KeysOccur<K(!new)>(groups: seq<(K, nat)>, keys: seq<K>) {
    forall k :: 0 <= k < |groups| ==> groups[k].0 in keys
  }

  lemma NewKeyIsNew<K(!new)>(groups: seq<(K, nat)>, keys: seq<K>, key: K)
    requires KeysOccur(groups, keys) && Contiguous(keys + [key]) && (keys != [] ==> keys[|keys| - 1] != key)
    ensures forall k :: 0 <= k < |groups| ==> groups[k].0 != key
  {
    var longer, n := keys + [key], |keys|;
    forall k | 0 <= k < |groups| ensures groups[k].0 != key {
      assert groups[k].0 in keys;
      var i :| 0 <= i < |keys| && keys[i] == groups[k].0;
      assert longer[i] == keys[i] && longer[n - 1] == keys[n - 1] && longer[n] == key;
    }
  }

  lemma DescribesSame<K(!new)>(groups: seq<(K, nat)>, keys: seq<K>, key: K)
    requires Describes(groups, keys) && LastKeyIs(groups, key)
    ensures Describes(CountKey(groups, key), keys + [key]) && LastKeyIs(CountKey(groups, key), key)
  {
    CountLast(groups, key);
    DescribesMore(groups, keys, CountKey(groups, key), |groups| - 1, key);
  }

  lemma DescribesNew<K(!new)>(groups: seq<(K, nat)>, keys: seq<K>, key: K)
    requires Describes(groups, keys) && forall k :: 0 <= k < |groups| ==> groups[k].0 != key
    ensures Describes(CountKey(groups, key), keys + [key]) && LastKeyIs(CountKey(groups, key), key)
  {
    CountOther(groups, key);
    DescribesMore(groups, keys, CountKey(groups, key), |groups|, key);
  }

  lemma DescribesStep<K(!new)>(groups: seq<(K, nat)>, keys: seq<K>, key: K)
    requires Describes(groups, keys) && KeysOccur(groups, keys) && Contiguous(keys + [key])
    requires keys != [] ==> LastKeyIs(groups, keys[|keys| - 1])
    ensures Describes(CountKey(groups, key), keys + [key]) && LastKeyIs(CountKey(groups, key), key)
  {
    if keys != [] && keys[|keys| - 1] == key {
      DescribesSame(groups, keys, key);
    } else {
      NewKeyIsNew(groups, keys, key);
      DescribesNew(groups, keys, key);
    }
  }

  lemma {:induction false} CountedKeys<K(!new)>(groups: seq<(K, nat)>, keys: seq<K>, key: K)
    requires KeysOccur(groups, keys)
    ensures KeysOccur(CountKey(groups, key), keys + [key])
  {
    if groups != [] && groups[0].0 != key {
      CountedKeys(groups[1..], keys, key);
      assert groups[0].0 in keys;
    }
  }

  lemma {:induction false} GroupKeysOccur<K(!new)>(keys: seq<K>)
    ensures KeysOccur(GroupSizes(keys), keys)
  {
    if keys != [] {
      var n := |keys| - 1;
      GroupKeysOccur(keys[..n]);
      CountedKeys(GroupSizes(keys[..n]), keys[..n], keys[n]);
      assert keys == keys[..n] + [keys[n]];
    }
  }

  lemma ContiguousInit<K(!new)>(init: seq<K>, key: K)
    requires Contiguous(init + [key])
    ensures Contiguous(init)
  {
    var keys := init + [key];
    forall i, j, k | 0 <= i <= j <= k < |init| && init[i] == init[k] ensures init[j] == init[i] {
      assert keys[i] == keys[k] && keys[j] == init[j];
    }
  }

  lemma GroupSizesStep<K>(init: seq<K>, key: K)
    ensures GroupSizes(init + [key]) == CountKey(GroupSizes(init), key)
  {
    assert (init + [key])[..|init|] == init;
  }

  /** On rows sorted by key the group sizes are the run lengths. */
  lemma {:induction false} GroupSizesDescribe<K(!new)>(keys: seq<K>)
    requires Contiguous(keys)
    ensures Describes(GroupSizes(keys), keys)
    ensures keys != [] ==> LastKeyIs(GroupSizes(keys), keys[|keys| - 1])
    decreases |keys|
  {
    if keys != [] {
      var init, key := keys[..|keys| - 1], keys[|keys| - 1];
      assert keys == init + [key];
      ContiguousInit(init, key);
      GroupSizesDescribe(init);
      GroupKeysOccur(init);
      GroupSizesStep(init, key);
      DescribesStep(GroupSizes(init), init, key);
    }
  }

  // ------------------------------------------------------------- properties

  /** Brute force sees the keys only through which rows share one. */
  lemma {:induction false} BruteRowByKernel<K, L>(emit: Emitter, keys: seq<K>, ids: seq<L>, i: nat, end: nat)
    requires |keys| == |ids| && i < |keys| && end <= |keys|
    requires forall j :: 0 <= j < |keys| ==> (keys[i] == keys[j] <==> ids[i] == ids[j])
    ensures BruteRow(emit, keys, i, end) == BruteRow(emit, ids, i, end)
  {
    if end > i + 1 {
      BruteRowByKernel(emit, keys, ids, i, end - 1);
    }
  }

  lemma {:induction false} BruteByKernel<K, L>(emit: Emitter, keys: seq<K>, ids: seq<L>, i: nat)
    requires |keys| == |ids| && i <= |keys|
    requires forall j, k :: 0 <= j < |keys| && 0 <= k < |keys| ==> (keys[j] == keys[k] <==> ids[j] == ids[k])
    ensures Brute(emit, keys, i) == Brute(emit, ids, i)
  {
    if i > 0 {
      BruteByKernel(emit, keys, ids, i - 1);
      BruteRowByKernel(emit, keys, ids, i - 1, |keys|);
    }
  }

  lemma SafetyByKernel<K, L>(safe: Guard, keys: seq<K>, ids: seq<L>)
    requires |keys| == |ids|
    requires forall j, k :: 0 <= j < |keys| && 0 <= k < |keys| ==> (keys[j] == keys[k] <==> ids[j] == ids[k])
    ensures AllSafe(safe, keys, 0, |keys|) <==> AllSafe(safe, ids, 0, |ids|)
  {
    forall i | 0 <= i < |keys| ensures RowSafe(safe, keys, i) <==> RowSafe(safe, ids, i) {}
  }

  lemma IdsHaveKernel<K(!new)>(keys: seq<K>)
    requires Contiguous(keys)
    ensures var ids := BlockIds(Sizes(GroupSizes(keys)));
      |ids| == |keys| && forall j, k :: 0 <= j < |keys| && 0 <= k < |keys| ==>
        (keys[j] == keys[k] <==> ids[j] == ids[k])
  {
    GroupSizesDescribe(keys);
    var groups := GroupSizes(keys);
    var ids := BlockIds(Sizes(groups));
    forall j, k | 0 <= j < |keys| && 0 <= k < |keys| ensures keys[j] == keys[k] <==> ids[j] == ids[k] {
      assert groups[ids[j]].0 == keys[j] && groups[ids[k]].0 == keys[k];
    }
  }

  /** The block-offset loop equals brute force over the block keys: on rows sorted by
      key, with the sizes the group-by reports, it fails exactly when some comparison of
      two rows with equal keys fails, and otherwise emits in order what comparing every
      two rows with equal keys emits. */
  lemma BlocksEqualBruteForce<K(!new)>(x: Input, keys: seq<K>)
    requires Contiguous(keys)
    ensures |BlockIds(Sizes(GroupSizes(keys)))| == |keys|
    ensures x.Valid(|keys|) ==>
      var ids, emit, safe := BlockIds(Sizes(GroupSizes(keys))), EmitterOf(x, |keys|), GuardOf(x, |keys|);
      && Brute(emit, ids, |ids|) == Brute(emit, keys, |keys|)
      && (AllSafe(safe, ids, 0, |ids|) <==> AllSafe(safe, keys, 0, |keys|))
  {
    var ids := BlockIds(Sizes(GroupSizes(keys)));
    IdsHaveKernel(keys);
    if x.Valid(|keys|) {
      BruteByKernel(EmitterOf(x, |keys|), keys, ids, |keys|);
      SafetyByKernel(GuardOf(x, |keys|), keys, ids);
    }
  }

  lemma RepeatMore(ids: seq<int>, id: int, n: nat)
    ensures ids + Repeat(id, n + 1) == ids + Repeat(id, n) + [id]
  {
    assert Repeat(id, n + 1) == Repeat(id, n) + [id];
  }

  lemma {:induction false} RepeatedCount(ids: seq<int>, id: int, n: nat)
    requires id !in ids
    ensures multiset(ids + Repeat(id, n))[id] == n
  {
    if n == 0 {
      assert ids + Repeat(id, 0) == ids;
    } else {
      RepeatedCount(ids, id, n - 1);
      RepeatMore(ids, id, n - 1);
    }
  }

  lemma {:induction false} RepeatedAgree(ids: seq<int>, id: int, n: nat)
    requires id !in ids
    ensures |AgreeingPairs(ids + Repeat(id, n))| == |AgreeingPairs(ids)| + C2(n)
  {
    if n == 0 {
      assert ids + Repeat(id, 0) == ids;
    } else {
      RepeatedAgree(ids, id, n - 1);
      RepeatMore(ids, id, n - 1);
      RepeatedCount(ids, id, n - 1);
      AgreeingPairsStep(ids + Repeat(id, n - 1), id);
      C2Step(n - 1);
    }
  }

  /** The reported number of pairs is the number of row pairs sharing a block. */
  lemma {:induction false} PairCountIsExact(sizes: seq<nat>)
    ensures PairCount(sizes) == |AgreeingPairs(BlockIds(sizes))|
  {
    if sizes == [] {
      assert AgreeingPairs(BlockIds(sizes)) == {};
    } else {
      var m := |sizes| - 1;
      PairCountIsExact(sizes[..m]);
      RepeatedAgree(BlockIds(sizes[..m]), m, sizes[m]);
    }
  }

  /** With singleton blocks there is nothing to compare: the ingest-only measurement. */
  lemma {:induction false} SingletonsCompareNothing(sizes: seq<nat>)
    ensures PairCount(sizes) == 0 <==> forall k :: 0 <= k < |sizes| ==> sizes[k] <= 1
  {
    if sizes != [] {
      var m := |sizes| - 1;
      SingletonsCompareNothing(sizes[..m]);
      assert C2(0) == 0 && C2(1) == 0;
      if sizes[m] >= 2 {
        TriangleIsC2(sizes[m]);
      }
      assert forall k :: 0 <= k < m ==> sizes[..m][k] == sizes[k];
    }
  }

  ghost function RowHits<K>(emit: Emitter, keys: seq<K>, i: int, end: int): set<(int, int)> {
    set p | p in AgreeingPairs(keys) && p.0 == i && p.1 < end && emit(p.0, p.1) != []
  }

  /** The pairs i < j with equal keys whose comparison passes, i below `n`. */
  ghost function Hits<K>(emit: Emitter, keys: seq<K>, n: int): set<(int, int)> {
    set p | p in AgreeingPairs(keys) && p.0 < n && emit(p.0, p.1) != []
  }

  ghost predicate AtMostOne(emit: Emitter) { forall i, j :: |emit(i, j)| <= 1 }

  lemma RowHitsStep<K>(emit: Emitter, keys: seq<K>, i: nat, last: nat)
    requires i < last < |keys|
    ensures RowHits(emit, keys, i, last + 1) ==
      RowHits(emit, keys, i, last) + if keys[i] == keys[last] && emit(i, last) != [] then {(i, last)} else {}
    ensures (i, last) !in RowHits(emit, keys, i, last)
  {
  }

  lemma {:induction false} RowHitsCounted<K>(emit: Emitter, keys: seq<K>, i: nat, end: nat)
    requires i < |keys| && end <= |keys| && AtMostOne(emit)
    ensures |BruteRow(emit, keys, i, end)| == |RowHits(emit, keys, i, end)|
  {
    if end <= i + 1 {
      assert RowHits(emit, keys, i, end) == {};
    } else {
      RowHitsCounted(emit, keys, i, end - 1);
      RowHitsStep(emit, keys, i, end - 1);
      assert |emit(i, end - 1)| <= 1;
    }
  }

  lemma HitsByRow<K>(emit: Emitter, keys: seq<K>, i: int)
    ensures |Hits(emit, keys, i + 1)| == |Hits(emit, keys, i)| + |RowHits(emit, keys, i, |keys|)|
    ensures |Hits(emit, keys, 0)| == 0
  {
    assert Hits(emit, keys, 0) == {};
    var A, B := Hits(emit, keys, i), RowHits(emit, keys, i, |keys|);
    assert A !! B;
    assert Hits(emit, keys, i + 1) == A + B;
  }

  lemma HitsStep<K>(emit: Emitter, keys: seq<K>, n: nat)
    requires n < |keys| && AtMostOne(emit) && |Brute(emit, keys, n)| == |Hits(emit, keys, n)|
    ensures |Brute(emit, keys, n + 1)| == |Hits(emit, keys, n + 1)|
  {
    HitsByRow(emit, keys, n);
    BruteStep(emit, keys, n);
    RowHitsCounted(emit, keys, n, |keys|);
  }

  lemma {:induction false} HitsCounted<K>(emit: Emitter, keys: seq<K>, n: nat)
    requires n <= |keys| && AtMostOne(emit)
    ensures |Brute(emit, keys, n)| == |Hits(emit, keys, n)|
  {
    if n == 0 {
      HitsByRow(emit, keys, 0);
    } else {
      HitsCounted(emit, keys, n - 1);
      HitsStep(emit, keys, n - 1);
    }
  }

  /** The comparison of rows i and j emits `t`. */
  ghost predicate Emits<K>(emit: Emitter, keys: seq<K>, i: int, j: int, t: Triple)
    requires 0 <= i < |keys| && 0 <= j < |keys|
  {
    keys[i] == keys[j] && t in emit(i, j)
  }

  lemma {:induction false} RowMembers<K>(emit: Emitter, keys: seq<K>, i: nat, end: nat, t: Triple)
    requires i < |keys| && end <= |keys|
    ensures t in BruteRow(emit, keys, i, end) <==> exists j :: i < j < end && Emits(emit, keys, i, j, t)
  {
    if end > i + 1 {
      RowMembers(emit, keys, i, end - 1, t);
      assert Emits(emit, keys, i, end - 1, t) <==> keys[i] == keys[end - 1] && t in emit(i, end - 1);
    }
  }

  /** Comparing row i with some later row emits `t`. */
  ghost predicate RowEmits<K>(emit: Emitter, keys: seq<K>, i: int, t: Triple)
    requires 0 <= i < |keys|
  {
    exists j :: i < j < |keys| && Emits(emit, keys, i, j, t)
  }

  /** Some row before `n` emits `t` with some later row. */
  ghost predicate EmittedBefore<K>(emit: Emitter, keys: seq<K>, n: nat, t: Triple)
    requires n <= |keys|
  {
    exists i :: 0 <= i < n && RowEmits(emit, keys, i, t)
  }

  lemma EmittedStep<K>(emit: Emitter, keys: seq<K>, n: nat, t: Triple)
    requires n < |keys|
    ensures EmittedBefore(emit, keys, n + 1, t) <==> EmittedBefore(emit, keys, n, t) || RowEmits(emit, keys, n, t)
  {
  }

  lemma MembersStep<K>(emit: Emitter, keys: seq<K>, n: nat, t: Triple)
    requires n < |keys|
    ensures t in Brute(emit, keys, n + 1) <==> t in Brute(emit, keys, n) || RowEmits(emit, keys, n, t)
  {
    RowMembers(emit, keys, n, |keys|, t);
    var before, row := Brute(emit, keys, n), BruteRow(emit, keys, n, |keys|);
    assert t in before + row <==> t in before || t in row;
  }

  lemma {:induction false} BruteMembers<K>(emit: Emitter, keys: seq<K>, n: nat, t: Triple)
    requires n <= |keys|
    ensures t in Brute(emit, keys, n) <==> EmittedBefore(emit, keys, n, t)
  {
    if n > 0 {
      var m := n - 1;
      BruteMembers(emit, keys, m, t);
      MembersStep(emit, keys, m, t);
      EmittedStep(emit, keys, m, t);
    }
  }

  /** Some pair of rows i < j shares a key, and comparing it gives exactly `t`. */
  ghost predicate SomePairGives<K>(x: Input, keys: seq<K>, t: Triple)
    requires x.Valid(|keys|)
  {
    exists i, j :: 0 <= i < j < |keys| && keys[i] == keys[j] && Emit(x, |keys|, i, j) == [t]
  }

  lemma RowsGivePairs<K>(x: Input, keys: seq<K>, emit: Emitter, t: Triple)
    requires x.Valid(|keys|) && emit == EmitterOf(x, |keys|)
    ensures EmittedBefore(emit, keys, |keys|, t) <==> SomePairGives(x, keys, t)
  {
    var n := |keys|;
    forall i, j | 0 <= i < j < n
      ensures Emits(emit, keys, i, j, t) <==> keys[i] == keys[j] && Emit(x, n, i, j) == [t]
    {}
    if SomePairGives(x, keys, t) {
      var i, j :| 0 <= i < j < n && keys[i] == keys[j] && Emit(x, n, i, j) == [t];
      assert Emits(emit, keys, i, j, t) && RowEmits(emit, keys, i, t);
    }
  }

  /** Exactly one triple for each pair of rows i < j that share a key and pass the
      comparison, and no other triple. */
  lemma OneTriplePerHit<K>(x: Input, keys: seq<K>, t: Triple)
    requires x.Valid(|keys|)
    ensures var emit := EmitterOf(x, |keys|);
      && |Brute(emit, keys, |keys|)| == |Hits(emit, keys, |keys|)|
      && (t in Brute(emit, keys, |keys|) <==> SomePairGives(x, keys, t))
  {
    var emit := EmitterOf(x, |keys|);
    HitsCounted(emit, keys, |keys|);
    BruteMembers(emit, keys, |keys|, t);
    RowsGivePairs(x, keys, emit, t);
  }

  lemma SafeMeansNoFailure(x: Input, ids: seq<int>)
    requires x.Valid(|ids|)
    ensures AllSafe(GuardOf(x, |ids|), ids, 0, |ids|) <==> forall p :: p in AgreeingPairs(ids) ==> !Fails(x, p.0, p.1)
  {
    var safe := GuardOf(x, |ids|);
    forall p | p in AgreeingPairs(ids) ensures safe(p.0, p.1) <==> !Fails(x, p.0, p.1) {
      ComparisonPasses(x, |ids|, p.0, p.1);
    }
    if AllSafe(safe, ids, 0, |ids|) {
      forall p | p in AgreeingPairs(ids) ensures safe(p.0, p.1) {
        assert RowSafe(safe, ids, p.0);
      }
    } else if forall p :: p in AgreeingPairs(ids) ==> !Fails(x, p.0, p.1) {
      forall i, j | 0 <= i < j < |ids| && ids[j] == ids[i] ensures safe(i, j) {
        assert (i, j) in AgreeingPairs(ids);
      }
    }
  }

  lemma HitsPass(x: Input, ids: seq<int>)
    requires x.Valid(|ids|)
    ensures Hits(EmitterOf(x, |ids|), ids, |ids|) == PassingPairs(x, ids)
  {
    forall p | p in AgreeingPairs(ids) ensures EmitterOf(x, |ids|)(p.0, p.1) != [] <==> Passes(x, p.0, p.1) {
      ComparisonPasses(x, |ids|, p.0, p.1);
    }
  }

  lemma GivenMeansScored(x: Input, ids: seq<int>, t: Triple)
    requires x.Valid(|ids|)
    ensures SomePairGives(x, ids, t) <==> Scored(x, ids, t)
  {
    if SomePairGives(x, ids, t) {
      var i, j :| 0 <= i < j < |ids| && ids[i] == ids[j] && Emit(x, |ids|, i, j) == [t];
      EmitMeaning(x, |ids|, i, j, t);
      assert (i, j) in AgreeingPairs(ids);
    }
    if Scored(x, ids, t) {
      var p :| p in AgreeingPairs(ids) && Passes(x, p.0, p.1) && IsTripleOf(x, p.0, p.1, t);
      EmitMeaning(x, |ids|, p.0, p.1, t);
    }
  }

  /** Brute force over the blocks is what the scorer owes. */
  lemma LoopOutcome(x: Input, ids: seq<int>, ok: bool, out: seq<Triple>)
    requires x.Valid(|ids|) && (ok <==> AllSafe(GuardOf(x, |ids|), ids, 0, |ids|))
    requires ok ==> out == Brute(EmitterOf(x, |ids|), ids, |ids|)
    ensures Outcome(x, ids, ok, out)
  {
    SafeMeansNoFailure(x, ids);
    HitsPass(x, ids);
    forall t ensures ok ==> |out| == |PassingPairs(x, ids)| && (t in out <==> Scored(x, ids, t)) {
      OneTriplePerHit(x, ids, t);
      GivenMeansScored(x, ids, t);
    }
    OneTriplePerHit(x, ids, (0, 0, 0.0));
  }
}
