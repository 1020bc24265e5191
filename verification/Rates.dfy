/** Proportions of counts and their harmonic mean, over the reals.

    The source guards every division: a proportion of nothing is 0, and so is a harmonic
    mean of zeros.  Sums of equal terms are kept as `Times`, a sum, rather than as a
    product, so that the proofs about averages stay linear; the facts below are all the
    multiplication and division the scoring proofs need.  In particular the F1 of two
    proportions with one numerator is again a proportion of counts, which turns
    comparisons of F1 into comparisons of whole numbers. */
module Rates {

  function Ratio(hit: nat, of: nat): real { if of != 0 then hit as real / of as real else 0.0 }

  function HarmonicMean(p: real, r: real): real { if p + r != 0.0 then 2.0 * p * r / (p + r) else 0.0 }

  /** `p` added up `n` times. */
  function Times(n: nat, p: real): real { if n == 0 then 0.0 else Times(n - 1, p) + p }

  lemma {:induction false} TimesIsProduct(n: nat, p: real)
    ensures Times(n, p) == n as real * p
  {
    if n > 0 {
      TimesIsProduct(n - 1, p);
      assert n as real * p == (n - 1) as real * p + p;
    }
  }

  lemma {:induction false} Distribute(a: nat, b: nat, p: real)
    ensures Times(a + b, p) == Times(a, p) + Times(b, p)
  {
    if b > 0 {
      Distribute(a, b - 1, p);
    }
  }

  lemma {:induction false} TimesAdds(n: nat, x: real, y: real)
    ensures Times(n, x + y) == Times(n, x) + Times(n, y)
  {
    if n > 0 {
      TimesAdds(n - 1, x, y);
    }
  }

  lemma QuotientIs(x: real, y: real, q: real)
    requires y != 0.0 && q * y == x
    ensures x / y == q
  {
  }

  lemma HarmonicOfQuotients(prec: real, rec: real, t: real, p: real, s: real)
    requires prec * p == t && rec * s == t && p > 0.0 && s > 0.0 && t > 0.0
    ensures prec + rec > 0.0 && 2.0 * prec * rec / (prec + rec) == 2.0 * t / (p + s)
  {
    assert prec > 0.0 && rec > 0.0;
    var q := 2.0 * t / (p + s);
    assert q * (p + s) == 2.0 * t;
    var x, y := prec * s, rec * p;
    assert prec * rec * (p + s) == t * (prec + rec) by {
      assert prec * rec * p == rec * t && prec * rec * s == prec * t;
    }
    calc {
      q * (prec + rec) * (p + s);
      (q * (p + s)) * (prec + rec);
      2.0 * t * (prec + rec);
      2.0 * (t * (prec + rec));
      2.0 * (prec * rec * (p + s));
      2.0 * prec * rec * (p + s);
    }
    Cancel(q * (prec + rec), 2.0 * prec * rec, p + s);
    QuotientIs(2.0 * prec * rec, prec + rec, q);
  }

  lemma RatioTimes(hit: nat, of: nat)
    requires of != 0
    ensures Ratio(hit, of) * of as real == hit as real
  {
  }

  lemma Cancel(x: real, y: real, k: real)
    requires k != 0.0 && x * k == y * k
    ensures x == y
  {
  }

  /** F1 in terms of pair counts alone. */
  lemma F1OfCounts(tp: nat, predPairs: nat, truePairs: nat)
    requires tp <= predPairs && tp <= truePairs
    ensures HarmonicMean(Ratio(tp, predPairs), Ratio(tp, truePairs)) == Ratio(2 * tp, predPairs + truePairs)
  {
    if tp > 0 {
      var t, p, s := tp as real, predPairs as real, truePairs as real;
      HarmonicOfQuotients(t / p, t / s, t, p, s);
    }
  }

  lemma RatioInUnit(hit: nat, of: nat)
    requires hit <= of
    ensures 0.0 <= Ratio(hit, of) <= 1.0
    ensures Ratio(hit, of) == 1.0 <==> hit == of && of != 0
  {
    if of != 0 {
      RatioTimes(hit, of);
      if hit == of { QuotientIs(hit as real, of as real, 1.0); }
    }
  }

  lemma SignOf(u: real, d: real)
    requires d > 0.0
    ensures u <= 0.0 ==> u * d <= 0.0
    ensures u < 0.0 ==> u * d < 0.0
  {
  }

  lemma RatioAntitone(h: nat, a: nat, b: nat)
    requires 0 < a <= b
    ensures Ratio(h, b) <= Ratio(h, a)
  {
    var x, y := Ratio(h, a), Ratio(h, b);
    RatioTimes(h, a);
    RatioTimes(h, b);
    var n, m := a as real, b as real;
    assert (x - y) * m == x * (m - n) by {
      assert x * n == h as real == y * m;
    }
    assert x >= 0.0 && x * (m - n) >= 0.0;
    SignOf(x - y, m);
  }
}
