/** Decimal numerals: `str` of a count and `int` of a digit run.

    Numerals are written most significant digit first, without leading zeros, and are
    never empty; reading accepts leading zeros and any number of digits, so reading is
    the inverse of writing but not the other way round.  Numbers are unbounded, as in
    the source.  Digits are the ten ASCII digits. */
module Decimals {
  import opened TextCells

  function Digit(d: nat): char
    requires d < 10
  {
    (('0' as int) + d) as char
  }

  /** `str(n)`. */
  function Str(n: nat): string {
    if n < 10 then [Digit(n)] else Str(n / 10) + [Digit(n % 10)]
  }

  /** `int(s)` of a digit run; leading zeros are allowed. */
  function Val(s: string): nat {
    if s == "" then 0
    else Val(s[..|s| - 1]) * 10 + (if IsDigit(s[|s| - 1]) then s[|s| - 1] as int - '0' as int else 0)
  }

  lemma {:induction false} Positive(s: string)
    requires s != "" && AllDigits(s) && s[0] != '0'
    ensures Val(s) > 0
  {
    if |s| > 1 {
      Positive(s[..|s| - 1]);
    }
  }

  lemma StrMore(n: nat, d: nat)
    requires n > 0 && d < 10
    ensures Str(n * 10 + d) == Str(n) + [Digit(d)]
  {
  }

  /** Reading a numeral and writing it back: what is read without a leading zero is written
      the same. */
  lemma {:induction false} StrVal(s: string)
    requires s != "" && AllDigits(s) && (|s| == 1 || s[0] != '0')
    ensures Str(Val(s)) == s
  {
    var front, c := s[..|s| - 1], s[|s| - 1];
    assert s == front + [c] && IsDigit(c);
    if front != "" {
      StrVal(front);
      Positive(front);
      StrMore(Val(front), c as int - '0' as int);
    } else {
      assert Val("") == 0;
    }
  }

  /** Leading zeros do not count. */
  lemma {:induction false} LeadingZero(s: string)
    ensures Val("0" + s) == Val(s)
  {
    if s != "" {
      LeadingZero(s[..|s| - 1]);
      assert ("0" + s)[..|s|] == "0" + s[..|s| - 1];
    } else {
      assert "0" + s == "0" && "0"[..0] == "";
    }
  }

  /** Writing a count and reading it back. */
  lemma {:induction false} ValStr(n: nat)
    ensures Str(n) != "" && AllDigits(Str(n)) && Val(Str(n)) == n
  {
    if n < 10 {
      assert Str(n)[..0] == "" && Val("") == 0;
    } else {
      ValStr(n / 10);
      var front, d := Str(n / 10), Digit(n % 10);
      assert (front + [d])[..|front|] == front;
      assert IsDigit(d);
    }
  }
}
