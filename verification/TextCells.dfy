/** A text as a sequence of cells: single non-digit characters and maximal digit runs.

    Replacing the digits of a run keeps the cells in place, so whatever depends only on
    the skeleton of a text (its cells with every run blanked to '0') survives a rewrite
    of numbers.  This module shows that searching, splitting into lines and matching the
    words after a number all depend on the skeleton alone. */
module TextCells {
  import opened Strings

  predicate IsDigit(c: char) { '0' <= c <= '9' }

  ghost predicate AllDigits(s: string) { forall i :: 0 <= i < |s| ==> IsDigit(s[i]) }

  ghost predicate DigitFree(s: string) { forall i :: 0 <= i < |s| ==> !IsDigit(s[i]) }

  datatype Cell = Sep(c: char) | Num(digits: string)

  function Show(cell: Cell): string { match cell case Sep(c) => [c] case Num(ds) => ds }

  function Flatten(cells: seq<Cell>): string {
    if cells == [] then "" else Show(cells[0]) + Flatten(cells[1..])
  }

  ghost predicate IsCell(cell: Cell) {
    match cell case Sep(c) => !IsDigit(c) case Num(ds) => ds != "" && AllDigits(ds)
  }

  /** Separators are not digits, runs are not empty, and no two runs are adjacent. */
  ghost predicate Lexed(cells: seq<Cell>) {
    && (forall k :: 0 <= k < |cells| ==> IsCell(cells[k]))
    && (forall j, k :: 0 <= j < |cells| && k == j + 1 && k < |cells| ==> !(cells[j].Num? && cells[k].Num?))
  }

  function Lex(s: string): (cells: seq<Cell>)
    ensures Lexed(cells) && Flatten(cells) == s
  {
    if s == "" then []
    else
      var rest := Lex(s[1..]);
      if !IsDigit(s[0]) then [Sep(s[0])] + rest
      else if rest != [] && rest[0].Num? then [Num([s[0]] + rest[0].digits)] + rest[1..]
      else [Num([s[0]])] + rest
  }

  function Blank(cell: Cell): char { match cell case Sep(c) => c case Num(_) => '0' }

  function Skeleton(cells: seq<Cell>): (s: string)
    ensures |s| == |cells| && forall k :: 0 <= k < |s| ==> s[k] == Blank(cells[k])
  {
    seq(|cells|, k requires 0 <= k < |cells| => Blank(cells[k]))
  }

  /** Number of leading digits. */
  function DigitRun(s: string): (n: nat)
    ensures n <= |s|
  {
    if s == "" || !IsDigit(s[0]) then 0 else 1 + DigitRun(s[1..])
  }

  lemma TailIsLexed(cells: seq<Cell>)
    requires Lexed(cells) && cells != []
    ensures Lexed(cells[1..])
    ensures cells[0].Num? && |cells| > 1 ==> cells[1].Sep?
    ensures Skeleton(cells) == [Blank(cells[0])] + Skeleton(cells[1..])
    ensures Skeleton(cells)[1..] == Skeleton(cells[1..])
  {
    assert IsCell(cells[0]);
  }

  /** What a lexed text begins with. */
  lemma FirstChar(cells: seq<Cell>)
    requires Lexed(cells)
    ensures Flatten(cells) == "" <==> cells == []
    ensures cells != [] ==> (cells[0].Num? <==> IsDigit(Flatten(cells)[0]))
    ensures cells != [] && cells[0].Sep? ==>
      Flatten(cells)[0] == cells[0].c && Flatten(cells)[1..] == Flatten(cells[1..])
  {
    if cells != [] {
      assert IsCell(cells[0]);
      var head := Show(cells[0]);
      assert head != "" && Flatten(cells) == head + Flatten(cells[1..]);
      assert Flatten(cells)[0] == head[0];
    }
  }

  lemma {:induction false} RunLength(ds: string, rest: string)
    requires AllDigits(ds) && (rest == "" || !IsDigit(rest[0]))
    ensures DigitRun(ds + rest) == |ds|
  {
    if ds == "" {
      assert ds + rest == rest;
    } else {
      assert (ds + rest)[1..] == ds[1..] + rest;
      RunLength(ds[1..], rest);
    }
  }

  lemma {:induction false} LexRun(ds: string, cells: seq<Cell>)
    requires ds != "" && AllDigits(ds) && (cells == [] || cells[0].Sep?)
    requires Lex(Flatten(cells)) == cells
    ensures Lex(ds + Flatten(cells)) == [Num(ds)] + cells
  {
    var s := ds + Flatten(cells);
    assert s[1..] == ds[1..] + Flatten(cells);
    if |ds| == 1 {
      assert s[1..] == Flatten(cells) && ds == [ds[0]];
    } else {
      LexRun(ds[1..], cells);
      assert [ds[0]] + ds[1..] == ds;
    }
  }

  /** Lexing the text of lexed cells gives the cells back. */
  lemma {:induction false} LexFlatten(cells: seq<Cell>)
    requires Lexed(cells)
    ensures Lex(Flatten(cells)) == cells
  {
    if cells != [] {
      TailIsLexed(cells);
      FirstChar(cells);
      LexFlatten(cells[1..]);
      assert cells == [cells[0]] + cells[1..];
      if cells[0].Num? {
        assert IsCell(cells[0]);
        LexRun(cells[0].digits, cells[1..]);
      }
    }
  }

  // ------------------------------------------------ searching by skeleton

  lemma HeadsDiffer(m: string, s: string)
    requires m != "" && s != "" && m[0] != s[0]
    ensures !(m <= s)
  {
  }

  lemma PrefixTail(m: string, s: string)
    requires m != "" && s != "" && m[0] == s[0]
    ensures m <= s <==> m[1..] <= s[1..]
    ensures m <= s ==> s[|m|..] == s[1..][|m[1..]|..]
  {
    assert m == [m[0]] + m[1..] && s == [s[0]] + s[1..];
  }

  /** Digit-free text at the head of a text is at the head of its skeleton. */
  lemma {:induction false} PrefixBySkeleton(cells: seq<Cell>, w: string)
    requires Lexed(cells) && DigitFree(w)
    ensures w <= Flatten(cells) <==> w <= Skeleton(cells)
    ensures w <= Skeleton(cells) ==> Flatten(cells)[|w|..] == Flatten(cells[|w|..])
    decreases |w|
  {
    FirstChar(cells);
    if w != "" && cells != [] {
      TailIsLexed(cells);
      PrefixBySkeleton(cells[1..], w[1..]);
      PrefixStep(cells, w);
    }
  }

  lemma PrefixStep(cells: seq<Cell>, w: string)
    requires Lexed(cells) && DigitFree(w) && w != "" && cells != []
    requires w[1..] <= Flatten(cells[1..]) <==> w[1..] <= Skeleton(cells)[1..]
    requires w[1..] <= Skeleton(cells)[1..] ==> Flatten(cells[1..])[|w[1..]|..] == Flatten(cells[1..][|w[1..]|..])
    ensures w <= Flatten(cells) <==> w <= Skeleton(cells)
    ensures w <= Skeleton(cells) ==> Flatten(cells)[|w|..] == Flatten(cells[|w|..])
  {
    FirstChar(cells);
    var s, t := Flatten(cells), Skeleton(cells);
    assert !IsDigit(w[0]);
    if cells[0].Num? || w[0] != cells[0].c {
      HeadsDiffer(w, s);
      HeadsDiffer(w, t);
    } else {
      PrefixTail(w, s);
      PrefixTail(w, t);
      if w <= t { assert cells[1..][|w[1..]|..] == cells[|w|..]; }
    }
  }

  lemma {:induction false} SearchSkipsDigits(ds: string, rest: string, m: string)
    requires AllDigits(ds) && DigitFree(m) && m != ""
    ensures Contains(ds + rest, m) <==> Contains(rest, m)
  {
    if ds == "" {
      assert ds + rest == rest;
    } else {
      var s := ds + rest;
      assert s[1..] == ds[1..] + rest && s[0] == ds[0];
      assert IsDigit(s[0]) && !IsDigit(m[0]);
      HeadsDiffer(m, s);
      SearchSkipsDigits(ds[1..], rest, m);
    }
  }

  /** A digit-free marker occurs in a text exactly when it occurs in the skeleton. */
  lemma {:induction false} ContainsBySkeleton(cells: seq<Cell>, m: string)
    requires Lexed(cells) && DigitFree(m)
    ensures Contains(Flatten(cells), m) <==> Contains(Skeleton(cells), m)
  {
    PrefixBySkeleton(cells, m);
    FirstChar(cells);
    if cells != [] && m != "" {
      TailIsLexed(cells);
      ContainsBySkeleton(cells[1..], m);
      if cells[0].Num? {
        assert IsCell(cells[0]);
        SearchSkipsDigits(cells[0].digits, Flatten(cells[1..]), m);
        assert !IsDigit(m[0]);
        HeadsDiffer(m, Skeleton(cells));
      }
    }
  }

  lemma {:induction false} FlattenConcat(a: seq<Cell>, b: seq<Cell>)
    ensures Flatten(a + b) == Flatten(a) + Flatten(b)
    decreases |a|
  {
    if a == [] {
      assert a + b == b;
    } else {
      var tail := a[1..];
      FlattenConcat(tail, b);
      assert (a + b)[1..] == tail + b && (a + b)[0] == a[0];
      assert Show(a[0]) + (Flatten(tail) + Flatten(b)) == Show(a[0]) + Flatten(tail) + Flatten(b);
    }
  }

  lemma PartsAreLexed(cells: seq<Cell>, k: nat)
    requires Lexed(cells) && k <= |cells|
    ensures Lexed(cells[..k]) && Lexed(cells[k..])
  {
  }

  lemma TextSplit(cells: seq<Cell>, k: nat)
    requires k <= |cells|
    ensures Flatten(cells) == Flatten(cells[..k]) + Flatten(cells[k..])
  {
    FlattenConcat(cells[..k], cells[k..]);
    assert cells[..k] + cells[k..] == cells;
  }

  lemma FlattenSplit(cells: seq<Cell>, k: nat)
    requires Lexed(cells) && k <= |cells|
    ensures Lexed(cells[..k]) && Lexed(cells[k..])
    ensures Flatten(cells) == Flatten(cells[..k]) + Flatten(cells[k..])
  {
    PartsAreLexed(cells, k);
    TextSplit(cells, k);
  }

  /** Where cell `k` begins in the text. */
  function Offset(cells: seq<Cell>, k: nat): nat
    requires k <= |cells|
  {
    |Flatten(cells[..k])|
  }

  lemma OffsetStep(cells: seq<Cell>, k: nat)
    requires 0 < k <= |cells|
    ensures Offset(cells, k) == |Show(cells[0])| + Offset(cells[1..], k - 1)
  {
    assert cells[..k] == [cells[0]] + cells[1..][..k - 1];
  }

  lemma FlattenOne(cell: Cell)
    ensures Flatten([cell]) == Show(cell)
  {
    assert [cell][1..] == [];
    assert Show(cell) + "" == Show(cell);
  }

  lemma OffsetGrows(cells: seq<Cell>, k: nat)
    requires k < |cells|
    ensures Offset(cells, k + 1) == Offset(cells, k) + |Show(cells[k])|
  {
    FlattenConcat(cells[..k], [cells[k]]);
    FlattenOne(cells[k]);
    assert cells[..k + 1] == cells[..k] + [cells[k]];
  }

  lemma TailText(cells: seq<Cell>, k: nat)
    requires k < |cells|
    ensures cells[k..] == [cells[k]] + cells[k + 1..]
    ensures Flatten(cells[k..]) == Show(cells[k]) + Flatten(cells[k + 1..])
  {
    assert cells[k..][1..] == cells[k + 1..];
  }

  lemma SkeletonTail(cells: seq<Cell>, k: nat)
    requires k <= |cells|
    ensures Skeleton(cells)[k..] == Skeleton(cells[k..])
  {
  }

  lemma Slices(t: string, a: string, b: string, c: string)
    requires t == a + (b + c)
    ensures t[|a|..|a| + |b|] == b && t[|a|..] == b + c && t[|a| + |b|..] == c
  {
  }

  lemma CutAt(cells: seq<Cell>, k: nat)
    requires k <= |cells|
    ensures var t, p := Flatten(cells), Offset(cells, k);
      p <= |t| && t[..p] == Flatten(cells[..k]) && t[p..] == Flatten(cells[k..])
  {
    TextSplit(cells, k);
  }

  /** The text from cell `k` on, taken apart at its first cell. */
  lemma CellAt(cells: seq<Cell>, k: nat)
    requires Lexed(cells) && k < |cells|
    ensures var t := Flatten(cells);
      && Offset(cells, k + 1) == Offset(cells, k) + |Show(cells[k])| <= |t|
      && t[Offset(cells, k)..Offset(cells, k + 1)] == Show(cells[k])
      && t[Offset(cells, k)..] == Flatten(cells[k..]) && t[Offset(cells, k + 1)..] == Flatten(cells[k + 1..])
      && cells[k..] == [cells[k]] + cells[k + 1..] && Lexed(cells[k..]) && Lexed(cells[k + 1..])
    ensures Skeleton(cells)[k..] == Skeleton(cells[k..])
    ensures Offset(cells, k) < Offset(cells, k + 1)
  {
    PartsAreLexed(cells, k);
    PartsAreLexed(cells, k + 1);
    SkeletonTail(cells, k);
    CellText(cells, k);
    TailText(cells, k);
    assert IsCell(cells[k]);
  }

  lemma CellText(cells: seq<Cell>, k: nat)
    requires k < |cells|
    ensures Offset(cells, k + 1) == Offset(cells, k) + |Show(cells[k])| <= |Flatten(cells)|
    ensures var t := Flatten(cells);
      && t[Offset(cells, k)..Offset(cells, k + 1)] == Show(cells[k])
      && t[Offset(cells, k)..] == Flatten(cells[k..]) && t[Offset(cells, k + 1)..] == Flatten(cells[k + 1..])
  {
    OffsetGrows(cells, k);
    TailText(cells, k);
    TextSplit(cells, k);
    Slices(Flatten(cells), Flatten(cells[..k]), Show(cells[k]), Flatten(cells[k + 1..]));
  }
}
