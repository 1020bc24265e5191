/** scripts/check_llms_counts.py: stated counts, checked and rewritten in place.

    The checker scans a text for digit runs followed by certain words, skips the lines
    that carry a declared marker, and compares the numbers with the expected total; the
    rewriter replaces the digits of the wrong ones.  The question is whether the text it
    writes passes the checker.

    The proof goes through the cells of a text (module TextCells).  A rewrite changes the
    digits of some runs and nothing else, so it keeps the skeleton, and with it the runs
    that match and the ends of the lines; lines that were skipped are not changed, so
    they are skipped again; and what is counted afterwards was counted before and is now
    right. */
module CheckLlmsCounts {
  import opened Decimals
  import opened Options
  import opened Strings
  import opened TextCells

  // -------------------------------------------------------------- patterns

  /** A count pattern: digits, an optional '+', white space and the words, with no
      character of `inner` right after them.  For a pattern that ends at a word boundary
      these are the word characters, whichever those are; the digits are among them. */
  datatype Pattern = Pattern(plus: bool, words: string, inner: set<char>)
  {
    ghost predicate Valid() {
      && words != "" && DigitFree(words) && !IsSpace(words[0])
      && forall c :: IsDigit(c) ==> (c in inner <==> '0' in inner)
    }
  }

  function Tools(word: set<char>): Pattern { Pattern(false, "tools", word) }
  function Exports(word: set<char>): Pattern { Pattern(false, "exports", word) }
  function Skills(word: set<char>): Pattern { Pattern(false, "skills", word) }
  const SUITE_TOTAL := Pattern(true, "tools across the suite", {})

  function StripPlus(t: string, pat: Pattern): string {
    if pat.plus && t != "" && t[0] == '+' then t[1..] else t
  }

  /** The number of leading white-space characters. */
  function Spaces(t: string): (n: nat)
    ensures n <= |t| && forall i :: 0 <= i < n ==> IsSpace(t[i])
  {
    if t != "" && IsSpace(t[0]) then 1 + Spaces(t[1..]) else 0
  }

  /** The words stand at the head of `v` and end there. */
  predicate WordsAt(v: string, pat: Pattern) {
    pat.words <= v && (|v| == |pat.words| || v[|pat.words|] !in pat.inner)
  }

  /** White space, then the words. */
  predicate SpacedWords(u: string, pat: Pattern) {
    Spaces(u) > 0 && WordsAt(u[Spaces(u)..], pat)
  }

  /** The text after a digit run completes a match. */
  predicate Follows(t: string, pat: Pattern) { SpacedWords(StripPlus(t, pat), pat) }

  /** How much text after the digits the match takes. */
  function FollowLength(t: string, pat: Pattern): (n: nat)
    requires Follows(t, pat)
    ensures n <= |t|
  {
    var u := StripPlus(t, pat);
    |t| - |u| + Spaces(u) + |pat.words|
  }

  /** A match, by the span of its digits. */
  datatype Match = Match(start: nat, end: nat)

  /** What a pattern asks of the text after the digits: how much of it the match takes,
      or -1 if it does not match. */
  type Tail = string -> int

  ghost predicate Fits(after: Tail) { forall t :: after(t) <= |t| }

  function TailOf(pat: Pattern): (after: Tail)
    ensures Fits(after)
    ensures forall t :: after(t) == if Follows(t, pat) then FollowLength(t, pat) else -1
  {
    t => if Follows(t, pat) then FollowLength(t, pat) else -1
  }

  /** Where the digits at `pos` end. */
  function RunEnd(text: string, pos: nat): (q: nat)
    requires pos <= |text|
    ensures pos <= q <= |text|
  {
    pos + DigitRun(text[pos..])
  }

  /** `pattern.finditer(text)` from position `pos` on: leftmost matches, not overlapping. */
  function FindIter(text: string, after: Tail, pos: nat): seq<Match>
    requires pos <= |text| && Fits(after)
    decreases |text| - pos
  {
    if pos == |text| then []
    else
      var q := RunEnd(text, pos);
      var n := after(text[q..]);
      if pos < q && n >= 0 then [Match(pos, q)] + FindIter(text, after, q + n)
      else FindIter(text, after, pos + 1)
  }

  /** Spans in increasing order, not overlapping, between `lo` and `hi`. */
  predicate Ordered(ms: seq<Match>, lo: nat, hi: nat) {
    ms == [] || (lo <= ms[0].start < ms[0].end <= hi && Ordered(ms[1..], ms[0].end, hi))
  }

  lemma OrderedFrom(ms: seq<Match>, lo: nat, lo': nat, hi: nat)
    requires Ordered(ms, lo', hi) && lo <= lo'
    ensures Ordered(ms, lo, hi)
  {
  }

  lemma OrderedPush(m: Match, ms: seq<Match>, lo: nat, next: nat, hi: nat)
    requires lo <= m.start < m.end <= next <= hi && Ordered(ms, next, hi)
    ensures Ordered([m] + ms, lo, hi)
  {
    OrderedFrom(ms, m.end, next, hi);
    assert ([m] + ms)[1..] == ms;
  }

  lemma {:induction false} FoundInOrder(text: string, after: Tail, pos: nat)
    requires pos <= |text| && Fits(after)
    ensures Ordered(FindIter(text, after, pos), pos, |text|)
    decreases |text| - pos
  {
    if pos < |text| {
      var q := RunEnd(text, pos);
      var n := after(text[q..]);
      if pos < q && n >= 0 {
        FoundInOrder(text, after, q + n);
        OrderedPush(Match(pos, q), FindIter(text, after, q + n), pos, q + n, |text|);
      } else {
        FoundInOrder(text, after, pos + 1);
        OrderedFrom(FindIter(text, after, pos + 1), pos, pos + 1, |text|);
      }
    }
  }

  // --------------------------------------------------------------- matching

  lemma DropDrop<T>(t: seq<T>, n: nat)
    requires t != [] && n < |t|
    ensures t[1..][n..] == t[n + 1..]
  {
  }

  lemma {:induction false} SpacesBySkeleton(cells: seq<Cell>)
    requires Lexed(cells)
    ensures var n := Spaces(Skeleton(cells));
      && Spaces(Flatten(cells)) == n && n <= |cells|
      && Flatten(cells)[n..] == Flatten(cells[n..]) && Skeleton(cells)[n..] == Skeleton(cells[n..])
  {
    SkeletonTail(cells, Spaces(Skeleton(cells)));
    FirstChar(cells);
    if cells != [] {
      TailIsLexed(cells);
      if cells[0].Num? {
        assert !IsSpace(Flatten(cells)[0]);
      } else if IsSpace(cells[0].c) {
        SpacesBySkeleton(cells[1..]);
        var n := Spaces(Skeleton(cells[1..]));
        DropDrop(cells, n);
        DropDrop(Flatten(cells), n);
      }
    }
  }

  lemma WordsBySkeleton(cells: seq<Cell>, pat: Pattern)
    requires Lexed(cells) && pat.Valid()
    ensures WordsAt(Flatten(cells), pat) <==> WordsAt(Skeleton(cells), pat)
  {
    var w := |pat.words|;
    PrefixBySkeleton(cells, pat.words);
    if pat.words <= Skeleton(cells) {
      PartsAreLexed(cells, w);
      SkeletonTail(cells, w);
      FirstChar(cells[w..]);
      if w < |cells| {
        assert Flatten(cells)[w] == Flatten(cells[w..])[0];
        assert IsCell(cells[w]);
      }
    }
  }

  lemma SpacedWordsBySkeleton(cells: seq<Cell>, pat: Pattern)
    requires Lexed(cells) && pat.Valid()
    ensures SpacedWords(Flatten(cells), pat) <==> SpacedWords(Skeleton(cells), pat)
  {
    SpacesBySkeleton(cells);
    var n := Spaces(Skeleton(cells));
    PartsAreLexed(cells, n);
    WordsBySkeleton(cells[n..], pat);
  }

  lemma PlusBySkeleton(cells: seq<Cell>, pat: Pattern) returns (rest: seq<Cell>)
    requires Lexed(cells)
    ensures Lexed(rest)
    ensures StripPlus(Flatten(cells), pat) == Flatten(rest) && StripPlus(Skeleton(cells), pat) == Skeleton(rest)
  {
    FirstChar(cells);
    rest := cells;
    if cells != [] {
      assert IsCell(cells[0]);
      TailIsLexed(cells);
      if pat.plus && cells[0] == Sep('+') {
        rest := cells[1..];
      }
    }
  }

  /** Whether a match completes depends on the skeleton of what follows. */
  lemma FollowsBySkeleton(cells: seq<Cell>, pat: Pattern)
    requires Lexed(cells) && pat.Valid()
    ensures Follows(Flatten(cells), pat) <==> Follows(Skeleton(cells), pat)
  {
    var rest := PlusBySkeleton(cells, pat);
    SpacedWordsBySkeleton(rest, pat);
  }

  /** The part of a match after its digits holds no digit. */
  lemma FollowedTextIsDigitFree(t: string, pat: Pattern)
    requires Follows(t, pat) && pat.Valid()
    ensures forall i :: 0 <= i < FollowLength(t, pat) ==> !IsDigit(t[i])
  {
    var u := StripPlus(t, pat);
    var p, q := |t| - |u|, Spaces(u);
    forall i | 0 <= i < FollowLength(t, pat) ensures !IsDigit(t[i]) {
      if i < p {
        assert t[i] == '+';
      } else if i < p + q {
        assert t[i] == u[i - p] && IsSpace(u[i - p]);
      } else {
        assert t[i] == u[q..][i - p - q] == pat.words[i - p - q];
      }
    }
  }

  // -------------------------------------------- the matches, cell by cell

  /** Cell `k` is a run that completes a match. */
  predicate MatchedCell(cells: seq<Cell>, k: nat, pat: Pattern)
    requires k < |cells|
  {
    cells[k].Num? && Follows(Skeleton(cells)[k + 1..], pat)
  }

  /** The digit spans of the matched cells from `k` on. */
  function CellMatches(cells: seq<Cell>, k: nat, pat: Pattern): seq<Match>
    requires k <= |cells|
    decreases |cells| - k
  {
    if k == |cells| then []
    else (if MatchedCell(cells, k, pat) then [Match(Offset(cells, k), Offset(cells, k + 1))] else [])
         + CellMatches(cells, k + 1, pat)
  }

  /** Position `p` is inside or before a digit run that ends at `q`, digits from `p` on. */
  ghost predicate DigitsUpTo(text: string, p: nat, q: nat) {
    p <= q <= |text| && (forall i :: p <= i < q ==> IsDigit(text[i])) && (q < |text| ==> !IsDigit(text[q]))
  }

  lemma RunAt(text: string, p: nat, q: nat)
    requires DigitsUpTo(text, p, q)
    ensures RunEnd(text, p) == q
  {
    assert text[p..] == text[p..q] + text[q..];
    RunLength(text[p..q], text[q..]);
  }

  lemma FindSkipsChar(text: string, after: Tail, p: nat)
    requires Fits(after) && p < |text| && !IsDigit(text[p])
    ensures FindIter(text, after, p) == FindIter(text, after, p + 1)
  {
    RunAt(text, p, p);
  }

  lemma {:induction false} FindSkipsText(text: string, after: Tail, p: nat, q: nat)
    requires Fits(after) && p <= q <= |text| && forall i :: p <= i < q ==> !IsDigit(text[i])
    ensures FindIter(text, after, p) == FindIter(text, after, q)
    decreases q - p
  {
    if p < q {
      FindSkipsChar(text, after, p);
      FindSkipsText(text, after, p + 1, q);
    }
  }

  /** Retrying inside a run that failed to match fails again. */
  lemma {:induction false} FindSkipsRun(text: string, after: Tail, p: nat, q: nat)
    requires Fits(after) && DigitsUpTo(text, p, q) && after(text[q..]) < 0
    ensures FindIter(text, after, p) == FindIter(text, after, q)
    decreases q - p
  {
    if p < q {
      RunAt(text, p, q);
      FindSkipsRun(text, after, p + 1, q);
    }
  }

  /** A run that is followed by the words is a match, and the search resumes after it. */
  lemma FindTakesRun(text: string, after: Tail, p: nat, q: nat)
    requires Fits(after) && DigitsUpTo(text, p, q) && p < q && after(text[q..]) >= 0
    requires forall i :: q <= i < q + after(text[q..]) ==> !IsDigit(text[i])
    ensures FindIter(text, after, p) == [Match(p, q)] + FindIter(text, after, q)
  {
    var n := after(text[q..]);
    RunAt(text, p, q);
    FindSkipsText(text, after, q, q + n);
    FindUnfolds(text, after, p, q, n);
  }

  lemma FindUnfolds(text: string, after: Tail, p: nat, q: nat, n: nat)
    requires Fits(after) && p < q && q + n <= |text| && RunEnd(text, p) == q && after(text[q..]) == n
    ensures FindIter(text, after, p) == [Match(p, q)] + FindIter(text, after, q + n)
  {
  }

  lemma AfterRun(cells: seq<Cell>, k: nat)
    requires Lexed(cells) && k < |cells| && cells[k].Num?
    ensures var t, q := Flatten(cells), Offset(cells, k + 1); q <= |t| && (q < |t| ==> !IsDigit(t[q]))
  {
    CellAt(cells, k);
    var rest := cells[k + 1..];
    FirstChar(rest);
    if rest != [] {
      assert rest[0] == cells[k + 1];
      assert Flatten(cells)[Offset(cells, k + 1)] == Flatten(rest)[0];
    }
  }

  /** The text around a run. */
  lemma RunCell(cells: seq<Cell>, k: nat)
    requires Lexed(cells) && k < |cells| && cells[k].Num?
    ensures var t, p, q := Flatten(cells), Offset(cells, k), Offset(cells, k + 1);
      && p < q <= |t| && t[p..q] == cells[k].digits
      && DigitsUpTo(t, p, q)
  {
    AfterRun(cells, k);
    CellAt(cells, k);
    var t, p, q := Flatten(cells), Offset(cells, k), Offset(cells, k + 1);
    assert AllDigits(t[p..q]) by { assert IsCell(cells[k]); }
    forall i | p <= i < q ensures IsDigit(t[i]) { assert t[i] == t[p..q][i - p]; }
  }

  lemma MatchedByText(cells: seq<Cell>, k: nat, pat: Pattern)
    requires Lexed(cells) && k < |cells| && cells[k].Num? && pat.Valid()
    ensures Offset(cells, k + 1) <= |Flatten(cells)|
    ensures MatchedCell(cells, k, pat) <==> Follows(Flatten(cells)[Offset(cells, k + 1)..], pat)
  {
    CellAt(cells, k);
    FollowsBySkeleton(cells[k + 1..], pat);
    assert Skeleton(cells)[k + 1..] == Skeleton(cells[k + 1..]);
  }

  lemma TakeOrSkip(t: string, after: Tail, p: nat, q: nat, matched: bool)
    requires Fits(after) && DigitsUpTo(t, p, q) && p < q && (matched <==> after(t[q..]) >= 0)
    requires forall i :: q <= i < q + after(t[q..]) ==> !IsDigit(t[i])
    ensures FindIter(t, after, p) == (if matched then [Match(p, q)] else []) + FindIter(t, after, q)
  {
    if matched {
      FindTakesRun(t, after, p, q);
    } else {
      FindSkipsRun(t, after, p, q);
    }
  }

  lemma MatchIsDigitFree(t: string, q: nat, pat: Pattern)
    requires q <= |t| && pat.Valid()
    ensures Follows(t[q..], pat) <==> TailOf(pat)(t[q..]) >= 0
    ensures forall i :: q <= i < q + TailOf(pat)(t[q..]) ==> !IsDigit(t[i])
  {
    if Follows(t[q..], pat) {
      FollowedTextIsDigitFree(t[q..], pat);
      forall i | q <= i < q + FollowLength(t[q..], pat) ensures !IsDigit(t[i]) { assert t[i] == t[q..][i - q]; }
    }
  }

  lemma NumCell(cells: seq<Cell>, k: nat, pat: Pattern, after: Tail)
    requires Lexed(cells) && k < |cells| && cells[k].Num? && pat.Valid() && after == TailOf(pat)
    ensures Offset(cells, k) < Offset(cells, k + 1) <= |Flatten(cells)|
    ensures var t, p, q := Flatten(cells), Offset(cells, k), Offset(cells, k + 1);
      FindIter(t, after, p) == (if MatchedCell(cells, k, pat) then [Match(p, q)] else []) + FindIter(t, after, q)
  {
    RunCell(cells, k);
    MatchedByText(cells, k, pat);
    var t, p, q := Flatten(cells), Offset(cells, k), Offset(cells, k + 1);
    MatchIsDigitFree(t, q, pat);
    TakeOrSkip(t, after, p, q, MatchedCell(cells, k, pat));
  }

  lemma SepAt(cells: seq<Cell>, k: nat)
    requires Lexed(cells) && k < |cells| && cells[k].Sep?
    ensures var t, p := Flatten(cells), Offset(cells, k);
      Offset(cells, k + 1) == p + 1 <= |t| && !IsDigit(t[p])
  {
    CellAt(cells, k);
    var t, p := Flatten(cells), Offset(cells, k);
    assert t[p] == t[p..p + 1][0] == cells[k].c;
    assert IsCell(cells[k]);
  }

  lemma SepCell(cells: seq<Cell>, k: nat, after: Tail)
    requires Lexed(cells) && k < |cells| && cells[k].Sep? && Fits(after)
    ensures Offset(cells, k) < Offset(cells, k + 1) <= |Flatten(cells)|
    ensures FindIter(Flatten(cells), after, Offset(cells, k)) == FindIter(Flatten(cells), after, Offset(cells, k + 1))
  {
    SepAt(cells, k);
    FindSkipsChar(Flatten(cells), after, Offset(cells, k));
  }

  /** Scanning from cell `k` on finds exactly the matched cells from there. */
  ghost predicate Scanned(cells: seq<Cell>, k: nat, pat: Pattern, after: Tail)
    requires k <= |cells| && Fits(after)
  {
    Offset(cells, k) <= |Flatten(cells)|
    && FindIter(Flatten(cells), after, Offset(cells, k)) == CellMatches(cells, k, pat)
  }

  lemma ScanEnd(cells: seq<Cell>, pat: Pattern, after: Tail)
    requires Fits(after)
    ensures Scanned(cells, |cells|, pat, after)
  {
    assert cells[..|cells|] == cells;
  }

  ghost predicate ScanStep(cells: seq<Cell>, k: nat, pat: Pattern, after: Tail)
    requires k < |cells| && Fits(after)
  {
    Scanned(cells, k + 1, pat, after) ==> Scanned(cells, k, pat, after)
  }

  lemma ScanCell(cells: seq<Cell>, k: nat, pat: Pattern, after: Tail)
    requires Lexed(cells) && k < |cells| && pat.Valid() && after == TailOf(pat)
    ensures ScanStep(cells, k, pat, after)
  {
    if cells[k].Sep? {
      SepCell(cells, k, after);
    } else {
      NumCell(cells, k, pat, after);
    }
  }

  lemma {:induction false} ScanCells(cells: seq<Cell>, k: nat, pat: Pattern, after: Tail)
    requires k <= |cells| && Fits(after) && forall j :: 0 <= j < |cells| ==> ScanStep(cells, j, pat, after)
    ensures Scanned(cells, k, pat, after)
    decreases |cells| - k
  {
    if k == |cells| {
      ScanEnd(cells, pat, after);
    } else {
      ScanCells(cells, k + 1, pat, after);
      assert ScanStep(cells, k, pat, after);
    }
  }

  /** Scanning the text finds exactly the matched cells. */
  lemma FindIterByCells(cells: seq<Cell>, k: nat, pat: Pattern)
    requires Lexed(cells) && k <= |cells| && pat.Valid()
    ensures Offset(cells, k) <= |Flatten(cells)|
    ensures FindIter(Flatten(cells), TailOf(pat), Offset(cells, k)) == CellMatches(cells, k, pat)
  {
    forall j | 0 <= j < |cells| ensures ScanStep(cells, j, pat, TailOf(pat)) {
      ScanCell(cells, j, pat, TailOf(pat));
    }
    ScanCells(cells, k, pat, TailOf(pat));
  }

  // ------------------------------------------------------------ exempt lines

  predicate IsBreak(c: char) {
    c in "\n\r" || '\U{000B}' <= c <= '\U{000C}' || '\U{001C}' <= c <= '\U{001E}' || c in "\U{0085}\U{2028}\U{2029}"
  }

  /** Length of the first line, its terminator included. */
  function LineLength(t: string): (n: nat)
    ensures n <= |t| && (t != "" ==> n > 0)
  {
    if t == "" then 0
    else if t[0] == '\r' && |t| > 1 && t[1] == '\n' then 2
    else if IsBreak(t[0]) then 1
    else 1 + LineLength(t[1..])
  }

  /** The line carries a declared exception. */
  predicate Exempt(line: string, markers: seq<string>) {
    exists k :: 0 <= k < |markers| && Contains(line, markers[k])
  }

  /** Position `i` lies in an exempt line. */
  predicate ExemptAt(t: string, i: nat, markers: seq<string>)
    requires i < |t|
  {
    var n := LineLength(t);
    if i < n then Exempt(t[..n], markers) else ExemptAt(t[n..], i - n, markers)
  }

  predicate InSpans(spans: seq<(nat, nat)>, i: nat) {
    exists k :: 0 <= k < |spans| && spans[k].0 <= i < spans[k].1
  }

  /** The exempt lines of `t` as spans, `t` beginning at position `base`. */
  function Spans(t: string, base: nat, markers: seq<string>): seq<(nat, nat)> {
    if t == "" then []
    else
      var n := LineLength(t);
      SpanOf(t[..n], base, markers) + Spans(t[n..], base + n, markers)
  }

  /** One line's span, if the line is exempt. */
  function SpanOf(line: string, base: nat, markers: seq<string>): seq<(nat, nat)> {
    if Exempt(line, markers) then [(base, base + |line|)] else []
  }

  /** `_allowed_spans`: the character spans of the exempt lines. */
  method AllowedSpans(text: string, markers: seq<string>) returns (spans: seq<(nat, nat)>)
    ensures spans == Spans(text, 0, markers)
  {
    spans := [];
    var pos: nat, rest := 0, text;
    while rest != ""
      invariant spans + Spans(rest, pos, markers) == Spans(text, 0, markers)
      decreases |rest|
    {
      var n := LineLength(rest);
      var line := rest[..n];
      SpansStep(rest, pos, markers, spans);
      spans := spans + SpanOf(line, pos, markers);
      pos := pos + |line|;
      rest := rest[n..];
    }
  }

  lemma SpansStep(rest: string, pos: nat, markers: seq<string>, done: seq<(nat, nat)>)
    requires rest != ""
    ensures var n := LineLength(rest);
      done + Spans(rest, pos, markers) ==
      done + SpanOf(rest[..n], pos, markers) + Spans(rest[n..], pos + n, markers)
  {
    var n := LineLength(rest);
    Associates(done, SpanOf(rest[..n], pos, markers), Spans(rest[n..], pos + n, markers));
  }

  lemma Associates<T>(a: seq<T>, b: seq<T>, c: seq<T>)
    ensures a + (b + c) == a + b + c
  {
  }

  lemma InSpansConcat(a: seq<(nat, nat)>, b: seq<(nat, nat)>, i: nat)
    ensures InSpans(a + b, i) <==> InSpans(a, i) || InSpans(b, i)
  {
    if InSpans(a, i) {
      var k :| 0 <= k < |a| && a[k].0 <= i < a[k].1;
      assert (a + b)[k] == a[k];
    }
    if InSpans(b, i) {
      var k :| 0 <= k < |b| && b[k].0 <= i < b[k].1;
      assert (a + b)[|a| + k] == b[k];
    }
  }

  lemma InSpanOf(line: string, base: nat, markers: seq<string>, i: nat)
    ensures InSpans(SpanOf(line, base, markers), i) <==> base <= i < base + |line| && Exempt(line, markers)
  {
    var span := (base, base + |line|);
    assert [span][0] == span;
  }

  /** A position is in one of the spans exactly when its line is exempt. */
  lemma {:induction false} SpansAreExempt(t: string, base: nat, markers: seq<string>, i: nat)
    ensures InSpans(Spans(t, base, markers), i) <==> base <= i < base + |t| && ExemptAt(t, i - base, markers)
    decreases |t|
  {
    if t != "" {
      var n := LineLength(t);
      SpansAreExempt(t[n..], base + n, markers, i);
      InSpansConcat(SpanOf(t[..n], base, markers), Spans(t[n..], base + n, markers), i);
      InSpanOf(t[..n], base, markers, i);
    }
  }

  lemma {:induction false} LineSkipsDigits(ds: string, rest: string)
    requires AllDigits(ds)
    ensures LineLength(ds + rest) == |ds| + LineLength(rest)
  {
    if ds == "" {
      assert ds + rest == rest;
    } else {
      assert (ds + rest)[1..] == ds[1..] + rest;
      LineSkipsDigits(ds[1..], rest);
    }
  }

  /** The first line of a text ends where the first line of its skeleton ends. */
  lemma {:induction false} LineBySkeleton(cells: seq<Cell>)
    requires Lexed(cells)
    ensures LineLength(Flatten(cells)) == Offset(cells, LineLength(Skeleton(cells)))
  {
    if cells != [] {
      TailIsLexed(cells);
      FirstChar(cells);
      FirstChar(cells[1..]);
      LineBySkeleton(cells[1..]);
      var n := LineLength(Skeleton(cells[1..]));
      assert cells[..n + 1] == [cells[0]] + cells[1..][..n];
      assert IsCell(cells[0]);
      if cells[0].Num? {
        LineSkipsDigits(cells[0].digits, Flatten(cells[1..]));
      } else {
        LineOfSep(cells);
      }
    }
  }

  lemma LineOfSep(cells: seq<Cell>)
    requires Lexed(cells) && cells != [] && cells[0].Sep?
    requires LineLength(Flatten(cells[1..])) == Offset(cells[1..], LineLength(Skeleton(cells[1..])))
    ensures LineLength(Flatten(cells)) == Offset(cells, LineLength(Skeleton(cells)))
  {
    TailIsLexed(cells);
    FirstChar(cells);
    OffsetStep(cells, LineLength(Skeleton(cells)));
    assert Offset(cells[1..], 0) == 0;
    if |cells| > 1 {
      SecondChar(cells);
      OffsetStep(cells[1..], 1);
      assert Offset(cells[1..][1..], 0) == 0;
    }
  }

  lemma SecondChar(cells: seq<Cell>)
    requires Lexed(cells) && |cells| > 1 && cells[0].Sep?
    ensures |Flatten(cells)| > 1 && Skeleton(cells)[1] == Blank(cells[1])
    ensures Flatten(cells)[1] == '\n' <==> cells[1] == Sep('\n')
  {
    TailIsLexed(cells);
    FirstChar(cells);
    FirstChar(cells[1..]);
    assert Flatten(cells)[1] == Flatten(cells)[1..][0];
    assert IsCell(cells[1]);
  }

  ghost predicate DigitFreeMarkers(markers: seq<string>) {
    forall k :: 0 <= k < |markers| ==> DigitFree(markers[k])
  }

  lemma ExemptBySkeleton(cells: seq<Cell>, markers: seq<string>)
    requires Lexed(cells) && DigitFreeMarkers(markers)
    ensures Exempt(Flatten(cells), markers) <==> Exempt(Skeleton(cells), markers)
  {
    forall k | 0 <= k < |markers|
      ensures Contains(Flatten(cells), markers[k]) <==> Contains(Skeleton(cells), markers[k])
    {
      ContainsBySkeleton(cells, markers[k]);
    }
  }

  /** Cell `k` lies in an exempt line. */
  predicate ExemptCell(cells: seq<Cell>, k: nat, markers: seq<string>)
    requires k < |cells|
  {
    var t, p := Flatten(cells), Offset(cells, k);
    p < |t| && ExemptAt(t, p, markers)
  }

  /** The first line of a text, and the rest, cell by cell. */
  lemma ExemptCellStep(cells: seq<Cell>, k: nat, markers: seq<string>)
    requires Lexed(cells) && k < |cells|
    ensures var n := LineLength(Skeleton(cells)); n <= |cells| && Lexed(cells[..n]) && Lexed(cells[n..])
    ensures var n := LineLength(Skeleton(cells));
      ExemptCell(cells, k, markers) <==>
      if k < n then Exempt(Flatten(cells[..n]), markers) else ExemptCell(cells[n..], k - n, markers)
  {
    var n := LineLength(Skeleton(cells));
    CellText(cells, k);
    assert Show(cells[k]) != "" by { assert IsCell(cells[k]); }
    LineBySkeleton(cells);
    PartsAreLexed(cells, n);
    CutAt(cells, n);
    OffsetsGrow(cells, k, n);
    if k >= n {
      OffsetShift(cells, n, k);
    }
  }

  /** With digit-free markers, whether a cell is exempt depends on the skeleton. */
  lemma {:induction false} ExemptByCells(cells: seq<Cell>, k: nat, markers: seq<string>)
    requires Lexed(cells) && DigitFreeMarkers(markers) && k < |cells|
    ensures ExemptCell(cells, k, markers) <==> ExemptAt(Skeleton(cells), k, markers)
    decreases |cells|
  {
    var t := Skeleton(cells);
    var n := LineLength(t);
    ExemptCellStep(cells, k, markers);
    ExemptBySkeleton(cells[..n], markers);
    assert t[..n] == Skeleton(cells[..n]) && t[n..] == Skeleton(cells[n..]);
    if k >= n {
      ExemptByCells(cells[n..], k - n, markers);
    }
  }

  /** `r` differs from `cells` in the digits of runs outside the exempt lines only. */
  ghost predicate SparesExempt(cells: seq<Cell>, r: seq<Cell>, markers: seq<string>) {
    && Lexed(cells) && Lexed(r) && |r| == |cells| && Skeleton(r) == Skeleton(cells)
    && forall j :: 0 <= j < |cells| && ExemptCell(cells, j, markers) ==> r[j] == cells[j]
  }

  lemma LaterLinesSpared(cells: seq<Cell>, r: seq<Cell>, markers: seq<string>)
    requires SparesExempt(cells, r, markers)
    ensures var n := LineLength(Skeleton(cells)); SparesExempt(cells[n..], r[n..], markers)
  {
    var n := LineLength(Skeleton(cells));
    PartsAreLexed(cells, n);
    PartsAreLexed(r, n);
    SkeletonTail(cells, n);
    SkeletonTail(r, n);
    forall j | 0 <= j < |cells| - n && ExemptCell(cells[n..], j, markers) ensures r[n..][j] == cells[n..][j] {
      ExemptCellStep(cells, n + j, markers);
    }
  }

  lemma FirstLineSpared(cells: seq<Cell>, r: seq<Cell>, k: nat, markers: seq<string>)
    requires SparesExempt(cells, r, markers)
    requires k < LineLength(Skeleton(cells)) && ExemptCell(cells, k, markers)
    ensures var n := LineLength(Skeleton(cells)); r[..n] == cells[..n]
  {
    var n := LineLength(Skeleton(cells));
    ExemptCellStep(cells, k, markers);
    forall j | 0 <= j < n ensures r[j] == cells[j] { ExemptCellStep(cells, j, markers); }
  }

  /** Changing no exempt line leaves the exempt lines exempt. */
  lemma {:induction false} ExemptStaysExempt(cells: seq<Cell>, r: seq<Cell>, k: nat, markers: seq<string>)
    requires SparesExempt(cells, r, markers) && k < |cells|
    ensures ExemptCell(cells, k, markers) ==> ExemptCell(r, k, markers)
    decreases |cells|
  {
    var n := LineLength(Skeleton(cells));
    ExemptCellStep(cells, k, markers);
    ExemptCellStep(r, k, markers);
    if k >= n {
      LaterLinesSpared(cells, r, markers);
      ExemptStaysExempt(cells[n..], r[n..], k - n, markers);
    } else if ExemptCell(cells, k, markers) {
      FirstLineSpared(cells, r, k, markers);
    }
  }

  lemma OffsetShift(cells: seq<Cell>, n: nat, k: nat)
    requires Lexed(cells) && n <= k <= |cells|
    ensures Offset(cells, k) == Offset(cells, n) + Offset(cells[n..], k - n)
  {
    FlattenSplit(cells, k);
    FlattenSplit(cells[..k], n);
    assert cells[..k][..n] == cells[..n] && cells[..k][n..] == cells[n..][..k - n];
  }

  lemma OffsetsGrow(cells: seq<Cell>, j: nat, k: nat)
    requires Lexed(cells) && j <= |cells| && k <= |cells|
    ensures j < k <==> Offset(cells, j) < Offset(cells, k)
  {
    if j < k {
      CellAt(cells, j);
      OffsetShift(cells, j + 1, k);
    } else {
      OffsetShift(cells, k, j);
    }
  }

  // ------------------------------------------------------------- rewriting

  /** The text with each span replaced by `new`, from position `last` on. */
  function Splice(text: string, ms: seq<Match>, new': string, last: nat): string
    requires last <= |text| && Ordered(ms, last, |text|)
  {
    if ms == [] then text[last..]
    else text[last..ms[0].start] + new' + Splice(text, ms[1..], new', ms[0].end)
  }

  function Filter(ms: seq<Match>, keep: Match -> bool): seq<Match> {
    if ms == [] then []
    else (if keep(ms[0]) then [ms[0]] else []) + Filter(ms[1..], keep)
  }

  lemma {:induction false} FilterOrdered(ms: seq<Match>, keep: Match -> bool, lo: nat, hi: nat)
    requires Ordered(ms, lo, hi)
    ensures Ordered(Filter(ms, keep), lo, hi)
  {
    if ms != [] {
      FilterOrdered(ms[1..], keep, ms[0].end, hi);
      assert Filter(ms, keep) == if keep(ms[0]) then [ms[0]] + Filter(ms[1..], keep) else Filter(ms[1..], keep);
      if keep(ms[0]) {
        OrderedPush(ms[0], Filter(ms[1..], keep), lo, ms[0].end, hi);
      } else {
        OrderedFrom(Filter(ms[1..], keep), lo, ms[0].end, hi);
      }
    }
  }

  /** `_sub_group1`: the kept matches' digits replaced, everything else copied. */
  method SubGroup1(text: string, after: Tail, new': string, keep: Match -> bool) returns (result: string, n: nat)
    requires Fits(after)
    ensures Ordered(Filter(FindIter(text, after, 0), keep), 0, |text|)
    ensures result == Splice(text, Filter(FindIter(text, after, 0), keep), new', 0)
    ensures n == |Filter(FindIter(text, after, 0), keep)|
  {
    var ms := FindIter(text, after, 0);
    FoundInOrder(text, after, 0);
    FilterOrdered(ms, keep, 0, |text|);
    ghost var chosen := Filter(ms, keep);
    result, n := "", 0;
    var last: nat, rest := 0, ms;
    while rest != []
      invariant last <= |text| && Ordered(rest, last, |text|) && Ordered(Filter(rest, keep), last, |text|)
      invariant result + Splice(text, Filter(rest, keep), new', last) == Splice(text, chosen, new', 0)
      invariant n + |Filter(rest, keep)| == |chosen|
      decreases |rest|
    {
      var m := rest[0];
      FilterOrdered(rest[1..], keep, m.end, |text|);
      if keep(m) {
        SpliceStep(text, m, Filter(rest[1..], keep), new', last, result);
        result := result + text[last..m.start] + new';
        last := m.end;
        n := n + 1;
      } else {
        OrderedFrom(rest[1..], last, m.end, |text|);
        assert Filter(rest, keep) == Filter(rest[1..], keep);
      }
      rest := rest[1..];
    }
    result := result + text[last..];
  }

  lemma SpliceStep(text: string, m: Match, ms: seq<Match>, new': string, last: nat, done: string)
    requires last <= |text| && Ordered([m] + ms, last, |text|) && Ordered(ms, m.end, |text|)
    ensures last <= m.start <= |text| && m.end <= |text|
    ensures done + Splice(text, [m] + ms, new', last)
         == done + text[last..m.start] + new' + Splice(text, ms, new', m.end)
  {
    assert ([m] + ms)[1..] == ms;
  }

  // ---------------------------------------------------------------- surface

  /** The gated matches of a text: those outside the exempt lines. */
  function Gated(text: string, markers: seq<string>): Match -> bool {
    (m: Match) => m.start < |text| && !ExemptAt(text, m.start, markers)
  }

  function Stated(text: string, m: Match): nat {
    if m.start <= m.end <= |text| then Val(text[m.start..m.end]) else 0
  }

  /** Every count the text states about the total. */
  function StatedCounts(text: string, pat: Pattern, markers: seq<string>): seq<nat> {
    ValuesOf(text, Filter(FindIter(text, TailOf(pat), 0), Gated(text, markers)))
  }

  function ValuesOf(text: string, ms: seq<Match>): (vs: seq<nat>)
    ensures |vs| == |ms|
  {
    if ms == [] then [] else [Stated(text, ms[0])] + ValuesOf(text, ms[1..])
  }

  /** The matches `--write` rewrites: gated and wrong. */
  function Wrong(text: string, expected: nat, markers: seq<string>): Match -> bool {
    (m: Match) => Gated(text, markers)(m) && Stated(text, m) != expected
  }

  /** The text after `--write`. */
  function Written(text: string, pat: Pattern, expected: nat, markers: seq<string>): string {
    FoundInOrder(text, TailOf(pat), 0);
    FilterOrdered(FindIter(text, TailOf(pat), 0), Wrong(text, expected, markers), 0, |text|);
    Splice(text, Filter(FindIter(text, TailOf(pat), 0), Wrong(text, expected, markers)), Str(expected), 0)
  }

  // ---------------------------------------------- the surface, cell by cell

  /** Cell `k` states the total. */
  predicate GatedCell(cells: seq<Cell>, k: nat, pat: Pattern, markers: seq<string>)
    requires k < |cells|
  {
    MatchedCell(cells, k, pat) && !ExemptCell(cells, k, markers)
  }

  /** The cells after `--write`. */
  function Rewrite(cells: seq<Cell>, pat: Pattern, expected: nat, markers: seq<string>): (r: seq<Cell>)
    ensures |r| == |cells|
    ensures forall k :: 0 <= k < |r| ==>
      r[k] ==
        if GatedCell(cells, k, pat, markers) && Val(cells[k].digits) != expected then Num(Str(expected))
        else cells[k]
  {
    seq(|cells|, k requires 0 <= k < |cells| =>
      if GatedCell(cells, k, pat, markers) && Val(cells[k].digits) != expected then Num(Str(expected)) else cells[k])
  }

  /** The counts stated from cell `k` on. */
  function CellCounts(cells: seq<Cell>, k: nat, pat: Pattern, markers: seq<string>): seq<nat>
    requires k <= |cells|
    decreases |cells| - k
  {
    if k == |cells| then []
    else (if GatedCell(cells, k, pat, markers) then [Val(cells[k].digits)] else [])
         + CellCounts(cells, k + 1, pat, markers)
  }

  /** How a matched cell looks from the text. */
  lemma MatchOfCell(cells: seq<Cell>, k: nat, pat: Pattern, markers: seq<string>)
    requires Lexed(cells) && k < |cells| && MatchedCell(cells, k, pat)
    ensures var t, m := Flatten(cells), Match(Offset(cells, k), Offset(cells, k + 1));
      && (Gated(t, markers)(m) <==> GatedCell(cells, k, pat, markers))
      && Stated(t, m) == Val(cells[k].digits)
  {
    CellAt(cells, k);
  }

  lemma {:induction false} CountsByCells(cells: seq<Cell>, k: nat, pat: Pattern, markers: seq<string>)
    requires Lexed(cells) && k <= |cells|
    ensures var t := Flatten(cells);
      ValuesOf(t, Filter(CellMatches(cells, k, pat), Gated(t, markers))) == CellCounts(cells, k, pat, markers)
    decreases |cells| - k
  {
    if k < |cells| {
      CountsByCells(cells, k + 1, pat, markers);
      var t, m := Flatten(cells), Match(Offset(cells, k), Offset(cells, k + 1));
      var ms := CellMatches(cells, k + 1, pat);
      if MatchedCell(cells, k, pat) {
        MatchOfCell(cells, k, pat, markers);
        assert CellMatches(cells, k, pat) == [m] + ms;
        FilterPush(m, ms, Gated(t, markers));
        assert ([m] + Filter(ms, Gated(t, markers)))[1..] == Filter(ms, Gated(t, markers));
      } else {
        assert CellMatches(cells, k, pat) == ms;
      }
    }
  }

  lemma FilterPush(m: Match, ms: seq<Match>, keep: Match -> bool)
    ensures Filter([m] + ms, keep) == if keep(m) then [m] + Filter(ms, keep) else Filter(ms, keep)
  {
    assert ([m] + ms)[1..] == ms;
  }

  lemma Regroup(a: string, b: string, c: string, d: string)
    ensures (a + b) + c + d == a + (b + c + d)
  {
  }

  lemma SpliceCopies(text: string, ms: seq<Match>, new': string, last: nat, next: nat)
    requires last <= next <= |text| && Ordered(ms, next, |text|)
    ensures Ordered(ms, last, |text|)
    ensures Splice(text, ms, new', last) == text[last..next] + Splice(text, ms, new', next)
  {
    if ms == [] {
      assert text[last..] == text[last..next] + text[next..];
    } else {
      var a, b, c := text[last..next], text[next..ms[0].start], Splice(text, ms[1..], new', ms[0].end);
      assert text[last..ms[0].start] == a + b;
      Regroup(a, b, new', c);
    }
  }

  lemma ChosenOrdered(cells: seq<Cell>, k: nat, pat: Pattern, keep: Match -> bool)
    requires Lexed(cells) && k <= |cells| && pat.Valid()
    ensures Offset(cells, k) <= |Flatten(cells)|
    ensures Ordered(Filter(CellMatches(cells, k, pat), keep), Offset(cells, k), |Flatten(cells)|)
  {
    var t := Flatten(cells);
    FindIterByCells(cells, k, pat);
    FoundInOrder(t, TailOf(pat), Offset(cells, k));
    FilterOrdered(CellMatches(cells, k, pat), keep, Offset(cells, k), |t|);
  }

  /** Splicing the text is rewriting the cells. */
  lemma {:induction false} SpliceByCells(cells: seq<Cell>, k: nat, pat: Pattern, expected: nat, markers: seq<string>)
    requires Lexed(cells) && k <= |cells| && pat.Valid()
    ensures Offset(cells, k) <= |Flatten(cells)|
    ensures var t, p := Flatten(cells), Offset(cells, k);
      var ms := Filter(CellMatches(cells, k, pat), Wrong(t, expected, markers));
      && Ordered(ms, p, |t|)
      && Splice(t, ms, Str(expected), p) == Flatten(Rewrite(cells, pat, expected, markers)[k..])
    decreases |cells| - k
  {
    var t, wrong := Flatten(cells), Wrong(Flatten(cells), expected, markers);
    ChosenOrdered(cells, k, pat, wrong);
    if k == |cells| {
      assert cells[..k] == cells && t[|t|..] == "";
    } else {
      SpliceByCells(cells, k + 1, pat, expected, markers);
      SpliceCell(cells, k, pat, expected, markers);
    }
  }

  /** Cell `k` is rewritten. */
  ghost predicate Chosen(cells: seq<Cell>, k: nat, pat: Pattern, expected: nat, markers: seq<string>)
    requires k < |cells|
  {
    GatedCell(cells, k, pat, markers) && Val(cells[k].digits) != expected
  }

  lemma ChosenMatches(cells: seq<Cell>, k: nat, pat: Pattern, expected: nat, markers: seq<string>)
    requires Lexed(cells) && k < |cells|
    ensures var wrong := Wrong(Flatten(cells), expected, markers);
      var ms := Filter(CellMatches(cells, k + 1, pat), wrong);
      Filter(CellMatches(cells, k, pat), wrong) ==
      if Chosen(cells, k, pat, expected, markers) then [Match(Offset(cells, k), Offset(cells, k + 1))] + ms else ms
  {
    var wrong, ms := Wrong(Flatten(cells), expected, markers), CellMatches(cells, k + 1, pat);
    if MatchedCell(cells, k, pat) {
      var m := Match(Offset(cells, k), Offset(cells, k + 1));
      MatchOfCell(cells, k, pat, markers);
      assert CellMatches(cells, k, pat) == [m] + ms;
      FilterPush(m, ms, wrong);
    } else {
      assert CellMatches(cells, k, pat) == ms;
    }
  }

  lemma SpliceHead(t: string, m: Match, ms: seq<Match>, new': string)
    requires m.start < m.end <= |t| && Ordered(ms, m.end, |t|)
    ensures Ordered([m] + ms, m.start, |t|)
    ensures Splice(t, [m] + ms, new', m.start) == new' + Splice(t, ms, new', m.end)
  {
    assert ([m] + ms)[1..] == ms && t[m.start..m.start] == "";
  }

  lemma SpliceCell(cells: seq<Cell>, k: nat, pat: Pattern, expected: nat, markers: seq<string>)
    requires Lexed(cells) && k < |cells|
    requires Offset(cells, k) <= |Flatten(cells)| && Offset(cells, k + 1) <= |Flatten(cells)|
    requires var t, q := Flatten(cells), Offset(cells, k + 1);
      var ms := Filter(CellMatches(cells, k + 1, pat), Wrong(t, expected, markers));
      && Ordered(ms, q, |t|)
      && Splice(t, ms, Str(expected), q) == Flatten(Rewrite(cells, pat, expected, markers)[k + 1..])
    requires Ordered(Filter(CellMatches(cells, k, pat), Wrong(Flatten(cells), expected, markers)),
             Offset(cells, k), |Flatten(cells)|)
    ensures Splice(Flatten(cells), Filter(CellMatches(cells, k, pat), Wrong(Flatten(cells), expected, markers)),
                  Str(expected), Offset(cells, k))
         == Flatten(Rewrite(cells, pat, expected, markers)[k..])
  {
    var t, cells' := Flatten(cells), Rewrite(cells, pat, expected, markers);
    var p, q := Offset(cells, k), Offset(cells, k + 1);
    var ms := Filter(CellMatches(cells, k + 1, pat), Wrong(t, expected, markers));
    CellAt(cells, k);
    ChosenMatches(cells, k, pat, expected, markers);
    TailText(cells', k);
    if Chosen(cells, k, pat, expected, markers) {
      SpliceHead(t, Match(p, q), ms, Str(expected));
    } else {
      SpliceCopies(t, ms, Str(expected), p, q);
    }
  }

  // ---------------------------------------------------------- the function

  lemma {:induction false} FilterAgree(ms: seq<Match>, f: Match -> bool, g: Match -> bool, lo: nat, hi: nat)
    requires Ordered(ms, lo, hi) && forall m: Match :: m.start < hi ==> f(m) == g(m)
    ensures Filter(ms, f) == Filter(ms, g)
  {
    if ms != [] {
      FilterAgree(ms[1..], f, g, ms[0].end, hi);
    }
  }

  ghost predicate AllAre(vs: seq<nat>, expected: nat) { forall k :: 0 <= k < |vs| ==> vs[k] == expected }

  /** The `gated` closure over the exempt spans. */
  function Outside(skip: seq<(nat, nat)>, n: nat): Match -> bool {
    (m: Match) => m.start < n && !InSpans(skip, m.start)
  }

  lemma OutsideIsGated(t: string, markers: seq<string>, m: Match)
    ensures Outside(Spans(t, 0, markers), |t|)(m) == Gated(t, markers)(m)
  {
    SpansAreExempt(t, 0, markers, m.start);
  }

  /** The list of stated values. */
  method ReadCounts(t: string, pat: Pattern, markers: seq<string>, skip: seq<(nat, nat)>) returns (values: seq<nat>)
    requires skip == Spans(t, 0, markers)
    ensures values == StatedCounts(t, pat, markers)
  {
    var ms := FindIter(t, TailOf(pat), 0);
    FoundInOrder(t, TailOf(pat), 0);
    forall m: Match ensures Outside(skip, |t|)(m) == Gated(t, markers)(m) { OutsideIsGated(t, markers, m); }
    FilterAgree(ms, Outside(skip, |t|), Gated(t, markers), 0, |t|);
    values := ValuesOf(t, Filter(ms, Outside(skip, |t|)));
  }

  /** The write branch. */
  method WriteCounts(t: string, pat: Pattern, expected: nat, markers: seq<string>, skip: seq<(nat, nat)>)
    returns (newText: string, n: nat)
    requires skip == Spans(t, 0, markers)
    ensures newText == Written(t, pat, expected, markers)
  {
    var keep := (m: Match) => Outside(skip, |t|)(m) && Stated(t, m) != expected;
    FoundInOrder(t, TailOf(pat), 0);
    forall m: Match ensures keep(m) == Wrong(t, expected, markers)(m) { OutsideIsGated(t, markers, m); }
    FilterAgree(FindIter(t, TailOf(pat), 0), keep, Wrong(t, expected, markers), 0, |t|);
    newText, n := SubGroup1(t, TailOf(pat), Str(expected), keep);
  }

  function WrongValues(vs: seq<nat>, expected: nat): set<nat> { set v | v in vs && v != expected }

  lemma NothingWrong(vs: seq<nat>, expected: nat)
    ensures WrongValues(vs, expected) == {} <==> AllAre(vs, expected)
  {
    if WrongValues(vs, expected) == {} {
      forall k | 0 <= k < |vs| ensures vs[k] == expected { assert vs[k] !in WrongValues(vs, expected); }
    }
  }

  /** Reading a text file: every line end becomes a line feed.  Writing keeps line feeds. */
  function Decode(raw: string): (t: string)
    ensures '\r' !in t
  {
    if raw == "" then ""
    else if raw[0] == '\r' then ['\n'] + Decode(if |raw| > 1 && raw[1] == '\n' then raw[2..] else raw[1..])
    else [raw[0]] + Decode(raw[1..])
  }

  /** The file after `_exact_surface`; `None` is a file that does not exist. */
  ghost function FileAfter(file: Option<string>, pat: Pattern, expected: nat, markers: seq<string>,
                           write: bool): Option<string> {
    if file.None? then None
    else
      var t := Decode(file.value);
      if write && !AllAre(StatedCounts(t, pat, markers), expected) then Some(Written(t, pat, expected, markers))
      else file
  }

  /** What one line of the gate claims of a file. */
  datatype Claim = Claim(pat: Pattern, expected: nat)

  ghost predicate Holds(t: string, c: Claim, markers: seq<string>) {
    AllAre(StatedCounts(t, c.pat, markers), c.expected)
  }

  /** One step per claim, in order. */
  function Fold<S>(s: S, claims: seq<Claim>, step: (S, Claim) -> S): S {
    if claims == [] then s
    else
      var m := |claims| - 1;
      step(Fold(s, claims[..m], step), claims[m])
  }

  lemma FoldMore<S>(s: S, claims: seq<Claim>, k: nat, step: (S, Claim) -> S)
    requires k < |claims|
    ensures Fold(s, claims[..k + 1], step) == step(Fold(s, claims[..k], step), claims[k])
  {
    assert claims[..k + 1][..k] == claims[..k];
  }

  /** `FileAfter`, as one value. */
  ghost function FileStep(markers: seq<string>, write: bool): (step: (Option<string>, Claim) -> Option<string>)
    ensures forall file, c :: step(file, c) == FileAfter(file, c.pat, c.expected, markers, write)
  {
    (file, c: Claim) => FileAfter(file, c.pat, c.expected, markers, write)
  }

  /** The file after several calls in turn. */
  ghost function FileAfterAll(file: Option<string>, claims: seq<Claim>, markers: seq<string>,
                              write: bool): Option<string> {
    Fold(file, claims, FileStep(markers, write))
  }

  /** A tracked file. */
  class Surface {
    var text: Option<string>

    constructor (initial: Option<string>)
      ensures text == initial
    {
      text := initial;
    }

    /** `_exact_surface`: how many counts were seen and which wrong values are reported. */
    method Exact(pat: Pattern, expected: nat, markers: seq<string>, write: bool) returns (seen: nat, reported: set<nat>)
      modifies this
      ensures text == FileAfter(old(text), pat, expected, markers, write)
      ensures old(text).None? ==> seen == 0 && reported == {}
      ensures old(text).Some? ==>
        var counts := StatedCounts(Decode(old(text).value), pat, markers);
        seen == |counts| && reported == (if write then {} else WrongValues(counts, expected))
    {
      seen, reported := 0, {};
      if text.None? {
        return;
      }
      var t := Decode(text.value);
      var skip := AllowedSpans(t, markers);
      var values := ReadCounts(t, pat, markers, skip);
      seen := |values|;
      var wrong := WrongValues(values, expected);
      NothingWrong(values, expected);
      if wrong == {} {
        return;
      }
      if write {
        var newText, n := WriteCounts(t, pat, expected, markers, skip);
        text := Some(newText);
      } else {
        reported := wrong;
      }
    }

    /** One call for one claim; it reports nothing exactly if it writes or the claim holds. */
    method Gate(c: Claim, markers: seq<string>, write: bool) returns (clean: bool)
      modifies this
      ensures text == FileStep(markers, write)(old(text), c)
      ensures clean == (write || PassesIn(old(text), markers)(c))
    {
      var seen, reported := Exact(c.pat, c.expected, markers, write);
      clean := reported == {};
      if old(text).Some? {
        NothingWrong(StatedCounts(Decode(old(text).value), c.pat, markers), c.expected);
      }
    }

    /** The calls `run` makes for one file, one pattern after the other; without `write`
        it leaves the file and passes exactly if every claim holds; with `write` it reports
        nothing. */
    method Run(claims: seq<Claim>, markers: seq<string>, write: bool) returns (ok: bool)
      modifies this
      ensures text == FileAfterAll(old(text), claims, markers, write)
      ensures !write ==> text == old(text)
      ensures ok <==> write || AllPass(claims, PassesIn(text, markers))
    {
      ghost var step, passes := FileStep(markers, write), PassesIn(text, markers);
      ok := true;
      for k := 0 to |claims|
        invariant text == Fold(old(text), claims[..k], step)
        invariant !write ==> text == old(text)
        invariant ok <==> write || AllPass(claims[..k], passes)
      {
        FoldMore(old(text), claims, k, step);
        PassMore(claims, k, passes);
        var clean := Gate(claims[k], markers, write);
        ok := ok && clean;
      }
      assert claims[..|claims|] == claims;
    }
  }

  /** Whether a claim holds of the file as it is read; a missing file claims nothing. */
  ghost function PassesIn(file: Option<string>, markers: seq<string>): (passes: Claim -> bool)
    ensures forall c :: passes(c) <==> file.None? || Holds(Decode(file.value), c, markers)
  {
    (c: Claim) => file.None? || Holds(Decode(file.value), c, markers)
  }

  ghost predicate AllPass(claims: seq<Claim>, passes: Claim -> bool) {
    forall k :: 0 <= k < |claims| ==> passes(claims[k])
  }

  lemma PassMore(claims: seq<Claim>, k: nat, passes: Claim -> bool)
    requires k < |claims|
    ensures AllPass(claims[..k + 1], passes) <==> AllPass(claims[..k], passes) && passes(claims[k])
  {
    var more := claims[..k + 1];
    assert more[k] == claims[k] && forall j :: 0 <= j < k ==> more[j] == claims[..k][j];
  }

  // ------------------------------------------------------------- properties

  lemma RewriteKeepsSkeleton(cells: seq<Cell>, pat: Pattern, expected: nat, markers: seq<string>)
    requires Lexed(cells)
    ensures var r := Rewrite(cells, pat, expected, markers); Lexed(r) && Skeleton(r) == Skeleton(cells)
  {
    var r := Rewrite(cells, pat, expected, markers);
    ValStr(expected);
    forall k | 0 <= k < |r| ensures IsCell(r[k]) && Blank(r[k]) == Blank(cells[k]) && r[k].Num? == cells[k].Num? {
      assert IsCell(cells[k]);
    }
    assert Skeleton(r) == Skeleton(cells);
  }

  /** A cell that states the total after the rewrite stated it before, and is right now. */
  lemma RewrittenCell(cells: seq<Cell>, k: nat, pat: Pattern, expected: nat, markers: seq<string>)
    requires Lexed(cells) && k < |cells|
    ensures var r := Rewrite(cells, pat, expected, markers);
      GatedCell(r, k, pat, markers) ==> GatedCell(cells, k, pat, markers) && Val(r[k].digits) == expected
  {
    var r := Rewrite(cells, pat, expected, markers);
    RewriteKeepsSkeleton(cells, pat, expected, markers);
    ValStr(expected);
    assert r[k].Num? ==> cells[k].Num? by {
      assert Blank(r[k]) == Skeleton(r)[k] == Blank(cells[k]);
      assert IsCell(cells[k]) && IsCell(r[k]);
    }
    ExemptStaysExempt(cells, r, k, markers);
  }

  /** Every count still shows once the counts are rewritten: no line that states the
      total comes to carry a marker when its counts read `expected`. */
  ghost predicate StaysVisible(cells: seq<Cell>, from: nat, pat: Pattern, expected: nat, markers: seq<string>) {
    var r := Rewrite(cells, pat, expected, markers);
    forall k :: from <= k < |cells| && GatedCell(cells, k, pat, markers) ==> !ExemptCell(r, k, markers)
  }

  /** `after` holds right values only, and as many values as `before` exactly if `kept`. */
  ghost predicate Repaired(before: seq<nat>, after: seq<nat>, expected: nat, kept: bool) {
    AllAre(after, expected) && |after| <= |before| && (|after| == |before| <==> kept)
  }

  lemma RepairedPush(before: seq<nat>, after: seq<nat>, expected: nat, kept: bool, v: nat, shown: bool)
    requires Repaired(before, after, expected, kept)
    ensures Repaired([v] + before, if shown then [expected] + after else after, expected, kept && shown)
  {
    AllArePushed(expected, after, expected);
  }

  /** From cell `k` on, the rewritten cells are repaired. */
  ghost predicate RepairedFrom(cells: seq<Cell>, k: nat, pat: Pattern, expected: nat, markers: seq<string>)
    requires k <= |cells|
  {
    Repaired(CellCounts(cells, k, pat, markers), CellCounts(Rewrite(cells, pat, expected, markers), k, pat, markers),
      expected, StaysVisible(cells, k, pat, expected, markers))
  }

  lemma RewrittenStep(cells: seq<Cell>, k: nat, pat: Pattern, expected: nat, markers: seq<string>)
    requires Lexed(cells) && k < |cells| && RepairedFrom(cells, k + 1, pat, expected, markers)
    ensures RepairedFrom(cells, k, pat, expected, markers)
  {
    var r := Rewrite(cells, pat, expected, markers);
    RewrittenCell(cells, k, pat, expected, markers);
    VisibleStep(cells, k, pat, expected, markers);
    CountsStep(cells, k, pat, markers);
    CountsStep(r, k, pat, markers);
    if GatedCell(cells, k, pat, markers) {
      RepairedPush(CellCounts(cells, k + 1, pat, markers), CellCounts(r, k + 1, pat, markers), expected,
        StaysVisible(cells, k + 1, pat, expected, markers), Val(cells[k].digits), GatedCell(r, k, pat, markers));
    }
  }

  lemma NothingLeft(cells: seq<Cell>, pat: Pattern, expected: nat, markers: seq<string>)
    ensures RepairedFrom(cells, |cells|, pat, expected, markers)
  {
  }

  /** The rewritten cells state right counts only, and as many as before exactly if all
      the counts stay visible. */
  lemma {:induction false} RewrittenCounts(cells: seq<Cell>, k: nat, pat: Pattern, expected: nat, markers: seq<string>)
    requires Lexed(cells) && k <= |cells|
    ensures RepairedFrom(cells, k, pat, expected, markers)
    decreases |cells| - k
  {
    if k < |cells| {
      RewrittenCounts(cells, k + 1, pat, expected, markers);
      RewrittenStep(cells, k, pat, expected, markers);
    } else {
      NothingLeft(cells, pat, expected, markers);
    }
  }

  lemma CountsStep(cells: seq<Cell>, k: nat, pat: Pattern, markers: seq<string>)
    requires k < |cells|
    ensures CellCounts(cells, k, pat, markers) ==
      if GatedCell(cells, k, pat, markers) then [Val(cells[k].digits)] + CellCounts(cells, k + 1, pat, markers)
      else CellCounts(cells, k + 1, pat, markers)
  {
  }

  lemma VisibleStep(cells: seq<Cell>, k: nat, pat: Pattern, expected: nat, markers: seq<string>)
    requires Lexed(cells) && k < |cells|
    ensures var r := Rewrite(cells, pat, expected, markers);
      StaysVisible(cells, k, pat, expected, markers) <==>
      StaysVisible(cells, k + 1, pat, expected, markers)
      && (GatedCell(cells, k, pat, markers) ==> GatedCell(r, k, pat, markers))
  {
    var r := Rewrite(cells, pat, expected, markers);
    RewriteKeepsSkeleton(cells, pat, expected, markers);
    assert IsCell(cells[k]) && IsCell(r[k]);
  }

  lemma RewriteTwice(cells: seq<Cell>, pat: Pattern, expected: nat, markers: seq<string>)
    requires Lexed(cells)
    ensures var r := Rewrite(cells, pat, expected, markers); Rewrite(r, pat, expected, markers) == r
  {
    var r := Rewrite(cells, pat, expected, markers);
    forall k | 0 <= k < |r| ensures Rewrite(r, pat, expected, markers)[k] == r[k] {
      RewrittenCell(cells, k, pat, expected, markers);
    }
  }

  /** The counts and the rewrite of a text, read off its cells. */
  lemma TextByCells(text: string, pat: Pattern, expected: nat, markers: seq<string>)
    requires pat.Valid()
    ensures StatedCounts(text, pat, markers) == CellCounts(Lex(text), 0, pat, markers)
    ensures Lex(Written(text, pat, expected, markers)) == Rewrite(Lex(text), pat, expected, markers)
  {
    var cells := Lex(text);
    var r := Rewrite(cells, pat, expected, markers);
    assert cells[..0] == [] && Offset(cells, 0) == 0 && r[0..] == r;
    FindIterByCells(cells, 0, pat);
    CountsByCells(cells, 0, pat, markers);
    SpliceByCells(cells, 0, pat, expected, markers);
    RewriteKeepsSkeleton(cells, pat, expected, markers);
    LexFlatten(r);
  }

  /** Writing repairs the check, whatever the markers: rescanning the written text finds
      only right counts, and writing again changes nothing.  Counts can only disappear, and
      none does if every rewritten line still shows. */
  lemma WriteThenCheck(text: string, pat: Pattern, expected: nat, markers: seq<string>)
    requires pat.Valid()
    ensures var before, after := StatedCounts(text, pat, markers), Written(text, pat, expected, markers);
      && AllAre(StatedCounts(after, pat, markers), expected)
      && Written(after, pat, expected, markers) == after
      && |StatedCounts(after, pat, markers)| <= |before|
      && (|StatedCounts(after, pat, markers)| == |before| <==> StaysVisible(Lex(text), 0, pat, expected, markers))
  {
    var after, cells := Written(text, pat, expected, markers), Lex(text);
    TextByCells(text, pat, expected, markers);
    TextByCells(after, pat, expected, markers);
    RewrittenCounts(cells, 0, pat, expected, markers);
    RewriteTwice(cells, pat, expected, markers);
    assert Flatten(Lex(Written(after, pat, expected, markers))) == Flatten(Lex(after));
  }

  /** Markers without digits, which all declared markers are, never hide a rewritten count:
      the rescan finds as many counts as before. */
  lemma DigitFreeMarkersHideNothing(text: string, pat: Pattern, expected: nat, markers: seq<string>)
    requires pat.Valid() && DigitFreeMarkers(markers)
    ensures StaysVisible(Lex(text), 0, pat, expected, markers)
    ensures |StatedCounts(Written(text, pat, expected, markers), pat, markers)| == |StatedCounts(text, pat, markers)|
  {
    var cells := Lex(text);
    var r := Rewrite(cells, pat, expected, markers);
    WriteThenCheck(text, pat, expected, markers);
    RewriteKeepsSkeleton(cells, pat, expected, markers);
    forall k | 0 <= k < |cells| && GatedCell(cells, k, pat, markers) ensures !ExemptCell(r, k, markers) {
      ExemptByCells(cells, k, markers);
      ExemptByCells(r, k, markers);
    }
  }

  /** Only wrong gated counts are touched: the written text has the same separators in
      the same places, and every other digit run, in particular every run of an exempt
      line, keeps its digits. */
  lemma OnlyWrongCountsChange(text: string, pat: Pattern, expected: nat, markers: seq<string>, k: nat)
    requires pat.Valid() && k < |Lex(text)|
    ensures var before, after := Lex(text), Lex(Written(text, pat, expected, markers));
      && Skeleton(after) == Skeleton(before)
      && (after[k] != before[k] <==> GatedCell(before, k, pat, markers) && Val(before[k].digits) != expected)
      && (after[k] != before[k] ==> after[k] == Num(Str(expected)))
      && (ExemptCell(before, k, markers) ==> after[k] == before[k])
  {
    TextByCells(text, pat, expected, markers);
    RewriteKeepsSkeleton(Lex(text), pat, expected, markers);
    ValStr(expected);
  }

  /** The one declared exception: a directory of a source-tree diagram. */
  const MCP_MARKER := "\U{251C}\U{2500}\U{2500} mcp"

  lemma WordsAreDigitFree()
    ensures DigitFree("tools") && DigitFree("exports") && DigitFree("skills")
  {
  }

  lemma DigitFreeConcat(a: string, b: string)
    requires DigitFree(a) && DigitFree(b)
    ensures DigitFree(a + b)
  {
  }

  lemma SuiteWordsAreDigitFree()
    ensures DigitFree(SUITE_TOTAL.words)
  {
    DigitFreeConcat("tools ", "across ");
    DigitFreeConcat("the ", "suite");
    DigitFreeConcat("tools across ", "the suite");
  }

  /** The patterns and markers in use meet the conditions above. */
  lemma DeclaredPatternsAndMarkers(word: set<char>)
    requires forall c :: IsDigit(c) ==> c in word
    ensures Tools(word).Valid() && Exports(word).Valid() && Skills(word).Valid() && SUITE_TOTAL.Valid()
    ensures DigitFreeMarkers([]) && DigitFreeMarkers([MCP_MARKER])
  {
    WordsAreDigitFree();
    SuiteWordsAreDigitFree();
  }

  // ------------------------------------------------------ several patterns

  /** No text completes a match of both patterns. */
  ghost predicate Exclusive(p: Pattern, q: Pattern) { forall t :: !(Follows(t, p) && Follows(t, q)) }

  /** Patterns whose words are not a prefix of one another exclude each other. */
  lemma ExcludingWords(p: Pattern, q: Pattern)
    requires !(p.words <= q.words) && !(q.words <= p.words)
    ensures Exclusive(p, q)
  {
    forall t ensures !(Follows(t, p) && Follows(t, q)) {
      if Follows(t, p) && Follows(t, q) {
        OneTail(t, p, q);
        var u := StripPlus(t, p);
        PrefixesOfOneText(p.words, q.words, u[Spaces(u)..]);
        assert false;
      }
    }
  }

  lemma OneTail(t: string, p: Pattern, q: Pattern)
    requires Follows(t, p) && Follows(t, q)
    ensures StripPlus(t, p) == StripPlus(t, q)
  {
    assert t != "" && t[0] == '+' ==> Spaces(t) == 0;
  }

  lemma PrefixesOfOneText(a: string, b: string, t: string)
    requires a <= t && b <= t
    ensures a <= b || b <= a
  {
    assert a == t[..|a|] && b == t[..|b|];
  }

  /** What still states the total of `q` after rewriting for `p` stated the same before. */
  lemma OtherCell(cells: seq<Cell>, k: nat, p: Pattern, expected: nat, q: Pattern, markers: seq<string>)
    requires Lexed(cells) && k < |cells| && Exclusive(p, q)
    ensures var r := Rewrite(cells, p, expected, markers);
      && (GatedCell(r, k, q, markers) ==> GatedCell(cells, k, q, markers) && r[k] == cells[k])
      && (DigitFreeMarkers(markers) && GatedCell(cells, k, q, markers) ==> GatedCell(r, k, q, markers))
  {
    var r := Rewrite(cells, p, expected, markers);
    RewriteKeepsSkeleton(cells, p, expected, markers);
    assert IsCell(cells[k]) && IsCell(r[k]) && Blank(r[k]) == Skeleton(r)[k] == Blank(cells[k]);
    ExemptStaysExempt(cells, r, k, markers);
    if DigitFreeMarkers(markers) {
      ExemptByCells(cells, k, markers);
      ExemptByCells(r, k, markers);
    }
  }

  /** Rewriting for `p` leaves right counts of `q` right, and with digit-free markers it
      leaves all counts of `q` as they were. */
  lemma {:induction false} OtherCounts(cells: seq<Cell>, k: nat, p: Pattern, expected: nat, q: Pattern,
                                       other: nat, markers: seq<string>)
    requires Lexed(cells) && k <= |cells| && Exclusive(p, q)
    ensures var r := Rewrite(cells, p, expected, markers);
      && (AllAre(CellCounts(cells, k, q, markers), other) ==> AllAre(CellCounts(r, k, q, markers), other))
      && (DigitFreeMarkers(markers) ==> CellCounts(r, k, q, markers) == CellCounts(cells, k, q, markers))
    decreases |cells| - k
  {
    if k < |cells| {
      OtherCounts(cells, k + 1, p, expected, q, other, markers);
      OtherCountsStep(cells, k, p, expected, q, other, markers);
    }
  }

  lemma OtherCountsStep(cells: seq<Cell>, k: nat, p: Pattern, expected: nat, q: Pattern, other: nat,
                        markers: seq<string>)
    requires Lexed(cells) && k < |cells| && Exclusive(p, q)
    requires var r := Rewrite(cells, p, expected, markers);
      && (AllAre(CellCounts(cells, k + 1, q, markers), other) ==> AllAre(CellCounts(r, k + 1, q, markers), other))
      && (DigitFreeMarkers(markers) ==> CellCounts(r, k + 1, q, markers) == CellCounts(cells, k + 1, q, markers))
    ensures var r := Rewrite(cells, p, expected, markers);
      && (AllAre(CellCounts(cells, k, q, markers), other) ==> AllAre(CellCounts(r, k, q, markers), other))
      && (DigitFreeMarkers(markers) ==> CellCounts(r, k, q, markers) == CellCounts(cells, k, q, markers))
  {
    var r := Rewrite(cells, p, expected, markers);
    OtherCell(cells, k, p, expected, q, markers);
    CountsStep(cells, k, q, markers);
    CountsStep(r, k, q, markers);
    if GatedCell(cells, k, q, markers) {
      var v, vs := Val(cells[k].digits), CellCounts(cells, k + 1, q, markers);
      AllArePushed(v, vs, other);
      AllArePushed(v, CellCounts(r, k + 1, q, markers), other);
    }
  }

  lemma AllArePushed(v: nat, vs: seq<nat>, expected: nat)
    ensures AllAre([v] + vs, expected) <==> v == expected && AllAre(vs, expected)
  {
    if AllAre([v] + vs, expected) {
      assert ([v] + vs)[0] == v;
      forall k | 0 <= k < |vs| ensures vs[k] == expected { assert ([v] + vs)[k + 1] == vs[k]; }
    }
  }

  /** The same for texts. */
  lemma OtherClaims(t: string, c: Claim, d: Claim, markers: seq<string>)
    requires c.pat.Valid() && d.pat.Valid() && Exclusive(c.pat, d.pat)
    ensures var after := Written(t, c.pat, c.expected, markers);
      && (Holds(t, d, markers) ==> Holds(after, d, markers))
      && (DigitFreeMarkers(markers) ==> StatedCounts(after, d.pat, markers) == StatedCounts(t, d.pat, markers))
  {
    TextByCells(t, c.pat, c.expected, markers);
    TextByCells(t, d.pat, d.expected, markers);
    TextByCells(Written(t, c.pat, c.expected, markers), d.pat, d.expected, markers);
    OtherCounts(Lex(t), 0, c.pat, c.expected, d.pat, d.expected, markers);
  }

  /** `Written`, as one value. */
  ghost function TextStep(markers: seq<string>): (step: (string, Claim) -> string)
    ensures forall t, c :: step(t, c) == Written(t, c.pat, c.expected, markers)
  {
    (t, c: Claim) => Written(t, c.pat, c.expected, markers)
  }

  /** The text after writing for several claims in turn. */
  ghost function WrittenAll(t: string, claims: seq<Claim>, markers: seq<string>): string {
    Fold(t, claims, TextStep(markers))
  }

  ghost predicate Separate(claims: seq<Claim>) {
    && (forall i :: 0 <= i < |claims| ==> claims[i].pat.Valid())
    && (forall i, j :: 0 <= i < |claims| && 0 <= j < |claims| && i != j ==> Exclusive(claims[i].pat, claims[j].pat))
  }

  /** If each step makes its own claim hold and keeps the others, all hold at the end. */
  lemma {:induction false} FoldHolds<S(!new)>(s: S, claims: seq<Claim>, n: nat, k: nat,
                                     step: (S, Claim) -> S, holds: (S, Claim) -> bool)
    requires k < n <= |claims|
    requires forall t, j :: 0 <= j < |claims| && (j == k || holds(t, claims[k])) ==>
      holds(step(t, claims[j]), claims[k])
    ensures holds(Fold(s, claims[..n], step), claims[k])
    decreases n
  {
    FoldMore(s, claims, n - 1, step);
    if k < n - 1 {
      FoldHolds(s, claims, n - 1, k, step, holds);
    }
  }

  /** After writing for all claims, whatever the markers, every claim holds. */
  lemma AllClaimsHold(t: string, claims: seq<Claim>, markers: seq<string>, k: nat)
    requires Separate(claims) && k < |claims|
    ensures Holds(WrittenAll(t, claims, markers), claims[k], markers)
  {
    var step, holds := TextStep(markers), (u: string, c: Claim) => Holds(u, c, markers);
    forall u, j | 0 <= j < |claims| && (j == k || holds(u, claims[k])) ensures holds(step(u, claims[j]), claims[k]) {
      OneClaimWritten(u, claims, markers, k, j);
    }
    FoldHolds(t, claims, |claims|, k, step, holds);
    assert claims[..|claims|] == claims;
  }

  lemma OneClaimWritten(t: string, claims: seq<Claim>, markers: seq<string>, k: nat, m: nat)
    requires Separate(claims) && k < |claims| && m < |claims|
    ensures m == k || Holds(t, claims[k], markers) ==> Holds(TextStep(markers)(t, claims[m]), claims[k], markers)
    ensures DigitFreeMarkers(markers) ==>
      |StatedCounts(TextStep(markers)(t, claims[m]), claims[k].pat, markers)| ==
      |StatedCounts(t, claims[k].pat, markers)|
  {
    if k == m {
      WriteThenCheck(t, claims[m].pat, claims[m].expected, markers);
      if DigitFreeMarkers(markers) {
        DigitFreeMarkersHideNothing(t, claims[m].pat, claims[m].expected, markers);
      }
    } else {
      OtherClaims(t, claims[m], claims[k], markers);
    }
  }

  lemma {:induction false} FoldKeepsCount<S(!new)>(s: S, claims: seq<Claim>, n: nat,
                                          step: (S, Claim) -> S, count: S -> nat)
    requires n <= |claims| && forall t, j :: 0 <= j < |claims| ==> count(step(t, claims[j])) == count(t)
    ensures count(Fold(s, claims[..n], step)) == count(s)
  {
    if n > 0 {
      FoldMore(s, claims, n - 1, step);
      FoldKeepsCount(s, claims, n - 1, step, count);
    }
  }

  /** With digit-free markers no count of any claim is lost. */
  lemma NoCountIsLost(t: string, claims: seq<Claim>, markers: seq<string>, k: nat)
    requires Separate(claims) && DigitFreeMarkers(markers) && k < |claims|
    ensures |StatedCounts(WrittenAll(t, claims, markers), claims[k].pat, markers)|
         == |StatedCounts(t, claims[k].pat, markers)|
  {
    var step, count := TextStep(markers), (u: string) => |StatedCounts(u, claims[k].pat, markers)|;
    forall u, j | 0 <= j < |claims| ensures count(step(u, claims[j])) == count(u) {
      OneClaimWritten(u, claims, markers, k, j);
    }
    FoldKeepsCount(t, claims, |claims|, step, count);
    assert claims[..|claims|] == claims;
  }

  // ------------------------------------------------------------- the file

  lemma {:induction false} DecodeClean(t: string)
    requires '\r' !in t
    ensures Decode(t) == t
  {
    if t != "" {
      DecodeClean(t[1..]);
      assert t == [t[0]] + t[1..];
    }
  }

  lemma {:induction false} ReturnsAreSeparators(cells: seq<Cell>)
    requires Lexed(cells)
    ensures '\r' in Flatten(cells) <==> '\r' in Skeleton(cells)
  {
    if cells != [] {
      TailIsLexed(cells);
      ReturnsAreSeparators(cells[1..]);
      assert IsCell(cells[0]);
      assert '\r' in Show(cells[0]) <==> Blank(cells[0]) == '\r';
      assert '\r' in Skeleton(cells) <==> Blank(cells[0]) == '\r' || '\r' in Skeleton(cells[1..]);
    }
  }

  /** Writing brings no carriage return in, so the written file reads back as written. */
  lemma WrittenIsClean(t: string, pat: Pattern, expected: nat, markers: seq<string>)
    requires pat.Valid() && '\r' !in t
    ensures Decode(Written(t, pat, expected, markers)) == Written(t, pat, expected, markers)
  {
    var after := Written(t, pat, expected, markers);
    TextByCells(t, pat, expected, markers);
    RewriteKeepsSkeleton(Lex(t), pat, expected, markers);
    ReturnsAreSeparators(Lex(t));
    ReturnsAreSeparators(Lex(after));
    DecodeClean(after);
  }

  /** When every count is right there is nothing to write. */
  lemma RightIsUnwritten(t: string, pat: Pattern, expected: nat, markers: seq<string>)
    requires pat.Valid() && AllAre(StatedCounts(t, pat, markers), expected)
    ensures Written(t, pat, expected, markers) == t
  {
    NothingChosen(FindIter(t, TailOf(pat), 0), t, expected, markers);
    assert t[0..] == t;
  }

  lemma {:induction false} NothingChosen(ms: seq<Match>, t: string, expected: nat, markers: seq<string>)
    requires AllAre(ValuesOf(t, Filter(ms, Gated(t, markers))), expected)
    ensures Filter(ms, Wrong(t, expected, markers)) == []
  {
    if ms != [] {
      var rest := Filter(ms[1..], Gated(t, markers));
      FilterPush(ms[0], ms[1..], Gated(t, markers));
      assert ms == [ms[0]] + ms[1..];
      if Gated(t, markers)(ms[0]) {
        assert ([ms[0]] + rest)[1..] == rest;
        AllArePushed(Stated(t, ms[0]), ValuesOf(t, rest), expected);
      }
      NothingChosen(ms[1..], t, expected, markers);
    }
  }

  /** In write mode the file, read back, is the written text, whether it was rewritten or
      left alone. */
  lemma FileIsWritten(raw: string, pat: Pattern, expected: nat, markers: seq<string>)
    requires pat.Valid()
    ensures var after := FileAfter(Some(raw), pat, expected, markers, true);
      after.Some? && Decode(after.value) == Written(Decode(raw), pat, expected, markers)
  {
    var t := Decode(raw);
    if AllAre(StatedCounts(t, pat, markers), expected) {
      RightIsUnwritten(t, pat, expected, markers);
    } else {
      WrittenIsClean(t, pat, expected, markers);
    }
  }

  lemma {:induction false} FoldTracks<S(!new), T(!new)>(s: S, t: T, claims: seq<Claim>, n: nat,
                                                        step: (S, Claim) -> S, step': (T, Claim) -> T,
                                                        related: (S, T) -> bool)
    requires n <= |claims| && related(s, t)
    requires forall a, b, j :: 0 <= j < |claims| && related(a, b) ==> related(step(a, claims[j]), step'(b, claims[j]))
    ensures related(Fold(s, claims[..n], step), Fold(t, claims[..n], step'))
  {
    if n > 0 {
      FoldTracks(s, t, claims, n - 1, step, step', related);
      FoldMore(s, claims, n - 1, step);
      FoldMore(t, claims, n - 1, step');
    }
  }

  lemma FileIsWrittenAll(raw: string, claims: seq<Claim>, markers: seq<string>)
    requires forall i :: 0 <= i < |claims| ==> claims[i].pat.Valid()
    ensures var after := FileAfterAll(Some(raw), claims, markers, true);
      after.Some? && Decode(after.value) == WrittenAll(Decode(raw), claims, markers)
  {
    var step, step' := FileStep(markers, true), TextStep(markers);
    var decodes := (file: Option<string>, t: string) => file.Some? && Decode(file.value) == t;
    forall file, t, j | 0 <= j < |claims| && decodes(file, t)
      ensures decodes(step(file, claims[j]), step'(t, claims[j]))
    {
      FileIsWritten(file.value, claims[j].pat, claims[j].expected, markers);
    }
    FoldTracks(Some(raw), Decode(raw), claims, |claims|, step, step', decodes);
    assert claims[..|claims|] == claims;
  }

  /** The gate passes after it has written: for claims whose patterns exclude each other,
      every claim holds of the file that a writing run leaves, and with digit-free markers
      it states each total as often as before. */
  lemma RunThenCheck(raw: string, claims: seq<Claim>, markers: seq<string>, k: nat)
    requires Separate(claims) && k < |claims|
    ensures var after := FileAfterAll(Some(raw), claims, markers, true);
      && after.Some? && Holds(Decode(after.value), claims[k], markers)
      && (DigitFreeMarkers(markers) ==>
            |StatedCounts(Decode(after.value), claims[k].pat, markers)|
            == |StatedCounts(Decode(raw), claims[k].pat, markers)|)
  {
    FileIsWrittenAll(raw, claims, markers);
    AllClaimsHold(Decode(raw), claims, markers, k);
    if DigitFreeMarkers(markers) {
      NoCountIsLost(Decode(raw), claims, markers, k);
    }
  }

  /** The three patterns applied to a package's files exclude each other.  The pattern of
      the suite total, whose words extend those of the tools, is applied to no such file. */
  lemma PackagePatternsAreSeparate(word: set<char>, tools: nat, exports: nat, skills: nat)
    requires forall c :: IsDigit(c) ==> c in word
    ensures Separate([Claim(Tools(word), tools), Claim(Exports(word), exports), Claim(Skills(word), skills)])
  {
    DeclaredPatternsAndMarkers(word);
    DifferentInitials(Tools(word), Exports(word));
    DifferentInitials(Tools(word), Skills(word));
    DifferentInitials(Exports(word), Skills(word));
  }

  lemma DifferentInitials(p: Pattern, q: Pattern)
    requires p.words != "" && q.words != "" && p.words[0] != q.words[0]
    ensures Exclusive(p, q) && Exclusive(q, p)
  {
    HeadsDiffer(p.words, q.words);
    HeadsDiffer(q.words, p.words);
    ExcludingWords(p, q);
    ExcludingWords(q, p);
  }

  // ------------------------------------------------ why digit-free markers

  function Separators(w: string): (cells: seq<Cell>)
    ensures |cells| == |w| && forall i :: 0 <= i < |w| ==> cells[i] == Sep(w[i])
  {
    seq(|w|, i requires 0 <= i < |w| => Sep(w[i]))
  }

  lemma {:induction false} FlattenSeparators(w: string)
    ensures Flatten(Separators(w)) == w
  {
    if w != "" {
      FlattenSeparators(w[1..]);
      assert Separators(w)[1..] == Separators(w[1..]);
      assert w == [w[0]] + w[1..];
    }
  }

  /** A line that states the count `c` in one digit. */
  function CountLine(c: nat, pat: Pattern): seq<Cell>
    requires c < 10
  {
    [Num([Digit(c)])] + Separators([' '] + pat.words)
  }

  lemma CountLineText(c: nat, pat: Pattern)
    requires c < 10 && pat.Valid()
    ensures Lexed(CountLine(c, pat)) && Flatten(CountLine(c, pat)) == [Digit(c)] + ([' '] + pat.words)
  {
    var cells, w := CountLine(c, pat), [' '] + pat.words;
    FlattenSeparators(w);
    assert cells[1..] == Separators(w);
    assert DigitFree(w);
    forall k | 0 <= k < |cells| ensures IsCell(cells[k]) {
      if k > 0 { assert cells[k] == Sep(w[k - 1]); }
    }
  }

  lemma SpaceThenWords(u: string, pat: Pattern)
    requires u == [' '] + pat.words && pat.Valid()
    ensures Follows(u, pat)
  {
    assert u[1..] == pat.words;
    assert Spaces(u) == 1;
  }

  lemma CountLineIsMatched(c: nat, pat: Pattern)
    requires c < 10 && pat.Valid()
    ensures MatchedCell(CountLine(c, pat), 0, pat)
  {
    var cells, w := CountLine(c, pat), [' '] + pat.words;
    forall i | 0 <= i < |w| ensures Skeleton(cells)[1..][i] == w[i] { assert cells[i + 1] == Sep(w[i]); }
    assert Skeleton(cells)[1..] == w;
    SpaceThenWords(w, pat);
  }

  lemma {:induction false} AbsentCharacter(s: string, c: char)
    requires c !in s
    ensures !Contains(s, [c])
  {
    if s != "" {
      HeadsDiffer([c], s);
      AbsentCharacter(s[1..], c);
    }
  }

  lemma FirstLineNotExempt(t: string, c: char)
    requires t != "" && c !in t
    ensures !ExemptAt(t, 0, [[c]])
  {
    AbsentCharacter(t[..LineLength(t)], c);
  }

  lemma FirstLineExempt(t: string, c: char)
    requires t != "" && t[0] == c
    ensures ExemptAt(t, 0, [[c]])
  {
    var line := t[..LineLength(t)];
    assert [c] <= line by { assert line[0] == c; }
    assert Contains(line, [[c]][0]);
  }

  lemma FirstCellStartsText(cells: seq<Cell>, markers: seq<string>)
    requires Lexed(cells) && cells != []
    ensures Flatten(cells) != ""
    ensures ExemptCell(cells, 0, markers) <==> ExemptAt(Flatten(cells), 0, markers)
  {
    FirstChar(cells);
    assert cells[..0] == [];
  }

  /** Why markers have to be digit-free: a marker with a digit could hide a count, whatever
      the pattern.  A line that states `c` does not carry the digit `d`, and once rewritten
      to state `d` it does. */
  lemma DigitMarkersCanHideCounts(c: nat, d: nat, pat: Pattern)
    requires c < 10 && d < 10 && c != d && pat.Valid()
    ensures !StaysVisible(CountLine(c, pat), 0, pat, d, [[Digit(d)]])
  {
    var cells, markers := CountLine(c, pat), [[Digit(d)]];
    var r := Rewrite(cells, pat, d, markers);
    CountLineText(c, pat);
    CountLineIsMatched(c, pat);
    FirstLineNotExempt(Flatten(cells), Digit(d));
    FirstCellStartsText(cells, markers);
    assert Str(c) == [Digit(c)] && Str(d) == [Digit(d)];
    ValStr(c);
    assert r[0] == Num(Str(d));
    RewriteKeepsSkeleton(cells, pat, d, markers);
    FirstCellStartsText(r, markers);
    RunFirst(r);
    FirstLineExempt(Flatten(r), Digit(d));
  }

  lemma RunFirst(cells: seq<Cell>)
    requires Lexed(cells) && cells != [] && cells[0].Num?
    ensures cells[0].digits != "" && Flatten(cells) != "" && Flatten(cells)[0] == cells[0].digits[0]
  {
    assert IsCell(cells[0]);
    assert Flatten(cells) == cells[0].digits + Flatten(cells[1..]);
  }
}
