/** scripts/check_llms_counts.py: what a stated count looks like in the text. */
module CountStatements {
  import opened CheckLlmsCounts
  import opened Decimals
  import opened Options
  import opened Strings
  import opened TextCells

  // ------------------------------------------------------------ one match

  /** `t` reads: a plus if the pattern allows one, white space, the words, and a rest that
      does not go on with a character the pattern excludes. */
  ghost predicate Reads(t: string, pat: Pattern, plus: string, space: string, rest: string) {
    && t == plus + space + pat.words + rest
    && (plus == "" || (pat.plus && plus == "+"))
    && space != "" && (forall c :: c in space ==> IsSpace(c))
    && (rest == "" || rest[0] !in pat.inner)
  }

  ghost predicate Completes(t: string, pat: Pattern) {
    exists plus, space, rest :: Reads(t, pat, plus, space, rest)
  }

  lemma {:induction false} SpacesAreGreedy(space: string, words: string)
    requires (forall c :: c in space ==> IsSpace(c)) && words != "" && !IsSpace(words[0])
    ensures Spaces(space + words) == |space|
  {
    if space == "" {
      assert space + words == words;
    } else {
      assert (space + words)[1..] == space[1..] + words;
      assert space[0] in space;
      SpacesAreGreedy(space[1..], words);
    }
  }

  lemma PlusIsStripped(t: string, pat: Pattern, plus: string, space: string, rest: string)
    requires Reads(t, pat, plus, space, rest)
    ensures StripPlus(t, pat) == space + (pat.words + rest)
  {
    assert t == plus + (space + (pat.words + rest));
    assert space[0] in space;
    if plus == "" {
      assert t[0] == space[0] != '+';
    }
  }

  lemma PlusStripped(t: string, pat: Pattern) returns (plus: string)
    ensures t == plus + StripPlus(t, pat) && (plus == "" || (pat.plus && plus == "+"))
  {
    var u := StripPlus(t, pat);
    plus := t[..|t| - |u|];
  }

  lemma SpacedWordsRead(u: string, pat: Pattern) returns (space: string, rest: string)
    requires SpacedWords(u, pat)
    ensures u == space + pat.words + rest && space != "" && (forall c :: c in space ==> IsSpace(c))
    ensures rest == "" || rest[0] !in pat.inner
  {
    space := u[..Spaces(u)];
    var v := u[Spaces(u)..];
    rest := v[|pat.words|..];
    assert u == space + v && v == pat.words + rest;
  }

  lemma FourParts(a: string, b: string, c: string, d: string)
    ensures a + (b + c + d) == a + b + c + d
  {
  }

  lemma FollowingReads(t: string, pat: Pattern) returns (plus: string, space: string, rest: string)
    requires Follows(t, pat)
    ensures Reads(t, pat, plus, space, rest)
  {
    plus := PlusStripped(t, pat);
    space, rest := SpacedWordsRead(StripPlus(t, pat), pat);
    FourParts(plus, space, pat.words, rest);
  }

  /** A text that reads so completes a match, which takes everything but the rest. */
  lemma ReadingFollows(t: string, pat: Pattern, plus: string, space: string, rest: string)
    requires pat.Valid() && Reads(t, pat, plus, space, rest)
    ensures Follows(t, pat) && FollowLength(t, pat) == |t| - |rest|
  {
    PlusIsStripped(t, pat, plus, space, rest);
    var tail := pat.words + rest;
    SpacesAreGreedy(space, tail);
    assert (space + tail)[|space|..] == tail;
  }

  /** The text after a digit run completes a match exactly if it reads so. */
  lemma FollowsMeaning(t: string, pat: Pattern)
    requires pat.Valid()
    ensures Follows(t, pat) <==> Completes(t, pat)
  {
    if Follows(t, pat) {
      var plus, space, rest := FollowingReads(t, pat);
    }
    if plus, space, rest :| Reads(t, pat, plus, space, rest) {
      ReadingFollows(t, pat, plus, space, rest);
    }
  }

  // ------------------------------------------------------------- the runs

  /** A maximal run of digits. */
  ghost predicate IsRun(t: string, p: nat, q: nat) {
    && p < q <= |t| && AllDigits(t[p..q])
    && (p > 0 ==> !IsDigit(t[p - 1])) && (q < |t| ==> !IsDigit(t[q]))
  }

  /** What a text of cells ends with. */
  lemma LastChar(cells: seq<Cell>)
    requires Lexed(cells) && cells != []
    ensures var t := Flatten(cells); t != "" && (cells[|cells| - 1].Num? <==> IsDigit(t[|t| - 1]))
  {
    var k := |cells| - 1;
    CellAt(cells, k);
    var t := Flatten(cells);
    assert cells[..k + 1] == cells;
    assert IsCell(cells[k]);
    assert t[|t| - 1] == t[Offset(cells, k)..Offset(cells, k + 1)][|Show(cells[k])| - 1];
  }

  /** The cell at `k` is the run from `p` to `q`. */
  ghost predicate RunIs(cells: seq<Cell>, k: nat, p: nat, q: nat) {
    k < |cells| && cells[k].Num? && Offset(cells, k) == p && Offset(cells, k + 1) == q
  }

  lemma CellIsRun(cells: seq<Cell>, k: nat, p: nat, q: nat)
    requires Lexed(cells) && RunIs(cells, k, p, q)
    ensures IsRun(Flatten(cells), p, q) && Flatten(cells)[p..q] == cells[k].digits
  {
    RunCell(cells, k);
    CutAt(cells, k);
    if p > 0 {
      assert k > 0;
      assert cells[..k][k - 1].Sep?;
      PartsAreLexed(cells, k);
      LastChar(cells[..k]);
      assert Flatten(cells)[..p][p - 1] == Flatten(cells)[p - 1];
    }
  }

  lemma JoinedAreLexed(a: seq<Cell>, run: Cell, b: seq<Cell>)
    requires Lexed(a) && Lexed(b) && IsCell(run) && run.Num?
    requires (a != [] ==> a[|a| - 1].Sep?) && (b != [] ==> b[0].Sep?)
    ensures Lexed(a + [run] + b)
  {
  }

  lemma FlattenJoined(a: seq<Cell>, run: Cell, b: seq<Cell>)
    ensures Flatten(a + [run] + b) == Flatten(a) + Show(run) + Flatten(b)
  {
    FlattenConcat(a + [run], b);
    FlattenConcat(a, [run]);
    FlattenOne(run);
  }

  lemma LexJoined(front: string, run: Cell, back: string, a: seq<Cell>, b: seq<Cell>)
    requires Lexed(a) && Lexed(b) && front == Flatten(a) && back == Flatten(b) && IsCell(run) && run.Num?
    requires (front == "" || !IsDigit(front[|front| - 1])) && (back == "" || !IsDigit(back[0]))
    ensures Lex(front + Show(run) + back) == a + [run] + b
  {
    if a != [] { LastChar(a); }
    FirstChar(b);
    JoinedAreLexed(a, run, b);
    FlattenJoined(a, run, b);
    LexFlatten(a + [run] + b);
  }

  lemma LexAround(t: string, p: nat, q: nat)
    requires IsRun(t, p, q)
    ensures Lex(t) == Lex(t[..p]) + [Num(t[p..q])] + Lex(t[q..])
  {
    assert t == t[..p] + t[p..q] + t[q..];
    LexJoined(t[..p], Num(t[p..q]), t[q..], Lex(t[..p]), Lex(t[q..]));
  }

  lemma JoinedOffsets(a: seq<Cell>, run: Cell, b: seq<Cell>)
    ensures var cells := a + [run] + b;
      cells[|a|] == run && Offset(cells, |a|) == |Flatten(a)| && Offset(cells, |a| + 1) == |Flatten(a)| + |Show(run)|
  {
    var cells := a + [run] + b;
    assert cells[..|a|] == a;
    OffsetGrows(cells, |a|);
  }

  lemma RunIsCell(t: string, p: nat, q: nat) returns (k: nat)
    requires IsRun(t, p, q)
    ensures RunIs(Lex(t), k, p, q)
  {
    LexAround(t, p, q);
    JoinedOffsets(Lex(t[..p]), Num(t[p..q]), Lex(t[q..]));
    k := |Lex(t[..p])|;
  }

  // ---------------------------------------------------------- all matches

  /** A run that the pattern's words follow. */
  ghost predicate IsCount(t: string, p: nat, q: nat, pat: Pattern) {
    IsRun(t, p, q) && Completes(t[q..], pat)
  }

  /** The cell at `j` is a match, from `p` to `q`. */
  ghost predicate MatchIs(cells: seq<Cell>, j: nat, pat: Pattern, p: nat, q: nat) {
    RunIs(cells, j, p, q) && MatchedCell(cells, j, pat)
  }

  lemma MatchesStep(cells: seq<Cell>, k: nat, pat: Pattern, p: nat, q: nat)
    requires k < |cells|
    ensures Match(p, q) in CellMatches(cells, k, pat) <==>
      MatchIs(cells, k, pat, p, q) || Match(p, q) in CellMatches(cells, k + 1, pat)
  {
    var m, rest := Match(Offset(cells, k), Offset(cells, k + 1)), CellMatches(cells, k + 1, pat);
    assert Match(p, q) in [m] + rest <==> Match(p, q) == m || Match(p, q) in rest;
  }

  ghost predicate SomeMatchIs(cells: seq<Cell>, k: nat, pat: Pattern, p: nat, q: nat) {
    exists j: nat :: k <= j < |cells| && MatchIs(cells, j, pat, p, q)
  }

  lemma SomeMatchStep(cells: seq<Cell>, k: nat, pat: Pattern, p: nat, q: nat)
    requires k < |cells|
    ensures SomeMatchIs(cells, k, pat, p, q) <==> MatchIs(cells, k, pat, p, q) || SomeMatchIs(cells, k + 1, pat, p, q)
  {
  }

  lemma {:induction false} MatchesOfCells(cells: seq<Cell>, k: nat, pat: Pattern, p: nat, q: nat)
    requires k <= |cells|
    ensures Match(p, q) in CellMatches(cells, k, pat) <==> SomeMatchIs(cells, k, pat, p, q)
    decreases |cells| - k
  {
    if k < |cells| {
      MatchesOfCells(cells, k + 1, pat, p, q);
      MatchesStep(cells, k, pat, p, q);
      SomeMatchStep(cells, k, pat, p, q);
    }
  }

  lemma MatchedRun(cells: seq<Cell>, j: nat, pat: Pattern, p: nat, q: nat)
    requires Lexed(cells) && pat.Valid() && RunIs(cells, j, p, q)
    ensures MatchIs(cells, j, pat, p, q) <==> IsCount(Flatten(cells), p, q, pat)
  {
    CellIsRun(cells, j, p, q);
    MatchedByText(cells, j, pat);
    FollowsMeaning(Flatten(cells)[q..], pat);
  }

  lemma SomeMatchIsCount(cells: seq<Cell>, pat: Pattern, p: nat, q: nat)
    requires Lexed(cells) && pat.Valid() && SomeMatchIs(cells, 0, pat, p, q)
    ensures IsCount(Flatten(cells), p, q, pat)
  {
    var j: nat :| j < |cells| && MatchIs(cells, j, pat, p, q);
    MatchedRun(cells, j, pat, p, q);
  }

  lemma ScannedCells(cells: seq<Cell>, pat: Pattern, p: nat, q: nat)
    requires Lexed(cells) && pat.Valid()
    ensures Match(p, q) in FindIter(Flatten(cells), TailOf(pat), 0) <==> SomeMatchIs(cells, 0, pat, p, q)
  {
    assert cells[..0] == [] && Offset(cells, 0) == 0;
    FindIterByCells(cells, 0, pat);
    MatchesOfCells(cells, 0, pat, p, q);
  }

  /** Scanning a text finds exactly its counts. */
  lemma MatchesAreCounts(t: string, pat: Pattern, p: nat, q: nat)
    requires pat.Valid()
    ensures Match(p, q) in FindIter(t, TailOf(pat), 0) <==> IsCount(t, p, q, pat)
  {
    ScannedCells(Lex(t), pat, p, q);
    if IsCount(t, p, q, pat) {
      var j := RunIsCell(t, p, q);
      MatchedRun(Lex(t), j, pat, p, q);
    }
    if SomeMatchIs(Lex(t), 0, pat, p, q) {
      SomeMatchIsCount(Lex(t), pat, p, q);
    }
  }

  // ----------------------------------------------------------- the lines

  /** What `splitlines` ends a line at. */
  const LINE_ENDS := "\n\r\U{000B}\U{000C}\U{001C}\U{001D}\U{001E}\U{0085}\U{2028}\U{2029}"

  lemma BreaksAreLineEnds(c: char)
    ensures IsBreak(c) <==> c in LINE_ENDS
  {
  }

  /** The white space that ends no line. */
  const BLANKS := "\t \U{001F}\U{00A0}\U{1680}\U{2000}\U{2001}\U{2002}\U{2003}\U{2004}\U{2005}\U{2006}"
    + "\U{2007}\U{2008}\U{2009}\U{200A}\U{202F}\U{205F}\U{3000}"

  /** White space is what ends a line, and the blanks. */
  lemma SpacesAreListed(c: char)
    ensures IsSpace(c) <==> c in LINE_ENDS || c in BLANKS
  {
  }

  /** A line ends before `m`: after a line break, which "\r\n" is as a whole. */
  ghost predicate EndsLine(t: string, m: int) {
    0 < m <= |t| && t[m - 1] in LINE_ENDS && !(t[m - 1] == '\r' && m < |t| && t[m] == '\n')
  }

  /** `t[lo..hi]` is a line, its end included. */
  ghost predicate IsLine(t: string, lo: nat, hi: nat) {
    && lo < hi <= |t|
    && (lo == 0 || EndsLine(t, lo)) && (hi == |t| || EndsLine(t, hi))
    && forall m :: lo < m < hi ==> !EndsLine(t, m)
  }

  lemma {:induction false} FirstLineEnds(t: string)
    requires t != ""
    ensures IsLine(t, 0, LineLength(t))
  {
    var n := LineLength(t);
    BreaksAreLineEnds(t[0]);
    if n == 1 {
    } else if t[0] == '\r' && |t| > 1 && t[1] == '\n' {
    } else {
      FirstLineEnds(t[1..]);
      assert EndsLine(t, n) <==> EndsLine(t[1..], n - 1);
      forall m | 1 < m < n ensures !EndsLine(t, m) { assert !EndsLine(t[1..], m - 1); }
    }
  }

  lemma EndsAfter(t: string, n: nat, m: nat)
    requires n < m <= |t|
    ensures EndsLine(t[n..], m - n) <==> EndsLine(t, m)
  {
    assert t[n..][m - n - 1] == t[m - 1];
    if m < |t| { assert t[n..][m - n] == t[m]; }
  }

  lemma LinesAfter(t: string, n: nat, lo: nat, hi: nat)
    requires IsLine(t, 0, n) && n <= lo <= hi <= |t|
    ensures IsLine(t[n..], lo - n, hi - n) <==> IsLine(t, lo, hi)
  {
    if lo < hi {
      if lo > n { EndsAfter(t, n, lo); }
      EndsAfter(t, n, hi);
      if IsLine(t, lo, hi) {
        forall m | lo - n < m < hi - n ensures !EndsLine(t[n..], m) { EndsAfter(t, n, m + n); }
      }
      if IsLine(t[n..], lo - n, hi - n) {
        forall m | lo < m < hi ensures !EndsLine(t, m) { EndsAfter(t, n, m); assert !EndsLine(t[n..], m - n); }
      }
    }
  }

  /** Lines do not overlap. */
  lemma OneLine(t: string, lo: nat, hi: nat, lo': nat, hi': nat, p: nat)
    requires IsLine(t, lo, hi) && IsLine(t, lo', hi') && lo <= p < hi && lo' <= p < hi'
    ensures lo == lo' && hi == hi'
  {
  }

  /** The line of position `p` carries a marker. */
  ghost predicate OnMarkedLine(t: string, p: nat, markers: seq<string>) {
    exists lo: nat, hi: nat :: MarkedLineAt(t, lo, hi, p, markers)
  }

  ghost predicate MarkedLineAt(t: string, lo: nat, hi: nat, p: nat, markers: seq<string>) {
    IsLine(t, lo, hi) && lo <= p < hi && Marked(t[lo..hi], markers)
  }

  ghost predicate Marked(line: string, markers: seq<string>) {
    exists k, a, b :: 0 <= k < |markers| && Surrounds(line, a, markers[k], b)
  }

  lemma MarkedLine(line: string, markers: seq<string>)
    ensures Exempt(line, markers) <==> Marked(line, markers)
  {
    if Exempt(line, markers) {
      var k :| 0 <= k < |markers| && Contains(line, markers[k]);
      ContainsMeaning(line, markers[k]);
    }
    if k, a, b :| 0 <= k < |markers| && Surrounds(line, a, markers[k], b) {
      ContainsMeaning(line, markers[k]);
    }
  }

  lemma FirstLineMarked(t: string, n: nat, p: nat, markers: seq<string>)
    requires IsLine(t, 0, n) && p < n
    ensures OnMarkedLine(t, p, markers) <==> Marked(t[..n], markers)
  {
    assert t[0..n] == t[..n];
    assert MarkedLineAt(t, 0, n, p, markers) <==> Marked(t[..n], markers);
    if lo: nat, hi: nat :| MarkedLineAt(t, lo, hi, p, markers) {
      OneLine(t, 0, n, lo, hi, p);
    }
  }

  lemma LineStartsAfter(t: string, n: nat, lo: nat, hi: nat, p: nat)
    requires IsLine(t, 0, n) && IsLine(t, lo, hi) && lo <= p < hi && n <= p
    ensures n <= lo
  {
    assert EndsLine(t, n);
  }

  lemma SliceAfter(t: string, n: nat, lo: nat, hi: nat)
    requires n <= lo <= hi <= |t|
    ensures t[n..][lo - n..hi - n] == t[lo..hi]
  {
  }

  lemma SameLineAfter(t: string, n: nat, lo: nat, hi: nat, p: nat, markers: seq<string>)
    requires IsLine(t, 0, n) && n <= lo && n <= hi && n <= p
    ensures MarkedLineAt(t[n..], lo - n, hi - n, p - n, markers) <==> MarkedLineAt(t, lo, hi, p, markers)
  {
    if hi <= |t| && lo < hi {
      LinesAfter(t, n, lo, hi);
      SliceAfter(t, n, lo, hi);
    }
  }

  lemma LaterLineMarked(t: string, n: nat, p: nat, markers: seq<string>)
    requires IsLine(t, 0, n) && n <= p < |t|
    ensures OnMarkedLine(t, p, markers) <==> OnMarkedLine(t[n..], p - n, markers)
  {
    var u, r := t[n..], p - n;
    if lo: nat, hi: nat :| MarkedLineAt(u, lo, hi, r, markers) {
      SameLineAfter(t, n, lo + n, hi + n, p, markers);
    }
    if lo: nat, hi: nat :| MarkedLineAt(t, lo, hi, p, markers) {
      LineStartsAfter(t, n, lo, hi, p);
      SameLineAfter(t, n, lo, hi, p, markers);
    }
  }

  /** The exempt positions are those on a line that carries a marker. */
  lemma {:induction false} ExemptMeaning(t: string, p: nat, markers: seq<string>)
    requires p < |t|
    ensures ExemptAt(t, p, markers) <==> OnMarkedLine(t, p, markers)
    decreases |t|
  {
    var n := LineLength(t);
    FirstLineEnds(t);
    if p < n {
      MarkedLine(t[..n], markers);
      FirstLineMarked(t, n, p, markers);
    } else {
      ExemptMeaning(t[n..], p - n, markers);
      LaterLineMarked(t, n, p, markers);
    }
  }

  // ------------------------------------------------------------ the counts

  /** The text states a count from `p` to `q`, on a line that carries no marker. */
  ghost predicate States(t: string, p: nat, q: nat, pat: Pattern, markers: seq<string>) {
    IsCount(t, p, q, pat) && !OnMarkedLine(t, p, markers)
  }

  lemma {:induction false} FilterMembers(ms: seq<Match>, keep: Match -> bool, m: Match)
    ensures m in Filter(ms, keep) <==> m in ms && keep(m)
  {
    if ms != [] {
      FilterMembers(ms[1..], keep, m);
      assert ms == [ms[0]] + ms[1..];
    }
  }

  lemma GatedMatches(t: string, pat: Pattern, markers: seq<string>, p: nat, q: nat)
    requires pat.Valid()
    ensures Match(p, q) in Filter(FindIter(t, TailOf(pat), 0), Gated(t, markers)) <==> States(t, p, q, pat, markers)
  {
    MatchesAreCounts(t, pat, p, q);
    FilterMembers(FindIter(t, TailOf(pat), 0), Gated(t, markers), Match(p, q));
    if p < |t| { ExemptMeaning(t, p, markers); }
  }

  lemma {:induction false} ValuesMembers(t: string, ms: seq<Match>, v: nat)
    ensures v in ValuesOf(t, ms) <==> exists m :: m in ms && Stated(t, m) == v
  {
    if ms != [] {
      ValuesMembers(t, ms[1..], v);
      assert ms == [ms[0]] + ms[1..];
    }
  }

  /** `ms` lists the statements of the text. */
  ghost predicate ListsStatements(t: string, pat: Pattern, markers: seq<string>, ms: seq<Match>) {
    forall p: nat, q: nat :: Match(p, q) in ms <==> States(t, p, q, pat, markers)
  }

  lemma GatedAre(t: string, pat: Pattern, markers: seq<string>)
    requires pat.Valid()
    ensures ListsStatements(t, pat, markers, Filter(FindIter(t, TailOf(pat), 0), Gated(t, markers)))
  {
    forall p: nat, q: nat
      ensures Match(p, q) in Filter(FindIter(t, TailOf(pat), 0), Gated(t, markers)) <==> States(t, p, q, pat, markers)
    {
      GatedMatches(t, pat, markers, p, q);
    }
  }

  lemma ValuesOfStatements(t: string, pat: Pattern, markers: seq<string>, ms: seq<Match>, v: nat)
    requires ListsStatements(t, pat, markers, ms)
    ensures v in ValuesOf(t, ms) <==>
      exists p: nat, q: nat :: States(t, p, q, pat, markers) && Val(t[p..q]) == v
  {
    ValuesMembers(t, ms, v);
    if m :| m in ms && Stated(t, m) == v {
      assert m == Match(m.start, m.end);
      assert States(t, m.start, m.end, pat, markers);
    }
    if p: nat, q: nat :| States(t, p, q, pat, markers) && Val(t[p..q]) == v {
      assert Match(p, q) in ms && Stated(t, Match(p, q)) == v;
    }
  }

  /** The values stated are those of the runs that state a count. */
  lemma StatedMeaning(t: string, pat: Pattern, markers: seq<string>, v: nat)
    requires pat.Valid()
    ensures v in StatedCounts(t, pat, markers) <==>
      exists p: nat, q: nat :: States(t, p, q, pat, markers) && Val(t[p..q]) == v
  {
    GatedAre(t, pat, markers);
    ValuesOfStatements(t, pat, markers, Filter(FindIter(t, TailOf(pat), 0), Gated(t, markers)), v);
  }

  ghost function Starts(ms: seq<Match>): set<int> { set m | m in ms :: m.start }

  lemma {:induction false} OrderedStarts(ms: seq<Match>, lo: nat, hi: nat)
    requires Ordered(ms, lo, hi)
    ensures |Starts(ms)| == |ms| && forall m :: m in ms ==> lo <= m.start < hi
  {
    if ms == [] {
      assert Starts(ms) == {};
    } else {
      OrderedStarts(ms[1..], ms[0].end, hi);
      assert ms == [ms[0]] + ms[1..];
      assert Starts(ms) == {ms[0].start} + Starts(ms[1..]);
      assert ms[0].start !in Starts(ms[1..]);
    }
  }

  /** Where counts are stated. */
  ghost function Statements(t: string, pat: Pattern, markers: seq<string>): set<int> {
    set p | 0 <= p < |t| && StatedFrom(t, p, pat, markers)
  }

  ghost predicate StatedFrom(t: string, p: nat, pat: Pattern, markers: seq<string>) {
    exists q: nat :: States(t, p, q, pat, markers)
  }

  lemma StartsAreStatements(t: string, pat: Pattern, markers: seq<string>, ms: seq<Match>)
    requires ListsStatements(t, pat, markers, ms)
    ensures Starts(ms) == Statements(t, pat, markers)
  {
    forall p | p in Starts(ms) ensures p in Statements(t, pat, markers) {
      var m :| m in ms && m.start == p;
      assert m == Match(m.start, m.end);
    }
    forall p | p in Statements(t, pat, markers) ensures p in Starts(ms) {
      var q: nat :| States(t, p, q, pat, markers);
      assert Match(p, q) in ms;
    }
  }

  /** There are as many values as places where a count is stated. */
  lemma CountsPerStatement(t: string, pat: Pattern, markers: seq<string>)
    requires pat.Valid()
    ensures |StatedCounts(t, pat, markers)| == |Statements(t, pat, markers)|
  {
    var ms := Filter(FindIter(t, TailOf(pat), 0), Gated(t, markers));
    FoundInOrder(t, TailOf(pat), 0);
    FilterOrdered(FindIter(t, TailOf(pat), 0), Gated(t, markers), 0, |t|);
    OrderedStarts(ms, 0, |t|);
    GatedAre(t, pat, markers);
    StartsAreStatements(t, pat, markers, ms);
  }

  /** A claim holds of a text exactly if every count stated is the expected one. */
  lemma HoldsMeaning(t: string, c: Claim, markers: seq<string>)
    requires c.pat.Valid()
    ensures Holds(t, c, markers) <==>
      forall p: nat, q: nat :: States(t, p, q, c.pat, markers) ==> Val(t[p..q]) == c.expected
  {
    var vs := StatedCounts(t, c.pat, markers);
    if Holds(t, c, markers) {
      forall p: nat, q: nat | States(t, p, q, c.pat, markers) ensures Val(t[p..q]) == c.expected {
        StatedMeaning(t, c.pat, markers, Val(t[p..q]));
      }
    } else {
      var k :| 0 <= k < |vs| && vs[k] != c.expected;
      StatedMeaning(t, c.pat, markers, vs[k]);
    }
  }

  /** The wrong values reported are those some count states. */
  lemma WrongMeaning(t: string, c: Claim, markers: seq<string>, v: nat)
    requires c.pat.Valid()
    ensures v in WrongValues(StatedCounts(t, c.pat, markers), c.expected) <==>
      v != c.expected && exists p: nat, q: nat :: States(t, p, q, c.pat, markers) && Val(t[p..q]) == v
  {
    StatedMeaning(t, c.pat, markers, v);
  }

  /** In the file that a writing run leaves, read as text, every run of digits that a
      pattern's words follow is the pattern's total, marked lines aside. */
  lemma WrittenFileStatesTotals(raw: string, claims: seq<Claim>, markers: seq<string>, k: nat)
    requires Separate(claims) && k < |claims|
    ensures var after := FileAfterAll(Some(raw), claims, markers, true);
      && after.Some?
      && forall p: nat, q: nat :: States(Decode(after.value), p, q, claims[k].pat, markers) ==>
           Val(Decode(after.value)[p..q]) == claims[k].expected
  {
    RunThenCheck(raw, claims, markers, k);
    HoldsMeaning(Decode(FileAfterAll(Some(raw), claims, markers, true).value), claims[k], markers);
  }

  lemma RunInText(a: string, digits: string, b: string, pat: Pattern, plus: string, space: string, rest: string)
    requires digits != "" && AllDigits(digits) && (a == "" || !IsDigit(a[|a| - 1]))
    requires Reads(b, pat, plus, space, rest)
    ensures var t, p, q := a + digits + b, |a|, |a| + |digits|;
      IsRun(t, p, q) && t[p..q] == digits && t[q..] == b
  {
    var t, p, q := a + digits + b, |a|, |a| + |digits|;
    assert t[p..q] == digits && t[q..] == b;
    assert space[0] in space;
    assert b[0] == (plus + space)[0];
  }

  /** A count in the middle of a text, on a line without a marker, is stated: what stands
      before it does not end with a digit, and what follows it may go on in any way the
      pattern allows. */
  lemma CountInText(a: string, digits: string, b: string, pat: Pattern, plus: string, space: string, rest: string,
                    markers: seq<string>)
    requires pat.Valid() && digits != "" && AllDigits(digits) && (a == "" || !IsDigit(a[|a| - 1]))
    requires Reads(b, pat, plus, space, rest) && !OnMarkedLine(a + digits + b, |a|, markers)
    ensures Val(digits) in StatedCounts(a + digits + b, pat, markers)
  {
    var t, p, q := a + digits + b, |a|, |a| + |digits|;
    RunInText(a, digits, b, pat, plus, space, rest);
    assert Completes(t[q..], pat);
    assert States(t, p, q, pat, markers);
    StatedMeaning(t, pat, markers, Val(digits));
  }

  // --------------------------------------------------------- the file read

  ghost predicate IsLineEnd(e: string, b: string) {
    e == "\n" || e == "\r\n" || (e == "\r" && (b == "" || b[0] != '\n'))
  }

  lemma DecodeLineEnd(e: string, b: string)
    requires IsLineEnd(e, b)
    ensures Decode(e + b) == "\n" + Decode(b)
  {
    var s := e + b;
    assert s[|e|..] == b && s[0] == e[0];
    if |e| == 2 { assert s[1] == e[1]; } else if b != "" { assert s[1] == b[0]; }
  }

  /** Reading a file turns each line end, of whatever kind, into a line feed. */
  lemma {:induction false} DecodeMeaning(a: string, e: string, b: string)
    requires '\r' !in a && IsLineEnd(e, b)
    ensures Decode(a) == a && Decode(a + e + b) == a + "\n" + Decode(b)
    decreases |a|
  {
    if a == "" {
      assert a + e + b == e + b && "" + "\n" + Decode(b) == "\n" + Decode(b);
      DecodeLineEnd(e, b);
    } else {
      assert a == [a[0]] + a[1..];
      assert (a + e + b)[1..] == a[1..] + e + b;
      DecodeMeaning(a[1..], e, b);
    }
  }
}
