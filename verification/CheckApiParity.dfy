/** scripts/check_api_parity.py: a manifest against the two surfaces it partitions. */
module CheckApiParity {
  import opened Bags
  import opened Options
  import opened Orders
  import opened Sorting
  import opened Strings

  const SURFACES: set<string> :=
    {"mcp_tools", "cli_commands", "a2a_skills", "scorers", "transforms",
     "blocking_strategies", "scorer_kernels", "analyzers"}

  /** What a manifest says of one surface. */
  datatype Body = Body(shared: seq<string>, pythonOnly: seq<string>, tsOnly: seq<string>)
  {
    function All(): seq<string> { shared + pythonOnly + tsOnly }

    function List(key: Key): seq<string> {
      match key case Shared => shared case PythonOnly => pythonOnly case TsOnly => tsOnly
    }
  }

  /** A deferral map: names with their reasons, `None` for a reason that is not a string. */
  datatype Deferral = Malformed | Reasons(reasons: map<string, Option<string>>)

  /** The gated part of a manifest; a missing or empty deferral map is `Reasons(map[])`. */
  datatype Manifest = Manifest(surfaces: map<string, Body>, scorerDeferral: Deferral, blockingDeferral: Deferral)

  datatype Key = Shared | PythonOnly | TsOnly

  datatype Kind =
    | UnsharedCommon | UndeclaredPyOnly | UndeclaredTsOnly | SharedMissingPy | SharedMissingTs
    | PyOnlyInTs | TsOnlyInPy | Phantom
    | UnknownSurface | Unsorted(key: Key) | NotDisjoint
    | MalformedDeferred | Uncovered | StaleDeferral | UnknownDeferral | MissingReason

  datatype Failure = Failure(surface: string, name: string, kind: Kind)

  /** A surface descriptor: the names found in the source, per surface. */
  type Descriptor = map<string, set<string>>

  function NamesOf(desc: Descriptor, surface: string): set<string> {
    if surface in desc then desc[surface] else {}
  }

  function SetOf(s: seq<string>): set<string> { set x | x in s }

  /** One row of a check: every name of `names` fails with `kind`. */
  function Row(surface: string, names: set<string>, kind: Kind): (f: set<Failure>)
    ensures forall x :: x in f <==> x.surface == surface && x.kind == kind && x.name in names
  {
    set n | n in names :: Failure(surface, n, kind)
  }

  // ------------------------------------------------------- check_partition

  /** The manifest lists a name where the sources have it, and nowhere else. */
  predicate Placed(body: Body, py: set<string>, ts: set<string>, n: string) {
    && (n in body.shared <==> n in py && n in ts)
    && (n in body.pythonOnly <==> n in py && n !in ts)
    && (n in body.tsOnly <==> n !in py && n in ts)
  }

  /** What each kind of failure says about a name. */
  predicate Diagnosis(body: Body, py: set<string>, ts: set<string>, n: string, kind: Kind) {
    match kind
    case UnsharedCommon => n in py && n in ts && n !in body.shared
    case UndeclaredPyOnly => n in py && n !in ts && n !in body.shared + body.pythonOnly
    case UndeclaredTsOnly => n !in py && n in ts && n !in body.shared + body.tsOnly
    case SharedMissingPy => n in body.shared && n !in py && n in ts
    case SharedMissingTs => n in body.shared && n in py && n !in ts
    case PyOnlyInTs => n in body.pythonOnly && n in ts
    case TsOnlyInPy => n in body.tsOnly && n in py
    case Phantom => n in body.All() && n !in py && n !in ts
    case _ => false
  }

  predicate Undeclared(kind: Kind) { kind.UnsharedCommon? || kind.UndeclaredPyOnly? || kind.UndeclaredTsOnly? }

  /** Rows 1 to 3: found in the sources, not declared. */
  function UndeclaredRows(surface: string, body: Body, py: set<string>, ts: set<string>): (f: set<Failure>)
    ensures forall x :: x in f <==>
      (x.surface == surface && Undeclared(x.kind) && Diagnosis(body, py, ts, x.name, x.kind))
  {
    var shared := SetOf(body.shared);
    Row(surface, py * ts - shared, UnsharedCommon)
    + Row(surface, py - ts - SetOf(body.pythonOnly) - shared, UndeclaredPyOnly)
    + Row(surface, ts - py - SetOf(body.tsOnly) - shared, UndeclaredTsOnly)
  }

  predicate HalfGone(kind: Kind) { kind.SharedMissingPy? || kind.SharedMissingTs? }

  /** Row 4: declared shared, gone from one side. */
  function HalfGoneRows(surface: string, body: Body, py: set<string>, ts: set<string>): (f: set<Failure>)
    ensures forall x :: x in f <==>
      (x.surface == surface && HalfGone(x.kind) && Diagnosis(body, py, ts, x.name, x.kind))
  {
    var shared := SetOf(body.shared);
    Row(surface, shared * (py + ts) - py, SharedMissingPy) + Row(surface, shared * (py + ts) - ts, SharedMissingTs)
  }

  predicate Outdated(kind: Kind) { kind.PyOnlyInTs? || kind.TsOnlyInPy? || kind.Phantom? }

  /** Rows 5 to 7: declared for one side and found on the other, or found nowhere. */
  function OutdatedRows(surface: string, body: Body, py: set<string>, ts: set<string>): (f: set<Failure>)
    ensures forall x :: x in f <==>
      (x.surface == surface && Outdated(x.kind) && Diagnosis(body, py, ts, x.name, x.kind))
  {
    var pyOnly, tsOnly := SetOf(body.pythonOnly), SetOf(body.tsOnly);
    Row(surface, pyOnly * ts, PyOnlyInTs) + Row(surface, tsOnly * py, TsOnlyInPy)
    + Row(surface, SetOf(body.shared) + pyOnly + tsOnly - (py + ts), Phantom)
  }

  /** `check_partition`. */
  method CheckPartition(surface: string, body: Body, py: set<string>, ts: set<string>) returns (f: set<Failure>)
    ensures forall x :: x in f <==> x.surface == surface && Diagnosis(body, py, ts, x.name, x.kind)
    ensures f == {} <==> forall n :: Placed(body, py, ts, n)
  {
    f := UndeclaredRows(surface, body, py, ts);
    f := f + HalfGoneRows(surface, body, py, ts);
    f := f + OutdatedRows(surface, body, py, ts);
    assert forall n, kind :: Diagnosis(body, py, ts, n, kind) ==> Undeclared(kind) || HalfGone(kind) || Outdated(kind);
    CleanIsPlaced(surface, body, py, ts, f);
  }

  /** A name is blamed, under one kind or another, exactly when it is misplaced. */
  lemma BlamedIsMisplaced(body: Body, py: set<string>, ts: set<string>, n: string)
    ensures (exists kind :: Diagnosis(body, py, ts, n, kind)) <==> !Placed(body, py, ts, n)
  {
    if !Placed(body, py, ts, n) {
      var kind :=
        if n in py && n in ts then
          if n !in body.shared then UnsharedCommon else if n in body.pythonOnly then PyOnlyInTs else TsOnlyInPy
        else if n in py then
          if n in body.shared then SharedMissingTs else if n in body.tsOnly then TsOnlyInPy else UndeclaredPyOnly
        else if n in ts then
          if n in body.shared then SharedMissingPy else if n in body.pythonOnly then PyOnlyInTs else UndeclaredTsOnly
        else Phantom;
      assert Diagnosis(body, py, ts, n, kind);
    }
  }

  lemma CleanIsPlaced(surface: string, body: Body, py: set<string>, ts: set<string>, f: set<Failure>)
    requires forall x :: x in f <==> x.surface == surface && Diagnosis(body, py, ts, x.name, x.kind)
    ensures f == {} <==> forall n :: Placed(body, py, ts, n)
  {
    if f == {} {
      forall n ensures Placed(body, py, ts, n) {
        BlamedIsMisplaced(body, py, ts, n);
        forall kind ensures !Diagnosis(body, py, ts, n, kind) { assert Failure(surface, n, kind) !in f; }
      }
    } else {
      var x :| x in f;
      BlamedIsMisplaced(body, py, ts, x.name);
      assert Diagnosis(body, py, ts, x.name, x.kind);
    }
  }

  /** Every name is placed exactly when the three lists partition the two surfaces. */
  lemma PlacedIsPartition(body: Body, py: set<string>, ts: set<string>)
    ensures (forall n :: Placed(body, py, ts, n)) <==>
      SetOf(body.shared) == py * ts && SetOf(body.pythonOnly) == py - ts && SetOf(body.tsOnly) == ts - py
  {
    if forall n :: Placed(body, py, ts, n) {
      forall n ensures n in SetOf(body.shared) <==> n in py * ts { assert Placed(body, py, ts, n); }
      forall n ensures n in SetOf(body.pythonOnly) <==> n in py - ts { assert Placed(body, py, ts, n); }
      forall n ensures n in SetOf(body.tsOnly) <==> n in ts - py { assert Placed(body, py, ts, n); }
    } else {
      var n :| !Placed(body, py, ts, n);
      assert n in SetOf(body.shared) <==> n in body.shared;
      assert n in SetOf(body.pythonOnly) <==> n in body.pythonOnly;
      assert n in SetOf(body.tsOnly) <==> n in body.tsOnly;
    }
  }

  // ------------------------------------------------------- check_structure

  ghost predicate Repeated(s: seq<string>, n: string) {
    exists i, j :: 0 <= i < j < |s| && s[i] == n && s[j] == n
  }

  ghost predicate Sound(body: Body) {
    && SortedStrings(body.shared) && SortedStrings(body.pythonOnly) && SortedStrings(body.tsOnly)
    && Distinct(body.All())
  }

  lemma SortedIsOwnSort(v: seq<string>)
    ensures v == Sort(v, StringLe) <==> SortedStrings(v)
  {
    StringLeIsAnOrder(v);
    SortSorts(v, StringLe);
    if SortedStrings(v) {
      SortedIsDetermined(v, Sort(v, StringLe), StringLe);
    }
  }

  lemma RepeatedStep(s: seq<string>, n: string)
    requires s != []
    ensures var m := |s| - 1; Repeated(s, n) <==> Repeated(s[..m], n) || (n == s[m] && n in s[..m])
  {
    var m := |s| - 1;
    if Repeated(s[..m], n) {
      var i, j :| 0 <= i < j < m && s[..m][i] == n && s[..m][j] == n;
      assert s[i] == n && s[j] == n;
    }
    if n == s[m] && n in s[..m] {
      var i :| 0 <= i < m && s[..m][i] == n;
      assert s[i] == n;
    }
  }

  /** The `seen` loop: the names met before. */
  method Repeats(names: seq<string>) returns (repeated: set<string>)
    ensures forall n :: n in repeated <==> Repeated(names, n)
  {
    repeated := {};
    var seen: set<string> := {};
    for i := 0 to |names|
      invariant forall n :: n in seen <==> n in names[..i]
      invariant forall n :: n in repeated <==> Repeated(names[..i], n)
    {
      var next := names[..i + 1];
      assert next[..i] == names[..i];
      forall n ensures Repeated(next, n) <==> Repeated(names[..i], n) || (n == names[i] && n in names[..i]) {
        RepeatedStep(next, n);
      }
      if names[i] in seen {
        repeated := repeated + {names[i]};
      }
      seen := seen + {names[i]};
    }
    assert names[..|names|] == names;
  }

  /** The list of a key differs from its sorted self. */
  predicate OutOfOrder(body: Body, key: Key)
    ensures OutOfOrder(body, key) <==> !SortedStrings(body.List(key))
  {
    SortedIsOwnSort(body.List(key));
    body.List(key) != Sort(body.List(key), StringLe)
  }

  predicate UnsortedFault(body: Body, n: string, kind: Kind) {
    n == "" && kind.Unsorted? && OutOfOrder(body, kind.key)
  }

  function UnsortedLists(surface: string, body: Body): (f: set<Failure>)
    ensures forall x :: x in f <==> x.surface == surface && UnsortedFault(body, x.name, x.kind)
  {
    set key | key in {Shared, PythonOnly, TsOnly} && OutOfOrder(body, key) :: Failure(surface, "", Unsorted(key))
  }

  ghost predicate BodyFault(body: Body, n: string, kind: Kind) {
    UnsortedFault(body, n, kind) || (kind == NotDisjoint && Repeated(body.All(), n))
  }

  method CheckBody(surface: string, body: Body) returns (f: set<Failure>)
    ensures forall x :: x in f <==> x.surface == surface && BodyFault(body, x.name, x.kind)
  {
    var repeated := Repeats(body.All());
    f := UnsortedLists(surface, body) + Row(surface, repeated, NotDisjoint);
  }

  lemma FaultlessIsSound(body: Body)
    ensures (forall n, kind :: !BodyFault(body, n, kind)) <==> Sound(body)
  {
    if forall n, kind :: !BodyFault(body, n, kind) {
      forall key ensures SortedStrings(body.List(key)) { assert !BodyFault(body, "", Unsorted(key)); }
      assert SortedStrings(body.List(Shared)) && SortedStrings(body.List(PythonOnly))
        && SortedStrings(body.List(TsOnly));
      forall n ensures !Repeated(body.All(), n) { assert !BodyFault(body, n, NotDisjoint); }
      NothingRepeated(body.All());
    } else {
      var n, kind :| BodyFault(body, n, kind);
      NothingRepeated(body.All());
      if kind.Unsorted? { assert OutOfOrder(body, kind.key); }
    }
  }

  lemma NothingRepeated(s: seq<string>)
    ensures (forall n :: !Repeated(s, n)) <==> Distinct(s)
  {
    if forall n :: !Repeated(s, n) {
      forall i, j | 0 <= i < j < |s| ensures s[i] != s[j] { assert !Repeated(s, s[i]); }
    }
  }

  ghost predicate StructureFault(m: Manifest, x: Failure) {
    x.surface in m.surfaces &&
    if x.surface in SURFACES then BodyFault(m.surfaces[x.surface], x.name, x.kind)
    else x.name == "" && x.kind == UnknownSurface
  }

  ghost predicate WellStructured(m: Manifest) {
    m.surfaces.Keys <= SURFACES && forall s :: s in m.surfaces ==> Sound(m.surfaces[s])
  }

  /** `check_structure`. */
  method CheckStructure(m: Manifest) returns (f: set<Failure>)
    ensures forall x :: x in f <==> StructureFault(m, x)
    ensures f == {} <==> WellStructured(m)
  {
    f := {};
    var rest := m.surfaces.Keys;
    while rest != {}
      invariant rest <= m.surfaces.Keys
      invariant forall x :: x in f <==> StructureFault(m, x) && x.surface !in rest
      decreases |rest|
    {
      var s :| s in rest;
      var g: set<Failure>;
      if s !in SURFACES {
        g := {Failure(s, "", UnknownSurface)};
      } else {
        g := CheckBody(s, m.surfaces[s]);
      }
      assert forall x :: x in g <==> StructureFault(m, x) && x.surface == s;
      f := f + g;
      rest := rest - {s};
    }
    NoFaultIsWellStructured(m, f);
  }

  lemma NoFaultIsWellStructured(m: Manifest, f: set<Failure>)
    requires forall x :: x in f <==> StructureFault(m, x)
    ensures f == {} <==> WellStructured(m)
  {
    if f == {} {
      forall s | s in m.surfaces ensures s in SURFACES && Sound(m.surfaces[s]) {
        assert Failure(s, "", UnknownSurface) !in f;
        forall n, kind ensures !BodyFault(m.surfaces[s], n, kind) { assert Failure(s, n, kind) !in f; }
        FaultlessIsSound(m.surfaces[s]);
      }
    } else {
      var x :| x in f;
      if x.surface in SURFACES {
        assert BodyFault(m.surfaces[x.surface], x.name, x.kind);
        FaultlessIsSound(m.surfaces[x.surface]);
      }
    }
  }

  // -------------------------------------------------------------- coverage

  /** `reason.strip()` of a reason that is a string. */
  predicate Explained(reason: Option<string>) { reason.Some? && Strip(reason.value) != "" }

  /** The deferrals are exactly the names not covered, each with a reason. */
  ghost predicate Covers(deferral: Deferral, all: set<string>, covered: set<string>) {
    && deferral.Reasons?
    && deferral.reasons.Keys == all - covered
    && forall n :: n in deferral.reasons ==> NotBlank(deferral.reasons[n])
  }

  /** The reason is a string with something other than white space in it. */
  ghost predicate NotBlank(reason: Option<string>) {
    reason.Some? && exists c :: c in reason.value && !IsSpace(c)
  }

  lemma ExplainedIsNotBlank(reason: Option<string>)
    ensures Explained(reason) <==> NotBlank(reason)
  {
    if reason.Some? { StripMeaning(reason.value); }
  }

  /** The common body of `check_scorer_coverage` and `check_blocking_coverage`. */
  method CheckCoverage(owner: string, table: string, deferral: Deferral, all: set<string>, covered: set<string>)
    returns (f: set<Failure>)
    ensures f == {} <==> Covers(deferral, all, covered)
    ensures deferral.Malformed? ==> f == {Failure(table, "", MalformedDeferred)}
    ensures deferral.Reasons? ==> var names := deferral.reasons.Keys; forall x :: x in f <==>
      || (x.surface == owner && x.kind == Uncovered && x.name in all - covered - names)
      || (x.surface == table && x.kind == StaleDeferral && x.name in names * covered)
      || (x.surface == table && x.kind == UnknownDeferral && x.name in names - all)
      || (x.surface == table && x.kind == MissingReason && x.name in names * all
          && !NotBlank(deferral.reasons[x.name]))
  {
    if deferral.Malformed? {
      f := {Failure(table, "", MalformedDeferred)};
      return;
    }
    var names := deferral.reasons.Keys;
    var bare := set n | n in names * all && !Explained(deferral.reasons[n]);
    f := Row(owner, all - covered - names, Uncovered);
    f := f + Row(table, names * covered, StaleDeferral);
    f := f + Row(table, names - all, UnknownDeferral);
    f := f + Row(table, bare, MissingReason);
    forall n | n in names ensures Explained(deferral.reasons[n]) <==> NotBlank(deferral.reasons[n]) {
      ExplainedIsNotBlank(deferral.reasons[n]);
    }
    NoFailureIsCovered(owner, table, deferral.reasons, all, covered, f);
  }

  lemma NoFailureIsCovered(owner: string, table: string, reasons: map<string, Option<string>>, all: set<string>,
                           covered: set<string>, f: set<Failure>)
    requires forall x :: x in f <==>
      || (x.surface == owner && x.kind == Uncovered && x.name in all - covered - reasons.Keys)
      || (x.surface == table && x.kind == StaleDeferral && x.name in reasons.Keys * covered)
      || (x.surface == table && x.kind == UnknownDeferral && x.name in reasons.Keys - all)
      || (x.surface == table && x.kind == MissingReason && x.name in reasons.Keys * all && !NotBlank(reasons[x.name]))
    ensures f == {} <==> Covers(Reasons(reasons), all, covered)
  {
    if f == {} {
      forall n ensures n in reasons.Keys <==> n in all - covered {
        assert Failure(owner, n, Uncovered) !in f;
        assert Failure(table, n, StaleDeferral) !in f;
        assert Failure(table, n, UnknownDeferral) !in f;
      }
      forall n | n in reasons ensures NotBlank(reasons[n]) {
        assert Failure(table, n, MissingReason) !in f;
      }
    } else {
      var x :| x in f;
      assert x.name in reasons.Keys || x.name in all - covered;
    }
  }

  function Union(m: Manifest, surface: string): set<string>
    requires surface in m.surfaces
  {
    SetOf(m.surfaces[surface].All())
  }

  ghost predicate ScorersCovered(m: Manifest) {
    "scorers" in m.surfaces && "scorer_kernels" in m.surfaces ==>
      Covers(m.scorerDeferral, Union(m, "scorers"), Union(m, "scorer_kernels"))
  }

  ghost predicate BlockingCovered(m: Manifest) {
    "blocking_strategies" in m.surfaces ==>
      Covers(m.blockingDeferral, Union(m, "blocking_strategies"), SetOf(m.surfaces["blocking_strategies"].shared))
  }

  /** `check_scorer_coverage`. */
  method CheckScorerCoverage(m: Manifest) returns (f: set<Failure>)
    ensures f == {} <==> ScorersCovered(m)
  {
    f := {};
    if "scorers" in m.surfaces && "scorer_kernels" in m.surfaces {
      f := CheckCoverage("scorer_kernels", "scorer_kernels_deferred", m.scorerDeferral,
        Union(m, "scorers"), Union(m, "scorer_kernels"));
    }
  }

  /** `check_blocking_coverage`. */
  method CheckBlockingCoverage(m: Manifest) returns (f: set<Failure>)
    ensures f == {} <==> BlockingCovered(m)
  {
    f := {};
    if "blocking_strategies" in m.surfaces {
      f := CheckCoverage("blocking_kernels_deferred", "blocking_kernels_deferred", m.blockingDeferral,
        Union(m, "blocking_strategies"), SetOf(m.surfaces["blocking_strategies"].shared));
    }
  }

  // ------------------------------------------------------------- the gate

  /** The lists of a surface partition the names found in the sources. */
  ghost predicate Exact(body: Body, py: set<string>, ts: set<string>) { forall n :: Placed(body, py, ts, n) }

  ghost predicate Clean(m: Manifest, py: Descriptor, ts: Descriptor) {
    && WellStructured(m)
    && (forall s :: s in m.surfaces ==> Exact(m.surfaces[s], NamesOf(py, s), NamesOf(ts, s)))
    && ScorersCovered(m) && BlockingCovered(m)
  }

  /** `run_checks`. */
  method RunChecks(m: Manifest, py: Descriptor, ts: Descriptor) returns (fails: set<Failure>)
    ensures fails == {} <==> Clean(m, py, ts)
    ensures !WellStructured(m) ==> forall x :: x in fails <==> StructureFault(m, x)
  {
    fails := CheckStructure(m);
    if fails != {} {
      return;
    }
    var rest := SURFACES;
    while rest != {}
      invariant rest <= SURFACES
      invariant fails == {} <==>
        forall s :: s in m.surfaces && s !in rest ==> Exact(m.surfaces[s], NamesOf(py, s), NamesOf(ts, s))
      decreases |rest|
    {
      var s :| s in rest;
      if s in m.surfaces {
        var f := CheckPartition(s, m.surfaces[s], NamesOf(py, s), NamesOf(ts, s));
        assert f == {} <==> Exact(m.surfaces[s], NamesOf(py, s), NamesOf(ts, s));
        fails := fails + f;
      }
      rest := rest - {s};
    }
    var f := CheckScorerCoverage(m);
    var g := CheckBlockingCoverage(m);
    fails := fails + f + g;
  }

  // --------------------------------------------------------- init_manifest

  /** `sorted(S)`. */
  method SortedList(S: set<string>) returns (s: seq<string>)
    ensures SetOf(s) == S && SortedStrings(s) && Distinct(s)
  {
    s := [];
    var rest := S;
    while rest != {}
      invariant rest <= S && SetOf(s) == S - rest && Distinct(s)
      decreases |rest|
    {
      var n :| n in rest;
      assert n !in SetOf(s);
      DistinctPush(s, n);
      s := s + [n];
      rest := rest - {n};
    }
    SortKeeps(s);
    s := Sort(s, StringLe);
  }

  lemma DistinctPush(s: seq<string>, n: string)
    requires n !in SetOf(s) && Distinct(s)
    ensures Distinct(s + [n]) && SetOf(s + [n]) == SetOf(s) + {n}
  {
    forall x ensures x in SetOf(s + [n]) <==> x in SetOf(s) + {n} {
      assert x in s + [n] <==> x in s || x == n;
    }
  }

  lemma SortKeeps(s: seq<string>)
    requires Distinct(s)
    ensures var r := Sort(s, StringLe); SetOf(r) == SetOf(s) && SortedStrings(r) && Distinct(r)
  {
    var r := Sort(s, StringLe);
    StringLeIsAnOrder(s);
    SortSorts(s, StringLe);
    forall x ensures x in r <==> x in s { assert x in multiset(r) <==> x in multiset(s); }
    assert |multiset(r)| == |r| && |multiset(s)| == |s| && (set x | x in r) == (set x | x in s);
    ElementCount(s);
    ElementCount(r);
  }

  /** Lists that are sorted and without repeats are fixed by their elements. */
  lemma ListIsDetermined(s: seq<string>, t: seq<string>)
    requires SortedStrings(s) && Distinct(s) && SortedStrings(t) && Distinct(t) && SetOf(s) == SetOf(t)
    ensures s == t
  {
    StringLeIsAnOrder(s);
    forall x ensures x in s <==> x in t { assert x in SetOf(s) <==> x in SetOf(t); }
    DistinctSameElements(s, t);
    SortedIsDetermined(s, t, StringLe);
  }

  predicate Found(s: string, py: Descriptor, ts: Descriptor) { NamesOf(py, s) != {} || NamesOf(ts, s) != {} }

  /** The bootstrap manifest: the surfaces with names, each partitioned, nothing deferred. */
  ghost predicate IsBootstrap(m: Manifest, py: Descriptor, ts: Descriptor) {
    && (forall s :: s in m.surfaces <==> s in SURFACES && Found(s, py, ts))
    && (forall s :: s in m.surfaces ==> Sound(m.surfaces[s]) && Exact(m.surfaces[s], NamesOf(py, s), NamesOf(ts, s)))
    && m.scorerDeferral == Reasons(map[]) && m.blockingDeferral == Reasons(map[])
  }

  method InitBody(py: set<string>, ts: set<string>) returns (body: Body)
    ensures Sound(body) && Exact(body, py, ts)
  {
    var both := SortedList(py * ts);
    var pyOnly := SortedList(py - ts);
    var tsOnly := SortedList(ts - py);
    body := Body(both, pyOnly, tsOnly);
    PlacedIsPartition(body, py, ts);
    PartitionIsDistinct(body, py, ts);
  }

  lemma PartitionIsDistinct(body: Body, py: set<string>, ts: set<string>)
    requires Distinct(body.shared) && Distinct(body.pythonOnly) && Distinct(body.tsOnly) && Exact(body, py, ts)
    ensures Distinct(body.All())
  {
    var s, a, b := body.All(), |body.shared|, |body.shared| + |body.pythonOnly|;
    forall i, j | 0 <= i < j < |s| ensures s[i] != s[j] {
      assert Placed(body, py, ts, s[i]) && Placed(body, py, ts, s[j]);
      assert s[i] == if i < a then body.shared[i] else if i < b then body.pythonOnly[i - a] else body.tsOnly[i - b];
      assert s[j] == if j < a then body.shared[j] else if j < b then body.pythonOnly[j - a] else body.tsOnly[j - b];
    }
  }

  /** `init_manifest`. */
  method InitManifest(py: Descriptor, ts: Descriptor) returns (m: Manifest)
    ensures IsBootstrap(m, py, ts)
  {
    var out: map<string, Body> := map[];
    var rest := SURFACES;
    while rest != {}
      invariant rest <= SURFACES
      invariant forall s :: s in out <==> s in SURFACES && s !in rest && Found(s, py, ts)
      invariant forall s :: s in out ==> Sound(out[s]) && Exact(out[s], NamesOf(py, s), NamesOf(ts, s))
      decreases |rest|
    {
      var s :| s in rest;
      if Found(s, py, ts) {
        var body := InitBody(NamesOf(py, s), NamesOf(ts, s));
        out := out[s := body];
      }
      rest := rest - {s};
    }
    m := Manifest(out, Reasons(map[]), Reasons(map[]));
  }

  // ------------------------------------------------------------- properties

  lemma UnionIsFound(m: Manifest, s: string, py: Descriptor, ts: Descriptor)
    requires s in m.surfaces && Exact(m.surfaces[s], NamesOf(py, s), NamesOf(ts, s))
    ensures Union(m, s) == NamesOf(py, s) + NamesOf(ts, s)
    ensures SetOf(m.surfaces[s].shared) == NamesOf(py, s) * NamesOf(ts, s)
  {
    forall n ensures n in Union(m, s) <==> n in NamesOf(py, s) + NamesOf(ts, s) {
      assert Placed(m.surfaces[s], NamesOf(py, s), NamesOf(ts, s), n);
    }
    PlacedIsPartition(m.surfaces[s], NamesOf(py, s), NamesOf(ts, s));
  }

  /** Every scorer has a kernel, if any kernel is found at all. */
  predicate AllScorersHaveKernels(py: Descriptor, ts: Descriptor) {
    Found("scorer_kernels", py, ts) ==>
      NamesOf(py, "scorers") + NamesOf(ts, "scorers") <= NamesOf(py, "scorer_kernels") + NamesOf(ts, "scorer_kernels")
  }

  lemma BootstrapScorers(m: Manifest, py: Descriptor, ts: Descriptor)
    requires IsBootstrap(m, py, ts)
    ensures ScorersCovered(m) <==> AllScorersHaveKernels(py, ts)
  {
    if "scorers" in m.surfaces && "scorer_kernels" in m.surfaces {
      UnionIsFound(m, "scorers", py, ts);
      UnionIsFound(m, "scorer_kernels", py, ts);
      NothingDeferred(Union(m, "scorers"), Union(m, "scorer_kernels"));
    }
  }

  lemma BootstrapBlocking(m: Manifest, py: Descriptor, ts: Descriptor)
    requires IsBootstrap(m, py, ts)
    ensures BlockingCovered(m) <==> NamesOf(py, "blocking_strategies") == NamesOf(ts, "blocking_strategies")
  {
    var a, b := NamesOf(py, "blocking_strategies"), NamesOf(ts, "blocking_strategies");
    assert a + b <= a * b <==> a == b;
    if "blocking_strategies" in m.surfaces {
      UnionIsFound(m, "blocking_strategies", py, ts);
      NothingDeferred(a + b, a * b);
    }
  }

  /** A bootstrap manifest passes the structure and partition checks by construction; it
      passes the whole gate exactly when there is nothing to defer: every scorer has a
      kernel (if any kernel is found at all) and every blocking strategy is in both
      languages. */
  lemma BootstrapPassesExactly(m: Manifest, py: Descriptor, ts: Descriptor)
    requires IsBootstrap(m, py, ts)
    ensures WellStructured(m)
    ensures forall s :: s in m.surfaces ==> Exact(m.surfaces[s], NamesOf(py, s), NamesOf(ts, s))
    ensures Clean(m, py, ts) <==>
      AllScorersHaveKernels(py, ts) && NamesOf(py, "blocking_strategies") == NamesOf(ts, "blocking_strategies")
  {
    BootstrapScorers(m, py, ts);
    BootstrapBlocking(m, py, ts);
  }

  lemma NothingDeferred(all: set<string>, covered: set<string>)
    ensures Covers(Reasons(map[]), all, covered) <==> all <= covered
  {
    var none: map<string, Option<string>> := map[];
    assert none.Keys == {};
    if all - covered == {} {
      forall n | n in all ensures n in covered { assert n !in all - covered; }
    }
  }

  /** A clean manifest is the only one for its surfaces: two clean manifests agree on
      every surface both declare. */
  lemma CleanIsUnique(m: Manifest, m': Manifest, py: Descriptor, ts: Descriptor, s: string)
    requires Clean(m, py, ts) && Clean(m', py, ts) && s in m.surfaces && s in m'.surfaces
    ensures m.surfaces[s] == m'.surfaces[s]
  {
    var a, b := m.surfaces[s], m'.surfaces[s];
    PlacedIsPartition(a, NamesOf(py, s), NamesOf(ts, s));
    PlacedIsPartition(b, NamesOf(py, s), NamesOf(ts, s));
    PartsAreDistinct(a);
    PartsAreDistinct(b);
    ListIsDetermined(a.shared, b.shared);
    ListIsDetermined(a.pythonOnly, b.pythonOnly);
    ListIsDetermined(a.tsOnly, b.tsOnly);
  }

  lemma PartsAreDistinct(body: Body)
    requires Distinct(body.All())
    ensures Distinct(body.shared) && Distinct(body.pythonOnly) && Distinct(body.tsOnly)
  {
    var s, a, b := body.All(), |body.shared|, |body.shared| + |body.pythonOnly|;
    forall i, j | 0 <= i < j < |body.shared| ensures body.shared[i] != body.shared[j] { assert s[i] != s[j]; }
    forall i, j | 0 <= i < j < |body.pythonOnly|
      ensures body.pythonOnly[i] != body.pythonOnly[j]
    {
      assert s[a + i] != s[a + j];
    }
    forall i, j | 0 <= i < j < |body.tsOnly| ensures body.tsOnly[i] != body.tsOnly[j] { assert s[b + i] != s[b + j]; }
  }

  function Added(desc: Descriptor, s: string, n: string): Descriptor { desc[s := NamesOf(desc, s) + {n}] }

  lemma NewNameIsMisplaced(m: Manifest, py: Descriptor, ts: Descriptor, py': Descriptor, ts': Descriptor,
                           s: string, n: string)
    requires Clean(m, py, ts) && s in m.surfaces && n !in NamesOf(py, s) && n !in NamesOf(ts, s)
    requires n in NamesOf(py', s) || n in NamesOf(ts', s)
    ensures !Clean(m, py', ts')
  {
    assert Placed(m.surfaces[s], NamesOf(py, s), NamesOf(ts, s), n);
    assert !Placed(m.surfaces[s], NamesOf(py', s), NamesOf(ts', s), n);
  }

  lemma OtherSurfacesStayClean(m: Manifest, py: Descriptor, ts: Descriptor, py': Descriptor, ts': Descriptor)
    requires Clean(m, py, ts)
    requires forall r :: r in m.surfaces ==> NamesOf(py', r) == NamesOf(py, r) && NamesOf(ts', r) == NamesOf(ts, r)
    ensures Clean(m, py', ts')
  {
  }

  /** A name added to either language, or to both, is caught exactly when the manifest
      declares its surface: a surface left out of the manifest is not checked at all. */
  lemma NewNameIsCaught(m: Manifest, py: Descriptor, ts: Descriptor, s: string, n: string)
    requires Clean(m, py, ts) && n !in NamesOf(py, s) && n !in NamesOf(ts, s)
    ensures Clean(m, Added(py, s, n), ts) <==> s !in m.surfaces
    ensures Clean(m, py, Added(ts, s, n)) <==> s !in m.surfaces
    ensures Clean(m, Added(py, s, n), Added(ts, s, n)) <==> s !in m.surfaces
  {
    var py', ts' := Added(py, s, n), Added(ts, s, n);
    if s in m.surfaces {
      NewNameIsMisplaced(m, py, ts, py', ts, s, n);
      NewNameIsMisplaced(m, py, ts, py, ts', s, n);
      NewNameIsMisplaced(m, py, ts, py', ts', s, n);
    } else {
      OtherSurfacesStayClean(m, py, ts, py', ts);
      OtherSurfacesStayClean(m, py, ts, py, ts');
      OtherSurfacesStayClean(m, py, ts, py', ts');
    }
  }

  /** The manifest that declares nothing passes for every package. */
  lemma EmptyManifestIsClean(py: Descriptor, ts: Descriptor)
    ensures Clean(Manifest(map[], Reasons(map[]), Reasons(map[])), py, ts)
  {
  }
}
