/** scripts/check_ts_parity_freshness.py: a float-tolerant difference of JSON trees. */
module CheckTsParityFreshness {
  import opened Options
  import opened Orders

  datatype Json =
    | Null
    | Bool(b: bool)
    | Num(x: real)
    | Str(s: string)
    | Arr(items: seq<Json>)
    | Obj(fields: map<string, Json>)

  const FLOAT_TOL := 0.0001

  const IGNORE_KEYS: set<string> := {"python_version"}

  function Abs(x: real): real { if x < 0.0 then -x else x }

  function Max(x: real, y: real): real { if x < y then y else x }

  /** `_num_close`. */
  predicate NumClose(a: real, b: real) {
    Abs(a - b) <= FLOAT_TOL + FLOAT_TOL * Max(Abs(a), Abs(b))
  }

  /** Python's `==` where a boolean is involved: True is 1 and False is 0. */
  predicate BoolEqual(a: Json, b: Json)
    requires a.Bool? || b.Bool?
  {
    match (a, b)
    case (Bool(x), Bool(y)) => x == y
    case (Bool(x), Num(y)) => y == (if x then 1.0 else 0.0)
    case (Num(x), Bool(y)) => x == (if y then 1.0 else 0.0)
    case _ => false
  }

  // ------------------------------------------------------------------ paths

  datatype Step = Key(name: string) | Index(i: nat)

  datatype Kind = ValueChanged | TypeChanged | KeyAdded | KeyDropped | LengthChanged

  /** One reported difference: where, and what happened there. */
  datatype Delta = Delta(path: seq<Step>, kind: Kind)

  /** `type(a) is type(b)` for values that are neither both numbers nor booleans. */
  predicate SameType(a: Json, b: Json) {
    a.Null? == b.Null? && a.Bool? == b.Bool? && a.Num? == b.Num?
    && a.Str? == b.Str? && a.Arr? == b.Arr? && a.Obj? == b.Obj?
  }

  /** `_diff`: every difference between the committed and the current tree. */
  ghost function Diff(committed: Json, current: Json, path: seq<Step>): seq<Delta>
    decreases committed, 1, 0
  {
    if committed.Bool? || current.Bool? then
      if BoolEqual(committed, current) then [] else [Delta(path, ValueChanged)]
    else if committed.Num? && current.Num? then
      if NumClose(committed.x, current.x) then [] else [Delta(path, ValueChanged)]
    else if !SameType(committed, current) then [Delta(path, TypeChanged)]
    else if committed.Obj? then
      DiffFields(committed, current, SortedSet(committed.fields.Keys + current.fields.Keys), path)
    else if committed.Arr? then
      if |committed.items| != |current.items| then [Delta(path, LengthChanged)]
      else DiffItems(committed, current, 0, path)
    else if committed == current then []
    else [Delta(path, ValueChanged)]
  }

  /** The loop over the sorted keys of two objects. */
  ghost function DiffFields(a: Json, b: Json, keys: seq<string>, path: seq<Step>): seq<Delta>
    requires a.Obj? && b.Obj? && forall k :: k in keys ==> k in a.fields || k in b.fields
    decreases a, 0, |keys|
  {
    if keys == [] then []
    else
      var key := keys[0];
      var here := path + [Key(key)];
      (if key in IGNORE_KEYS then []
       else if key !in a.fields then [Delta(here, KeyAdded)]
       else if key !in b.fields then [Delta(here, KeyDropped)]
       else Diff(a.fields[key], b.fields[key], here))
      + DiffFields(a, b, keys[1..], path)
  }

  /** The loop over two arrays of equal length. */
  ghost function DiffItems(a: Json, b: Json, i: nat, path: seq<Step>): seq<Delta>
    requires a.Arr? && b.Arr? && |a.items| == |b.items| && i <= |a.items|
    decreases a, 0, |a.items| - i
  {
    if i == |a.items| then []
    else Diff(a.items[i], b.items[i], path + [Index(i)]) + DiffItems(a, b, i + 1, path)
  }

  // -------------------------------------------------------------- closeness

  /** Ten thousand times the difference, taken either way, is at most `1 + m`. */
  ghost predicate Within(x: real, y: real, m: real) { 10000.0 * (x - y) <= 1.0 + m && 10000.0 * (y - x) <= 1.0 + m }

  /** The difference is at most one ten-thousandth, and one part in ten thousand of either
      number more. */
  ghost predicate WithinTolerance(x: real, y: real) {
    Within(x, y, x) || Within(x, y, -x) || Within(x, y, y) || Within(x, y, -y)
  }

  /** The number a value counts as, if it counts as one. */
  function NumberOf(j: Json): Option<real> {
    match j
    case Bool(b) => Some(if b then 1.0 else 0.0)
    case Num(x) => Some(x)
    case _ => None
  }

  /** The tolerance relation the gate is meant to decide: equal shape, equal strings and
      nulls, numbers within tolerance, ignored keys dropped at every depth.  It is no
      equivalence, because small steps add up.  A boolean is close to what Python calls
      equal to it, so true is close to the number 1 exactly. */
  ghost predicate Close(a: Json, b: Json)
    decreases a
  {
    if a.Bool? || b.Bool? then NumberOf(a).Some? && NumberOf(a) == NumberOf(b)
    else match (a, b)
      case (Num(x), Num(y)) => WithinTolerance(x, y)
      case (Arr(xs), Arr(ys)) => |xs| == |ys| && forall i :: 0 <= i < |xs| ==> Close(xs[i], ys[i])
      case (Obj(f), Obj(g)) =>
        forall k :: k != "python_version" ==> (k in f <==> k in g) && (k in f && k in g ==> Close(f[k], g[k]))
      case _ => a == b
  }

  lemma NumCloseIsWithin(x: real, y: real)
    ensures NumClose(x, y) <==> WithinTolerance(x, y)
  {
  }

  /** Two numbers are reported exactly if they are not within tolerance; a boolean and
      whatever it is compared with exactly if they are not the same number. */
  lemma LeavesDiffer(x: real, y: real, b: bool, c: bool, path: seq<Step>)
    ensures Diff(Num(x), Num(y), path) == [] <==> WithinTolerance(x, y)
    ensures Diff(Bool(b), Bool(c), path) == [] <==> b == c
    ensures Diff(Bool(b), Num(x), path) == [] <==> (b && x == 1.0) || (!b && x == 0.0)
    ensures Diff(Num(x), Bool(b), path) == [] <==> (b && x == 1.0) || (!b && x == 0.0)
  {
    NumCloseIsWithin(x, y);
  }

  ghost predicate FieldClose(a: Json, b: Json, k: string)
    requires a.Obj? && b.Obj?
  {
    k == "python_version" || (k in a.fields && k in b.fields && Close(a.fields[k], b.fields[k]))
  }

  lemma CloseObjects(a: Json, b: Json)
    requires a.Obj? && b.Obj?
    ensures Close(a, b) <==> forall k :: k in a.fields.Keys + b.fields.Keys ==> FieldClose(a, b, k)
  {
    if forall k :: k in a.fields.Keys + b.fields.Keys ==> FieldClose(a, b, k) {
      forall k | k != "python_version"
        ensures (k in a.fields <==> k in b.fields)
          && (k in a.fields && k in b.fields ==> Close(a.fields[k], b.fields[k]))
      {
        assert k in a.fields.Keys + b.fields.Keys ==> FieldClose(a, b, k);
      }
    }
  }

  /** The gate is exact: nothing is reported precisely for close trees. */
  lemma {:induction false} DiffDecidesClose(a: Json, b: Json, path: seq<Step>)
    ensures Diff(a, b, path) == [] <==> Close(a, b)
    decreases a, 1, 0
  {
    if a.Num? && b.Num? {
      NumCloseIsWithin(a.x, b.x);
    } else if a.Bool? || b.Bool? || !SameType(a, b) {
    } else if a.Obj? {
      FieldsDecide(a, b, SortedSet(a.fields.Keys + b.fields.Keys), path);
      CloseObjects(a, b);
    } else if a.Arr? && |a.items| == |b.items| {
      ItemsDecide(a, b, 0, path);
    }
  }

  ghost predicate FieldsClose(a: Json, b: Json, keys: seq<string>)
    requires a.Obj? && b.Obj?
  {
    forall k :: k in keys ==> FieldClose(a, b, k)
  }

  lemma FieldsCloseStep(a: Json, b: Json, keys: seq<string>)
    requires a.Obj? && b.Obj? && keys != []
    ensures FieldsClose(a, b, keys) <==> FieldClose(a, b, keys[0]) && FieldsClose(a, b, keys[1..])
  {
    assert keys == [keys[0]] + keys[1..];
  }

  lemma {:induction false} FieldsDecide(a: Json, b: Json, keys: seq<string>, path: seq<Step>)
    requires a.Obj? && b.Obj? && forall k :: k in keys ==> k in a.fields || k in b.fields
    ensures DiffFields(a, b, keys, path) == [] <==> FieldsClose(a, b, keys)
    decreases a, 0, |keys|
  {
    if keys != [] {
      var key := keys[0];
      FieldsDecide(a, b, keys[1..], path);
      FieldsCloseStep(a, b, keys);
      if key in a.fields && key in b.fields {
        DiffDecidesClose(a.fields[key], b.fields[key], path + [Key(key)]);
      }
    }
  }

  lemma {:induction false} ItemsDecide(a: Json, b: Json, i: nat, path: seq<Step>)
    requires a.Arr? && b.Arr? && |a.items| == |b.items| && i <= |a.items|
    ensures DiffItems(a, b, i, path) == [] <==> forall j :: i <= j < |a.items| ==> Close(a.items[j], b.items[j])
    decreases a, 0, |a.items| - i
  {
    if i < |a.items| {
      ItemsDecide(a, b, i + 1, path);
      DiffDecidesClose(a.items[i], b.items[i], path + [Index(i)]);
    }
  }

  // ------------------------------------------------------------- properties

  lemma {:induction false} CloseToItself(a: Json)
    ensures Close(a, a)
  {
    match a {
      case Num(x) => NumCloseIsWithin(x, x);
      case Arr(items) =>
        forall i | 0 <= i < |items| ensures Close(items[i], items[i]) { CloseToItself(items[i]); }
      case Obj(fields) =>
        forall k | k in fields ensures Close(fields[k], fields[k]) { CloseToItself(fields[k]); }
      case _ =>
    }
  }

  /** Regenerating an identical fixture reports nothing. */
  lemma NoDriftOnEqual(a: Json, path: seq<Step>)
    ensures Diff(a, a, path) == []
  {
    CloseToItself(a);
    DiffDecidesClose(a, a, path);
  }

  /** Swapping the trees turns added keys into dropped ones and changes nothing else. */
  function Mirror(k: Kind): Kind {
    match k
    case KeyAdded => KeyDropped
    case KeyDropped => KeyAdded
    case _ => k
  }

  function MirrorAll(ds: seq<Delta>): (r: seq<Delta>)
    ensures |r| == |ds| && forall i :: 0 <= i < |ds| ==> r[i] == Delta(ds[i].path, Mirror(ds[i].kind))
  {
    seq(|ds|, i requires 0 <= i < |ds| => Delta(ds[i].path, Mirror(ds[i].kind)))
  }

  lemma MirrorConcat(x: seq<Delta>, y: seq<Delta>)
    ensures MirrorAll(x + y) == MirrorAll(x) + MirrorAll(y)
  {
  }

  lemma MirrorOne(path: seq<Step>)
    ensures MirrorAll([Delta(path, KeyAdded)]) == [Delta(path, KeyDropped)]
    ensures MirrorAll([Delta(path, KeyDropped)]) == [Delta(path, KeyAdded)]
  {
  }

  /** Both directions report the same paths in the same order. */
  lemma {:induction false} DiffIsMirrored(a: Json, b: Json, path: seq<Step>)
    ensures Diff(b, a, path) == MirrorAll(Diff(a, b, path))
    decreases a, 1, 0
  {
    if a.Bool? || b.Bool? || (a.Num? && b.Num?) || !SameType(a, b) {
    } else if a.Obj? {
      var keys := a.fields.Keys + b.fields.Keys;
      assert keys == b.fields.Keys + a.fields.Keys;
      FieldsMirrored(a, b, SortedSet(keys), path);
    } else if a.Arr? && |a.items| == |b.items| {
      ItemsMirrored(a, b, 0, path);
    }
  }

  lemma {:induction false} FieldsMirrored(a: Json, b: Json, keys: seq<string>, path: seq<Step>)
    requires a.Obj? && b.Obj? && forall k :: k in keys ==> k in a.fields || k in b.fields
    ensures DiffFields(b, a, keys, path) == MirrorAll(DiffFields(a, b, keys, path))
    decreases a, 0, |keys|
  {
    if keys != [] {
      var key := keys[0];
      var here := path + [Key(key)];
      FieldsMirrored(a, b, keys[1..], path);
      MirrorOne(here);
      if key in a.fields && key in b.fields {
        DiffIsMirrored(a.fields[key], b.fields[key], here);
      }
    }
  }

  lemma {:induction false} ItemsMirrored(a: Json, b: Json, i: nat, path: seq<Step>)
    requires a.Arr? && b.Arr? && |a.items| == |b.items| && i <= |a.items|
    ensures DiffItems(b, a, i, path) == MirrorAll(DiffItems(a, b, i, path))
    decreases a, 0, |a.items| - i
  {
    if i < |a.items| {
      var here := path + [Index(i)];
      ItemsMirrored(a, b, i + 1, path);
      DiffIsMirrored(a.items[i], b.items[i], here);
      MirrorConcat(Diff(a.items[i], b.items[i], here), DiffItems(a, b, i + 1, path));
    }
  }

  // --------------------------------------------------- what is reported

  /** What a report says of the two values at its place. */
  ghost predicate Justified(a: Json, b: Json, kind: Kind) {
    match kind
    case ValueChanged =>
      || ((a.Bool? || b.Bool?) && (NumberOf(a).None? || NumberOf(a) != NumberOf(b)))
      || (a.Num? && b.Num? && !WithinTolerance(a.x, b.x))
      || (a.Str? && b.Str? && a != b)
    case TypeChanged => !a.Bool? && !b.Bool? && !SameType(a, b)
    case LengthChanged => a.Arr? && b.Arr? && |a.items| != |b.items|
    case _ => false
  }

  /** What there is to report at `steps`: a field only one object has, or two values that
      differ, met by going down through common fields that are not ignored and through
      arrays of equal length. */
  ghost predicate Differs(a: Json, b: Json, steps: seq<Step>, kind: Kind)
    decreases |steps|
  {
    if steps == [] then Justified(a, b, kind)
    else match steps[0]
      case Key(k) =>
        && a.Obj? && b.Obj? && k != "python_version"
        && (if k in a.fields && k in b.fields then Differs(a.fields[k], b.fields[k], steps[1..], kind)
            else steps == [Key(k)] && kind == (if k in b.fields then KeyAdded else KeyDropped)
                 && (k in a.fields || k in b.fields))
      case Index(i) =>
        && a.Arr? && b.Arr? && |a.items| == |b.items| && i < |a.items|
        && Differs(a.items[i], b.items[i], steps[1..], kind)
  }

  /** `d` lies below `path`, and there is such a difference there. */
  ghost predicate Reports(a: Json, b: Json, path: seq<Step>, d: Delta) {
    path <= d.path && Differs(a, b, d.path[|path|..], d.kind)
  }

  lemma Deeper(path: seq<Step>, step: Step, full: seq<Step>)
    ensures path + [step] <= full <==> path <= full && |path| < |full| && full[|path|] == step
    ensures path + [step] <= full ==> full[|path|..][0] == step && full[|path|..][1..] == full[|path + [step]|..]
  {
    if path <= full && |path| < |full| && full[|path|] == step {
      assert full == path + full[|path|..];
      assert full[..|path| + 1] == path + [step];
    }
  }

  lemma LeafIsExact(a: Json, b: Json, path: seq<Step>, d: Delta)
    requires !(a.Obj? && b.Obj?) && !(a.Arr? && b.Arr? && |a.items| == |b.items|)
    requires a.Num? && b.Num? ==> (NumClose(a.x, b.x) <==> WithinTolerance(a.x, b.x))
    ensures d in Diff(a, b, path) <==> Reports(a, b, path, d)
  {
    if path <= d.path && d.path[|path|..] == [] {
      assert d.path == path;
    }
  }

  /** `d` is reported for the field `k` of two objects. */
  ghost predicate FieldReports(a: Json, b: Json, k: string, path: seq<Step>, d: Delta)
    requires a.Obj? && b.Obj? && (k in a.fields || k in b.fields)
  {
    k != "python_version" &&
    if k !in a.fields then d == Delta(path + [Key(k)], KeyAdded)
    else if k !in b.fields then d == Delta(path + [Key(k)], KeyDropped)
    else Reports(a.fields[k], b.fields[k], path + [Key(k)], d)
  }

  ghost predicate SomeFieldReports(a: Json, b: Json, keys: seq<string>, path: seq<Step>, d: Delta)
    requires a.Obj? && b.Obj? && forall k :: k in keys ==> k in a.fields || k in b.fields
  {
    exists k :: k in keys && FieldReports(a, b, k, path, d)
  }

  lemma SomeFieldStep(a: Json, b: Json, keys: seq<string>, path: seq<Step>, d: Delta)
    requires a.Obj? && b.Obj? && keys != [] && forall k :: k in keys ==> k in a.fields || k in b.fields
    ensures SomeFieldReports(a, b, keys, path, d)
       <==> FieldReports(a, b, keys[0], path, d) || SomeFieldReports(a, b, keys[1..], path, d)
  {
    assert keys == [keys[0]] + keys[1..];
  }

  lemma {:induction false} FieldsAreExact(a: Json, b: Json, keys: seq<string>, path: seq<Step>, d: Delta)
    requires a.Obj? && b.Obj? && forall k :: k in keys ==> k in a.fields || k in b.fields
    ensures d in DiffFields(a, b, keys, path) <==> SomeFieldReports(a, b, keys, path, d)
    decreases a, 0, |keys|
  {
    if keys != [] {
      var key := keys[0];
      FieldsAreExact(a, b, keys[1..], path, d);
      SomeFieldStep(a, b, keys, path, d);
      if key in a.fields && key in b.fields {
        DiffIsExact(a.fields[key], b.fields[key], path + [Key(key)], d);
      }
    }
  }

  lemma FieldIsReported(a: Json, b: Json, k: string, path: seq<Step>, d: Delta)
    requires a.Obj? && b.Obj? && (k in a.fields || k in b.fields)
    ensures FieldReports(a, b, k, path, d) <==>
      path + [Key(k)] <= d.path && Reports(a, b, path, d)
  {
    Deeper(path, Key(k), d.path);
    if path + [Key(k)] <= d.path {
      var rest := d.path[|path|..];
      if rest == [Key(k)] { assert d.path == path + rest; }
      if d.path == path + [Key(k)] { assert rest == [Key(k)]; }
    }
  }

  lemma ReportStartsWithKey(a: Json, b: Json, path: seq<Step>, d: Delta) returns (k: string)
    requires a.Obj? && b.Obj? && Reports(a, b, path, d)
    ensures path + [Key(k)] <= d.path && (k in a.fields || k in b.fields)
  {
    var step := d.path[|path|..][0];
    Deeper(path, step, d.path);
    k := step.name;
  }

  lemma ObjectReports(a: Json, b: Json, path: seq<Step>, d: Delta)
    requires a.Obj? && b.Obj?
    ensures SomeFieldReports(a, b, SortedSet(a.fields.Keys + b.fields.Keys), path, d) <==> Reports(a, b, path, d)
  {
    var keys := SortedSet(a.fields.Keys + b.fields.Keys);
    if Reports(a, b, path, d) {
      var k := ReportStartsWithKey(a, b, path, d);
      FieldIsReported(a, b, k, path, d);
      assert k in keys;
    } else if SomeFieldReports(a, b, keys, path, d) {
      var k :| k in keys && FieldReports(a, b, k, path, d);
      FieldIsReported(a, b, k, path, d);
    }
  }

  ghost predicate ItemReports(a: Json, b: Json, i: int, path: seq<Step>, d: Delta)
    requires a.Arr? && b.Arr? && |a.items| == |b.items| && 0 <= i < |a.items|
  {
    Reports(a.items[i], b.items[i], path + [Index(i)], d)
  }

  lemma {:induction false} ItemsAreExact(a: Json, b: Json, i: nat, path: seq<Step>, d: Delta)
    requires a.Arr? && b.Arr? && |a.items| == |b.items| && i <= |a.items|
    ensures d in DiffItems(a, b, i, path) <==> exists j :: i <= j < |a.items| && ItemReports(a, b, j, path, d)
    decreases a, 0, |a.items| - i
  {
    if i < |a.items| {
      ItemsAreExact(a, b, i + 1, path, d);
      DiffIsExact(a.items[i], b.items[i], path + [Index(i)], d);
      assert ItemReports(a, b, i, path, d) <==> d in Diff(a.items[i], b.items[i], path + [Index(i)]);
    }
  }

  lemma ArrayReports(a: Json, b: Json, path: seq<Step>, d: Delta)
    requires a.Arr? && b.Arr? && |a.items| == |b.items|
    ensures (exists j :: 0 <= j < |a.items| && ItemReports(a, b, j, path, d)) <==> Reports(a, b, path, d)
  {
    forall j | 0 <= j < |a.items|
      ensures ItemReports(a, b, j, path, d) <==> path + [Index(j)] <= d.path && Reports(a, b, path, d)
    {
      Deeper(path, Index(j), d.path);
    }
    if Reports(a, b, path, d) {
      var step := d.path[|path|..][0];
      Deeper(path, step, d.path);
      assert ItemReports(a, b, step.i, path, d);
    }
  }

  /** The reports name exactly the differences: each with its place and its kind. */
  lemma {:induction false} DiffIsExact(a: Json, b: Json, path: seq<Step>, d: Delta)
    ensures d in Diff(a, b, path) <==> Reports(a, b, path, d)
    decreases a, 1, 0
  {
    if a.Num? && b.Num? {
      NumCloseIsWithin(a.x, b.x);
      LeafIsExact(a, b, path, d);
    } else if a.Bool? || b.Bool? || !SameType(a, b) {
      LeafIsExact(a, b, path, d);
    } else if a.Obj? {
      var keys := a.fields.Keys + b.fields.Keys;
      FieldsAreExact(a, b, SortedSet(keys), path, d);
      ObjectReports(a, b, path, d);
    } else if a.Arr? && |a.items| == |b.items| {
      ItemsAreExact(a, b, 0, path, d);
      ArrayReports(a, b, path, d);
    } else {
      LeafIsExact(a, b, path, d);
    }
  }

  /** `steps` leads to a node of the tree, through no ignored key. */
  ghost predicate Resolves(j: Json, steps: seq<Step>)
    decreases |steps|
  {
    steps == [] ||
    match steps[0]
    case Key(k) => k != "python_version" && j.Obj? && k in j.fields && Resolves(j.fields[k], steps[1..])
    case Index(i) => j.Arr? && i < |j.items| && Resolves(j.items[i], steps[1..])
  }

  lemma {:induction false} DifferencesExist(a: Json, b: Json, steps: seq<Step>, kind: Kind)
    requires Differs(a, b, steps, kind)
    ensures Resolves(b, steps) <==> kind != KeyDropped
    ensures Resolves(a, steps) <==> kind != KeyAdded
    decreases |steps|
  {
    if steps != [] {
      match steps[0]
      case Key(k) =>
        if k in a.fields && k in b.fields { DifferencesExist(a.fields[k], b.fields[k], steps[1..], kind); }
      case Index(i) => DifferencesExist(a.items[i], b.items[i], steps[1..], kind);
    }
  }

  /** Every reported path names a place of the trees: one of the current tree alone for an
      added key, one of the committed tree alone for a dropped key, of both otherwise. */
  lemma DiffPathsExist(a: Json, b: Json, path: seq<Step>, d: Delta)
    requires d in Diff(a, b, path)
    ensures path <= d.path
    ensures Resolves(b, d.path[|path|..]) <==> d.kind != KeyDropped
    ensures Resolves(a, d.path[|path|..]) <==> d.kind != KeyAdded
  {
    DiffIsExact(a, b, path, d);
    DifferencesExist(a, b, d.path[|path|..], d.kind);
  }

  /** The tree without the metadata stamps, at any depth. */
  function Strip(j: Json): Json {
    match j
    case Arr(items) => Arr(seq(|items|, i requires 0 <= i < |items| => Strip(items[i])))
    case Obj(fields) => Obj(map k | k in fields && k != "python_version" :: Strip(fields[k]))
    case _ => j
  }

  /** Stamps never count, however deep: stripping them from either tree, or from both,
      does not change the verdict. */
  lemma {:induction false} StampsNeverCount(a: Json, b: Json)
    ensures Close(Strip(a), b) <==> Close(a, b)
    ensures Close(a, Strip(b)) <==> Close(a, b)
    decreases a
  {
    match (a, b) {
      case (Arr(xs), Arr(ys)) =>
        if |xs| == |ys| {
          forall i | 0 <= i < |xs|
            ensures (Close(Strip(xs[i]), ys[i]) <==> Close(xs[i], ys[i]))
              && (Close(xs[i], Strip(ys[i])) <==> Close(xs[i], ys[i]))
          {
            StampsNeverCount(xs[i], ys[i]);
          }
        }
      case (Obj(f), Obj(g)) =>
        forall k | k in f && k in g
          ensures (Close(Strip(f[k]), g[k]) <==> Close(f[k], g[k])) && (Close(f[k], Strip(g[k])) <==> Close(f[k], g[k]))
        {
          StampsNeverCount(f[k], g[k]);
        }
      case _ =>
    }
  }
}
