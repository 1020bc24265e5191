/** scripts/coverage_paths.py: one name for every spelling of a module's path. */
module CoveragePaths {
  import opened Options

  const PKG := "goldenmatch/"

  /** `m` occurs in `s` at position `i`. */
  predicate OccursAt(s: string, m: string, i: nat) { i <= |s| && m <= s[i..] }

  /** `s.rfind(m)` over the positions below `n`: the last occurrence, if there is one. */
  function FindLast(s: string, m: string, n: nat): (r: Option<nat>)
    ensures r.Some? ==> r.value < n && OccursAt(s, m, r.value)
    ensures forall i :: 0 <= i < n && OccursAt(s, m, i) ==> r.Some? && i <= r.value
  {
    if n == 0 then None
    else if OccursAt(s, m, n - 1) then Some(n - 1)
    else FindLast(s, m, n - 1)
  }

  /** `s.replace("\\", "/")`. */
  function Slashed(s: string): (r: string)
    ensures |r| == |s| && forall i :: 0 <= i < |s| ==> r[i] == if s[i] == '\\' then '/' else s[i]
  {
    seq(|s|, i requires 0 <= i < |s| => if s[i] == '\\' then '/' else s[i])
  }

  /** `s.lstrip("./")`: the dots and slashes at the front are gone, and nothing else. */
  function StripLeft(s: string): (r: string)
    ensures |r| <= |s| && r == s[|s| - |r|..]
    ensures r == "" || (r[0] != '.' && r[0] != '/')
    ensures forall i :: 0 <= i < |s| - |r| ==> s[i] == '.' || s[i] == '/'
  {
    if s == "" || s[0] !in "./" then s else StripLeft(s[1..])
  }

  function Normalize(filename: Option<string>): string {
    var name := Slashed(if filename.Some? then filename.value else "");
    match FindLast(name, PKG, |name|)
    case Some(i) => name[i..]
    case None => PKG + StripLeft(name)
  }

  // ------------------------------------------------------------- properties

  ghost predicate PackageFree(s: string) { forall i :: 0 <= i <= |s| ==> !OccursAt(s, PKG, i) }

  /** The package prefix cannot overlap itself: its first letter does not come again. */
  lemma NoSelfOverlap(s: string, i: nat)
    requires PKG <= s && 0 < i < |PKG|
    ensures !OccursAt(s, PKG, i)
  {
    assert s[i..][0] == s[i] == PKG[i] != PKG[0];
  }

  lemma OccursInTail(s: string, k: nat, i: nat)
    requires k <= i <= |s|
    ensures OccursAt(s, PKG, i) <==> OccursAt(s[k..], PKG, i - k)
  {
    assert s[k..][i - k..] == s[i..];
  }

  /** In `front + PKG + rest`, with no package prefix in `rest`, the last one is the one shown. */
  lemma LastPackage(front: string, rest: string)
    requires PackageFree(rest)
    ensures FindLast(front + PKG + rest, PKG, |front + PKG + rest|) == Some(|front|)
  {
    var s, k := front + PKG + rest, |front|;
    assert s[k..] == PKG + rest && (PKG + rest)[|PKG|..] == rest;
    assert OccursAt(s, PKG, k);
    forall i | k < i < |s| ensures !OccursAt(s, PKG, i) {
      OccursInTail(s, k, i);
      if i - k < |PKG| {
        NoSelfOverlap(PKG + rest, i - k);
      } else {
        OccursInTail(PKG + rest, |PKG|, i - k);
        assert !OccursAt(rest, PKG, i - k - |PKG|);
      }
    }
  }

  lemma SlashedConcat(a: string, b: string)
    ensures Slashed(a + b) == Slashed(a) + Slashed(b)
  {
  }

  /** A name that reads `front` + package prefix + `rest` once its backslashes are turned
      normalizes to what follows the last prefix, prefix included. */
  lemma PackagedIsNormal(name: string, front: string, rest: string)
    requires Slashed(name) == front + PKG + rest && PackageFree(rest)
    ensures Normalize(Some(name)) == PKG + rest
  {
    LastPackage(front, rest);
    assert (front + PKG + rest)[|front|..] == PKG + rest;
  }

  /** Every normal form is the package prefix and a rest that has neither the prefix nor a
      backslash in it. */
  lemma NormalForm(filename: Option<string>) returns (rest: string)
    ensures Normalize(filename) == PKG + rest
    ensures PackageFree(rest) && Slashed(rest) == rest
  {
    var name := Slashed(if filename.Some? then filename.value else "");
    match FindLast(name, PKG, |name|) {
      case Some(k) =>
        var tail := name[k..];
        rest := tail[|PKG|..];
        assert tail == PKG + rest;
        forall i | 0 <= i <= |rest| ensures !OccursAt(rest, PKG, i) {
          OccursInTail(tail, |PKG|, i + |PKG|);
          OccursInTail(name, k, k + |PKG| + i);
        }
      case None =>
        rest := StripLeft(name);
        var k := |name| - |rest|;
        forall i | 0 <= i <= |rest| ensures !OccursAt(rest, PKG, i) {
          OccursInTail(name, k, k + i);
        }
    }
  }

  /** Normalizing twice is normalizing once. */
  lemma NormalizeIsIdempotent(filename: Option<string>)
    ensures Normalize(Some(Normalize(filename))) == Normalize(filename)
  {
    var rest := NormalForm(filename);
    NormalStaysNormal(Normalize(filename), rest);
  }

  lemma PackageHasNoBackslash()
    ensures Slashed(PKG) == PKG
  {
  }

  lemma NothingInFront(a: string, b: string)
    ensures [] + a + b == a + b
  {
  }

  lemma NormalStaysNormal(name: string, rest: string)
    requires name == PKG + rest && PackageFree(rest) && Slashed(rest) == rest
    ensures Normalize(Some(name)) == name
  {
    SlashedConcat(PKG, rest);
    PackageHasNoBackslash();
    NothingInFront(PKG, rest);
    PackagedIsNormal(name, [], rest);
  }

  /** Every spelling of a module that names the package, its separators either way and
      whatever stands before the package, gets one name; a spelling `alone` that gives the
      path inside the package only agrees exactly when that path does not begin with '.'
      or '/'. */
  lemma SpellingsCollapse(name: string, front: string, alone: string, rest: string)
    requires Slashed(name) == front + PKG + rest && Slashed(alone) == rest && PackageFree(rest)
    ensures Normalize(Some(name)) == PKG + rest
    ensures Normalize(Some(alone)) == Normalize(Some(name)) <==> rest == "" || (rest[0] != '.' && rest[0] != '/')
  {
    PackagedIsNormal(name, front, rest);
    assert FindLast(rest, PKG, |rest|).None?;
    assert (PKG + StripLeft(rest))[|PKG|..] == StripLeft(rest) && (PKG + rest)[|PKG|..] == rest;
  }

  /** The repository nests the package in a directory of the same name. */
  lemma RepositoryPath(name: string, rest: string)
    requires Slashed(name) == "packages/python/goldenmatch/" + PKG + rest && PackageFree(rest)
    ensures Normalize(Some(name)) == PKG + rest
  {
    PackagedIsNormal(name, "packages/python/goldenmatch/", rest);
  }

  /** No two modules share a name: spelled with the package, different paths stay apart. */
  lemma NamesStayApart(name: string, front: string, rest: string, name': string, front': string, rest': string)
    requires Slashed(name) == front + PKG + rest && PackageFree(rest)
    requires Slashed(name') == front' + PKG + rest' && PackageFree(rest')
    ensures Normalize(Some(name)) == Normalize(Some(name')) <==> rest == rest'
  {
    PackagedIsNormal(name, front, rest);
    PackagedIsNormal(name', front', rest');
    assert (PKG + rest)[|PKG|..] == rest && (PKG + rest')[|PKG|..] == rest';
  }

  lemma ShortIsPackageFree(rest: string)
    requires |rest| < |PKG|
    ensures PackageFree(rest)
  {
  }

  /** A Windows spelling is one of these. */
  lemma WindowsSpelling()
    ensures Normalize(Some("g\\goldenmatch\\core.py")) == PKG + "core.py"
  {
    SlashedConcat("g\\goldenmatch\\", "core.py");
    SlashedConcat("g\\", "goldenmatch\\");
    assert Slashed("core.py") == "core.py" && Slashed("g\\") == "g/" && Slashed("goldenmatch\\") == PKG;
    assert "g\\" + "goldenmatch\\" == "g\\goldenmatch\\";
    assert "g\\goldenmatch\\" + "core.py" == "g\\goldenmatch\\core.py";
    ShortIsPackageFree("core.py");
    PackagedIsNormal("g\\goldenmatch\\core.py", "g/", "core.py");
  }

  /** A path inside the package that begins with a dot gets two names. */
  lemma DottedPathHasTwoNames()
    ensures Normalize(Some(".x")) != Normalize(Some(PKG + ".x"))
  {
    ShortIsPackageFree(".x");
    SlashedConcat(PKG, ".x");
    PackageHasNoBackslash();
    NothingInFront(PKG, ".x");
    assert Slashed(".x") == ".x";
    SpellingsCollapse(PKG + ".x", [], ".x", ".x");
  }
}
