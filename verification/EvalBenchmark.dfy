/** scripts/eval_benchmark.py: collapsing ground-truth pairs into a numbered series. */
module EvalBenchmark {
  import opened Bags
  import opened Connectivity
  import opened Partitions
  import opened Clusterings

  // ---------------------------------------------------------------- forest

  /** What holds of one entry `x`: its parent and representative are entries, the
      parent has the same representative, a representative is its own parent, and
      levels strictly grow along parent links. */
  ghost predicate Node<T>(parent: map<T, T>, rep: map<T, T>, level: map<T, nat>, x: T)
    requires parent.Keys == rep.Keys == level.Keys && x in parent
  {
    && parent[x] in parent && rep[x] in parent
    && rep[parent[x]] == rep[x] && parent[rep[x]] == rep[x]
    && (if parent[x] == x then rep[x] == x else level[x] < level[parent[x]])
  }

  ghost predicate Acyclic<T>(parent: map<T, T>, rep: map<T, T>, level: map<T, nat>) {
    && parent.Keys == rep.Keys == level.Keys
    && forall x {:trigger Node(parent, rep, level, x)} :: x in parent ==> Node(parent, rep, level, x)
  }

  /** Pointing `x` at its grandparent keeps every representative and every level. */
  lemma HalvingKeepsForest<T>(parent: map<T, T>, rep: map<T, T>, level: map<T, nat>, x: T)
    requires Acyclic(parent, rep, level) && x in parent
    requires parent[x] in parent
    ensures Acyclic(parent[x := parent[parent[x]]], rep, level)
  {
    var parent' := parent[x := parent[parent[x]]];
    assert Node(parent, rep, level, x) && Node(parent, rep, level, parent[x]);
    assert Node(parent, rep, level, parent[parent[x]]);
    forall z | z in parent'
      ensures Node(parent', rep, level, z)
    {
      assert Node(parent, rep, level, z);
      assert Node(parent, rep, level, rep[z]);
    }
  }

  /** The forest data after root `rx` is hung under root `ry`. */
  ghost predicate Linked<T>(parent: map<T, T>, rep: map<T, T>, level: map<T, nat>, rx: T, ry: T,
                            rep': map<T, T>, level': map<T, nat>) {
    && rx in parent && ry in parent && rx != ry && parent[rx] == rx && parent[ry] == ry
    && rx in level && ry in level
    && rep' == (map z | z in rep :: if rep[z] == rx then ry else rep[z])
    && level' == level[ry := if level[ry] <= level[rx] then level[rx] + 1 else level[ry]]
  }

  lemma LinkKeepsNode<T>(parent: map<T, T>, rep: map<T, T>, level: map<T, nat>, rx: T, ry: T,
                         rep': map<T, T>, level': map<T, nat>, z: T)
    requires Acyclic(parent, rep, level) && Linked(parent, rep, level, rx, ry, rep', level') && z in parent
    ensures parent[rx := ry].Keys == rep'.Keys == level'.Keys && Node(parent[rx := ry], rep', level', z)
  {
    assert Node(parent, rep, level, rx) && Node(parent, rep, level, ry);
    assert Node(parent, rep, level, z);
    assert Node(parent, rep, level, parent[z]);
  }

  /** Hanging root `rx` under root `ry` merges their two classes and no others. */
  lemma LinkKeepsForest<T>(parent: map<T, T>, rep: map<T, T>, level: map<T, nat>, rx: T, ry: T,
                           rep': map<T, T>, level': map<T, nat>)
    requires Acyclic(parent, rep, level) && Linked(parent, rep, level, rx, ry, rep', level')
    ensures Acyclic(parent[rx := ry], rep', level')
  {
    forall z | z in parent ensures Node(parent[rx := ry], rep', level', z) {
      LinkKeepsNode(parent, rep, level, rx, ry, rep', level', z);
    }
  }

  /** The `parent` dictionary shared by `find` and `union`.

      `parent` is the only real field.  `rep` is the record each entry's chain of
      parents ends in; `level` is bounded by `top` and shows the forest acyclic. */
  class Forest<T(==, !new)> {
    var parent: map<T, T>
    ghost var rep: map<T, T>
    ghost var level: map<T, nat>
    ghost var top: nat

    ghost predicate Valid()
      reads this
    {
      && Acyclic(parent, rep, level)
      && forall x :: x in level ==> level[x] <= top
    }

    constructor (allIds: seq<T>)
      ensures Valid()
      ensures parent.Keys == set x | x in allIds
      ensures forall x :: x in rep ==> rep[x] == x
    {
      parent := map x | x in allIds :: x;
      rep := map x | x in allIds :: x;
      level := map x | x in allIds :: 0;
      top := 0;
    }

    /** Path halving: every second node on the way up is pointed at its grandparent.
        The forest stays acyclic and no record changes its representative. */
    method Find(start: T) returns (x: T)
      requires Valid() && start in parent
      modifies this`parent
      ensures Valid() && parent.Keys == old(parent.Keys)
      ensures start in rep && x == rep[start] && x in parent && parent[x] == x
    {
      x := start;
      while parent[x] != x
        invariant Valid() && parent.Keys == old(parent.Keys)
        invariant x in parent && rep[x] == rep[start]
        decreases top - level[x]
      {
        assert Node(parent, rep, level, x) && Node(parent, rep, level, parent[x]);
        HalvingKeepsForest(parent, rep, level, x);
        parent := parent[x := parent[parent[x]]];
        x := parent[x];
      }
      assert Node(parent, rep, level, x);
    }

    /** Afterwards exactly the two classes of `x` and `y` are one, represented by
        what represented `y`; every other record keeps its representative. */
    method Union(x: T, y: T)
      requires Valid() && x in parent && y in parent
      modifies this
      ensures Valid() && parent.Keys == old(parent.Keys) && rep.Keys == old(rep.Keys)
      ensures x in old(rep) && y in old(rep)
      ensures forall z :: z in old(rep) ==>
        rep[z] == if old(rep)[z] == old(rep)[x] then old(rep)[y] else old(rep)[z]
    {
      var rx := Find(x);
      var ry := Find(y);
      assert Node(parent, rep, level, x);
      if rx != ry {
        ghost var rep' := map z | z in rep :: if rep[z] == rx then ry else rep[z];
        ghost var level' := level[ry := if level[ry] <= level[rx] then level[rx] + 1 else level[ry]];
        LinkKeepsForest(parent, rep, level, rx, ry, rep', level');
        parent := parent[rx := ry];
        rep, level, top := rep', level', top + 1;
      }
    }
  }

  // ------------------------------------------------------------- numbering

  function MaxLabel(s: seq<int>): (m: int)
    ensures m >= 0 && forall c :: c in s ==> c <= m
  {
    if s == [] then 0
    else
      var m := MaxLabel(s[..|s| - 1]);
      assert s == s[..|s| - 1] + [s[|s| - 1]];
      if s[|s| - 1] > m then s[|s| - 1] else m
  }

  /** Each entry repeats an earlier number or is the next unused one, from 1 up. */
  ghost predicate FirstAppearance(s: seq<int>) {
    s == [] || (FirstAppearance(s[..|s| - 1]) && 1 <= s[|s| - 1] <= 1 + MaxLabel(s[..|s| - 1]))
  }

  /** The numbers used are exactly 1 .. MaxLabel(s). */
  lemma {:induction false} NumbersAreContiguous(s: seq<int>)
    requires FirstAppearance(s)
    ensures forall c :: c in s <==> 1 <= c <= MaxLabel(s)
  {
    if s != [] {
      var init := s[..|s| - 1];
      assert s == init + [s[|s| - 1]];
      NumbersAreContiguous(init);
    }
  }

  ghost predicate SameKernel<A(!new), B(!new)>(s: seq<A>, t: seq<B>) {
    |s| == |t| && forall i, j :: 0 <= i < |s| && 0 <= j < |s| ==> (s[i] == s[j] <==> t[i] == t[j])
  }

  /** First-appearance numbering is determined by which entries are equal. */
  lemma {:induction false} NumberingIsUnique(s: seq<int>, t: seq<int>)
    requires FirstAppearance(s) && FirstAppearance(t) && SameKernel(s, t)
    ensures s == t
  {
    if s != [] {
      var n := |s| - 1;
      var s0, t0 := s[..n], t[..n];
      NumberingIsUnique(s0, t0);
      NumbersAreContiguous(s0);
      if s[n] in s0 {
        var j :| 0 <= j < n && s0[j] == s[n];
        assert t0[j] == t[n];
      }
      if t[n] in t0 {
        var j :| 0 <= j < n && t0[j] == t[n];
        assert s0[j] == s[n];
      }
      assert s == s0 + [s[n]] && t == t0 + [t[n]];
    }
  }

  // ---------------------------------------------------------------- series

  /** The pairs that count: those with both ends among the ids. */
  ghost function LivePairs<T>(pairs: seq<(T, T)>, allIds: seq<T>): set<(T, T)> {
    set e | e in pairs && e.0 in allIds && e.1 in allIds
  }

  function Labels<T(==)>(out: map<T, int>, allIds: seq<T>): (s: seq<int>)
    requires forall x :: x in allIds ==> x in out
    ensures |s| == |allIds| && forall i :: 0 <= i < |s| ==> s[i] == out[allIds[i]]
  {
    seq(|allIds|, i requires 0 <= i < |allIds| => out[allIds[i]])
  }

  /** What a reference series promises: an id for exactly the given records, equal
      ids exactly for connected records, ids numbered by first appearance. */
  ghost predicate IsSeries<T(!new)>(pairs: seq<(T, T)>, allIds: seq<T>, out: map<T, int>) {
    && (forall x :: x in out <==> x in allIds)
    && (forall x, y :: x in out && y in out ==>
          (out[x] == out[y] <==> Connected(LivePairs(pairs, allIds), x, y)))
    && FirstAppearance(Labels(out, allIds))
  }

  /** `rep` is right for the live pairs `E`: every pair has both ends in one class,
      and every record is connected to the one that represents it. */
  ghost predicate Represents<T(!new)>(E: set<(T, T)>, rep: map<T, T>) {
    && (forall e :: e in E ==> e.0 in rep && e.1 in rep && rep[e.0] == rep[e.1])
    && (forall x :: x in rep ==> Connected(E, x, rep[x]))
  }

  lemma RepresentsDecides<T(!new)>(E: set<(T, T)>, rep: map<T, T>, x: T, y: T)
    requires Represents(E, rep) && x in rep && y in rep
    ensures rep[x] == rep[y] <==> Connected(E, x, y)
  {
    if rep[x] == rep[y] {
      ConnectedSym(E, y, rep[y]);
      ConnectedTrans(E, x, rep[x], y);
    }
    if Connected(E, x, y) {
      ConnectedKeepsLabel(E, rep, x, y);
    }
  }

  lemma RepresentsUnion<T(!new)>(E: set<(T, T)>, rep: map<T, T>, a: T, b: T, rep': map<T, T>)
    requires Represents(E, rep) && a in rep && b in rep
    requires rep'.Keys == rep.Keys
    requires forall z :: z in rep ==> rep'[z] == if rep[z] == rep[a] then rep[b] else rep[z]
    ensures Represents(E + {(a, b)}, rep')
  {
    var F := E + {(a, b)};
    forall z | z in rep'
      ensures Connected(F, z, rep'[z])
    {
      ConnectedMono(E, F, z, rep[z]);
      if rep[z] == rep[a] {
        ConnectedMono(E, F, a, rep[a]);
        ConnectedMono(E, F, b, rep[b]);
        ConnectedSym(F, a, rep[a]);
        ConnectedEdge(F, a, b);
        ConnectedTrans(F, z, rep[a], a);
        ConnectedTrans(F, z, a, b);
        ConnectedTrans(F, z, b, rep[b]);
      }
    }
  }

  lemma LivePairsStep<T>(pairs: seq<(T, T)>, k: nat, allIds: seq<T>)
    requires k < |pairs|
    ensures LivePairs(pairs[..k + 1], allIds) ==
      LivePairs(pairs[..k], allIds) + if pairs[k].0 in allIds && pairs[k].1 in allIds then {pairs[k]} else {}
  {
    assert pairs[..k + 1] == pairs[..k] + [pairs[k]];
  }

  /** The union loop: pairs with an end outside the ids are ignored. */
  method UnionAll<T(==, !new)>(pairs: seq<(T, T)>, allIds: seq<T>) returns (forest: Forest<T>)
    ensures fresh(forest) && forest.Valid()
    ensures forest.parent.Keys == set x | x in allIds
    ensures Represents(LivePairs(pairs, allIds), forest.rep)
  {
    forest := new Forest<T>(allIds);
    ghost var E: set<(T, T)> := {};
    forall x | x in forest.rep ensures Connected(E, x, forest.rep[x]) { ConnectedRefl(E, x); }
    for k := 0 to |pairs|
      invariant fresh(forest) && forest.Valid()
      invariant forest.parent.Keys == set x | x in allIds
      invariant E == LivePairs(pairs[..k], allIds) && Represents(E, forest.rep)
    {
      var (a, b) := pairs[k];
      LivePairsStep(pairs, k, allIds);
      assert a in forest.parent <==> a in allIds;
      assert b in forest.parent <==> b in allIds;
      if a in forest.parent && b in forest.parent {
        ghost var before := forest.rep;
        forest.Union(a, b);
        RepresentsUnion(E, before, a, b, forest.rep);
        E := E + {(a, b)};
      }
    }
    assert pairs[..|pairs|] == pairs;
  }

  /** `out` covers the ids `done` and factors through their representatives, which
      `rootToCid` numbers, all differently, below `nextCid`. */
  ghost predicate Factors<T(!new)>(rep: map<T, T>, done: seq<T>, rootToCid: map<T, int>,
                                  nextCid: int, out: map<T, int>) {
    && (forall x :: x in out <==> x in done)
    && (forall x :: x in out ==> x in rep && rep[x] in rootToCid && out[x] == rootToCid[rep[x]])
    && (forall r, q :: r in rootToCid && q in rootToCid && rootToCid[r] == rootToCid[q] ==> r == q)
    && (forall r :: r in rootToCid ==> 1 <= rootToCid[r] < nextCid)
  }

  /** The numbering state after the ids `done`: the numbers used so far are
      1 .. nextCid - 1, by first appearance. */
  ghost predicate Numbered<T(!new)>(rep: map<T, T>, done: seq<T>, rootToCid: map<T, int>, nextCid: int,
                                    out: map<T, int>) {
    && Factors(rep, done, rootToCid, nextCid, out)
    && FirstAppearance(Labels(out, done)) && MaxLabel(Labels(out, done)) == nextCid - 1
  }

  /** `rid`'s class gets the next number if it has none. */
  ghost predicate Extends<T>(rootToCid: map<T, int>, nextCid: int, root: T, rootToCid': map<T, int>, nextCid': int) {
    if root in rootToCid then rootToCid' == rootToCid && nextCid' == nextCid
    else rootToCid' == rootToCid[root := nextCid] && nextCid' == nextCid + 1
  }

  lemma FactorsStep<T(!new)>(rep: map<T, T>, done: seq<T>, rootToCid: map<T, int>, nextCid: int,
                             out: map<T, int>, rid: T, rootToCid': map<T, int>, nextCid': int)
    requires Factors(rep, done, rootToCid, nextCid, out) && rid in rep && nextCid >= 1
    requires Extends(rootToCid, nextCid, rep[rid], rootToCid', nextCid')
    ensures rep[rid] in rootToCid' && Factors(rep, done + [rid], rootToCid', nextCid', out[rid := rootToCid'[rep[rid]]])
    ensures rid in out ==> out[rid] == rootToCid'[rep[rid]]
  {
  }

  /** Appending a number seen before, or the next new one, keeps the numbering. */
  lemma AppearanceStep(before: seq<int>, cid: int)
    requires FirstAppearance(before) && 1 <= cid <= MaxLabel(before) + 1
    ensures FirstAppearance(before + [cid])
    ensures MaxLabel(before + [cid]) == if cid > MaxLabel(before) then cid else MaxLabel(before)
  {
    assert (before + [cid])[..|before|] == before;
  }

  lemma LabelsStep<T>(out: map<T, int>, done: seq<T>, rid: T, cid: int)
    requires (forall x :: x in done ==> x in out) && (rid in out ==> out[rid] == cid)
    ensures Labels(out[rid := cid], done + [rid]) == Labels(out, done) + [cid]
  {
  }

  lemma NumberedStep<T(!new)>(rep: map<T, T>, done: seq<T>, rootToCid: map<T, int>, nextCid: int,
                              out: map<T, int>, rid: T, rootToCid': map<T, int>, nextCid': int)
    requires Numbered(rep, done, rootToCid, nextCid, out) && rid in rep
    requires Extends(rootToCid, nextCid, rep[rid], rootToCid', nextCid')
    ensures rep[rid] in rootToCid'
      && Numbered(rep, done + [rid], rootToCid', nextCid', out[rid := rootToCid'[rep[rid]]])
  {
    FactorsStep(rep, done, rootToCid, nextCid, out, rid, rootToCid', nextCid');
    var cid := rootToCid'[rep[rid]];
    LabelsStep(out, done, rid, cid);
    AppearanceStep(Labels(out, done), cid);
  }

  /** The ids get one number per class, numbered by first appearance. */
  ghost predicate NumbersClasses<T(!new)>(rep: map<T, T>, allIds: seq<T>, out: map<T, int>) {
    && (forall x :: x in out <==> x in allIds)
    && (forall x, y :: x in out && y in out ==> x in rep && y in rep && (out[x] == out[y] <==> rep[x] == rep[y]))
    && FirstAppearance(Labels(out, allIds))
  }

  lemma NumberedAnswers<T(!new)>(rep: map<T, T>, allIds: seq<T>, rootToCid: map<T, int>, nextCid: int, out: map<T, int>)
    requires Numbered(rep, allIds[..|allIds|], rootToCid, nextCid, out)
    ensures NumbersClasses(rep, allIds, out)
  {
    assert allIds[..|allIds|] == allIds;
  }

  /** One id of the canonicalising loop. */
  method NumberOne<T(==, !new)>(forest: Forest<T>, ghost rep: map<T, T>, allIds: seq<T>, i: nat,
                                rootToCid0: map<T, int>, nextCid0: int, out0: map<T, int>)
    returns (rootToCid: map<T, int>, nextCid: int, out: map<T, int>)
    requires forest.Valid() && rep == forest.rep && i < |allIds| && allIds[i] in forest.parent
    requires Numbered(rep, allIds[..i], rootToCid0, nextCid0, out0)
    modifies forest`parent
    ensures forest.Valid() && forest.parent.Keys == old(forest.parent.Keys)
    ensures Numbered(rep, allIds[..i + 1], rootToCid, nextCid, out)
  {
    var rid := allIds[i];
    rootToCid, nextCid := rootToCid0, nextCid0;
    var root := forest.Find(rid);
    if root !in rootToCid {
      rootToCid := rootToCid[root := nextCid];
      nextCid := nextCid + 1;
    }
    NumberedStep(rep, allIds[..i], rootToCid0, nextCid0, out0, rid, rootToCid, nextCid);
    assert allIds[..i + 1] == allIds[..i] + [rid];
    out := out0[rid := rootToCid[root]];
  }

  lemma NumberedStart<T(!new)>(rep: map<T, T>, allIds: seq<T>)
    ensures Numbered(rep, allIds[..0], map[], 1, map[])
  {
  }

  /** The canonicalising loop: numbers the classes of a forest by first appearance. */
  method NumberClasses<T(==, !new)>(forest: Forest<T>, allIds: seq<T>) returns (out: map<T, int>)
    requires forest.Valid() && forest.parent.Keys == set x | x in allIds
    modifies forest`parent
    ensures NumbersClasses(forest.rep, allIds, out)
  {
    var rootToCid: map<T, int> := map[];
    var nextCid := 1;
    out := map[];
    ghost var rep := forest.rep;
    NumberedStart(rep, allIds);
    for i := 0 to |allIds|
      invariant forest.Valid() && forest.parent.Keys == old(forest.parent.Keys)
      invariant Numbered(rep, allIds[..i], rootToCid, nextCid, out)
    {
      rootToCid, nextCid, out := NumberOne(forest, rep, allIds, i, rootToCid, nextCid, out);
    }
    NumberedAnswers(rep, allIds, rootToCid, nextCid, out);
  }

  /** `_gt_pairs_to_series`: ids are equal exactly for records joined by a chain of
      pairs among the given records, and are numbered 1 .. k by first appearance. */
  method GtPairsToSeries<T(==, !new)>(pairs: seq<(T, T)>, allIds: seq<T>) returns (out: map<T, int>)
    ensures IsSeries(pairs, allIds, out)
  {
    var forest := UnionAll(pairs, allIds);
    out := NumberClasses(forest, allIds);
    ghost var E := LivePairs(pairs, allIds);
    forall x, y | x in out && y in out
      ensures out[x] == out[y] <==> Connected(E, x, y)
    {
      RepresentsDecides(E, forest.rep, x, y);
    }
  }

  /** Nothing but the unordered live pairs and the id order matters: neither the
      order in which the pairs are visited nor the way round each is written. */
  lemma SeriesIsCanonical<T(!new)>(pairs: seq<(T, T)>, pairs': seq<(T, T)>, allIds: seq<T>,
                                   out: map<T, int>, out': map<T, int>)
    requires IsSeries(pairs, allIds, out) && IsSeries(pairs', allIds, out')
    requires forall a, b :: Adjacent(LivePairs(pairs, allIds), a, b)
                       <==> Adjacent(LivePairs(pairs', allIds), a, b)
    ensures out == out'
  {
    var E, E' := LivePairs(pairs, allIds), LivePairs(pairs', allIds);
    var s, t := Labels(out, allIds), Labels(out', allIds);
    forall i, j | 0 <= i < |s| && 0 <= j < |s|
      ensures s[i] == s[j] <==> t[i] == t[j]
    {
      var x, y := allIds[i], allIds[j];
      if Connected(E, x, y) { ConnectedMono(E, E', x, y); }
      if Connected(E', x, y) { ConnectedMono(E', E, x, y); }
    }
    NumberingIsUnique(s, t);
    forall x | x in out
      ensures out[x] == out'[x]
    {
      var i :| 0 <= i < |allIds| && allIds[i] == x;
      assert s[i] == t[i];
    }
  }

  // ------------------------------------------------ predictions to series

  /** The ids written by the clusters, then a fresh id for every record left over. */
  ghost predicate IsAssignment(clusters: Clusters, allIds: seq<int>, out: map<int, int>) {
    && (forall x :: x in out <==> Covered(clusters, x) || x in allIds)
    && (forall x :: x in out && Covered(clusters, x) ==> Predicted(clusters, x) == Cluster(out[x]))
    && (forall x, y :: x in out && y in out && x != y && !Covered(clusters, x) ==> out[x] != out[y])
    && (forall x, y :: x in out && y in out && !Covered(clusters, x) && Covered(clusters, y) ==> out[y] < out[x])
  }

  /** `_clusters_to_series`, first loop. */
  method WriteMembers(clusters: Clusters) returns (out: map<int, int>)
    ensures forall x :: x in out <==> Covered(clusters, x)
    ensures forall x :: x in out ==> Predicted(clusters, x) == Cluster(out[x])
  {
    out := map[];
    for c := 0 to |clusters|
      invariant forall x :: x in out <==> Predicted(clusters[..c], x).Cluster?
      invariant forall x :: x in out ==> Predicted(clusters[..c], x) == Cluster(out[x])
    {
      var (cid, members) := clusters[c];
      for k := 0 to |members|
        invariant forall x :: x in out <==> x in members[..k] || Predicted(clusters[..c], x).Cluster?
        invariant forall x :: x in out ==>
          Cluster(out[x]) == if x in members[..k] then Cluster(cid) else Predicted(clusters[..c], x)
      {
        assert members[..k + 1] == members[..k] + [members[k]];
        out := out[members[k] := cid];
      }
      assert members[..|members|] == members;
      assert clusters[..c + 1][..c] == clusters[..c];
    }
    assert clusters[..|clusters|] == clusters;
    forall x ensures Predicted(clusters, x).Cluster? <==> Covered(clusters, x) {
      CoveredIsPredicted(clusters, x);
    }
  }

  method Max(S: set<int>) returns (m: int)
    requires S != {}
    ensures m in S && forall a :: a in S ==> a <= m
  {
    var order := ToList(S);
    ghost var a := Pick(S);
    m := order[0];
    for k := 1 to |order|
      invariant m in order && forall j :: 0 <= j < k ==> order[j] <= m
    {
      if order[k] > m { m := order[k]; }
    }
  }

  /** `_clusters_to_series`: leftover records are numbered above every id in use. */
  method ClustersToSeries(clusters: Clusters, allIds: seq<int>) returns (out: map<int, int>)
    ensures IsAssignment(clusters, allIds, out)
  {
    out := WriteMembers(clusters);
    var nextCid := 1;
    if out.Values != {} {
      var top := Max(out.Values);
      nextCid := top + 1;
    }
    assert forall x :: x in out ==> out[x] in out.Values;
    for i := 0 to |allIds|
      invariant forall x :: x in out <==> Covered(clusters, x) || x in allIds[..i]
      invariant forall x :: x in out && Covered(clusters, x) ==> Predicted(clusters, x) == Cluster(out[x])
      invariant forall x :: x in out ==> out[x] < nextCid
      invariant forall x, y :: x in out && y in out && x != y && !Covered(clusters, x) ==> out[x] != out[y]
      invariant forall x, y :: x in out && y in out && !Covered(clusters, x) && Covered(clusters, y) ==> out[y] < out[x]
    {
      var rid := allIds[i];
      if rid !in out {
        out := out[rid := nextCid];
        nextCid := nextCid + 1;
      }
    }
    assert allIds[..|allIds|] == allIds;
  }

  /** Two different records get one id exactly when some cluster lists both. */
  lemma AssignmentDecidesClusters(clusters: Clusters, allIds: seq<int>, out: map<int, int>, x: int, y: int)
    requires IsAssignment(clusters, allIds, out) && WellFormed(clusters)
    requires x in out && y in out && x != y
    ensures out[x] == out[y] <==> SameCluster(clusters, x, y)
  {
    PredictedAgreement(clusters, x, y);
  }

  // ------------------------------------------------- from groups to pairs

  /** The nested loops over one group: each member paired with every later one. */
  method AddGroupPairs(members: seq<int>, gt: set<(int, int)>) returns (out: set<(int, int)>)
    requires Ascending(members)
    ensures out == gt + PairsOf(Elements(members))
  {
    out := gt;
    for i := 0 to |members|
      invariant forall p :: p in out <==>
        p in gt || (p.0 in members[..i] && p.1 in members && p.0 < p.1)
    {
      assert members[..i + 1] == members[..i] + [members[i]];
      for j := i + 1 to |members|
        invariant forall p :: p in out <==>
          p in gt || (p.0 in members[..i] && p.1 in members && p.0 < p.1)
          || (p.0 == members[i] && p.1 in members[i + 1..j])
      {
        out := out + {(members[i], members[j])};
        assert members[i + 1..j + 1] == members[i + 1..j] + [members[j]];
      }
      LaterMembersAreGreater(members, i);
      assert members[i + 1..|members|] == members[i + 1..];
    }
    assert members[..|members|] == members;
  }

  /** `gt_clusters`: the rows of each key, in order. */
  method GroupRows<K(==, !new)>(ncids: seq<K>) returns (groups: map<K, seq<int>>)
    ensures Buckets(groups, ncids)
  {
    groups := map[];
    for i := 0 to |ncids|
      invariant Buckets(groups, ncids[..i])
    {
      AppendBuckets(groups, ncids, i);
      groups := Append(groups, ncids[i], i);
    }
    assert ncids[..|ncids|] == ncids;
  }

  lemma GroupPairsAreAgreeing<K>(labels: seq<K>, k: K)
    ensures forall p :: p in PairsOf(Elements(Rows(labels, k))) <==> p in AgreeingPairs(labels) && labels[p.0] == k
    ensures |Rows(labels, k)| < 2 ==> PairsOf(Elements(Rows(labels, k))) == {}
  {
    if PairsOf(Elements(Rows(labels, k))) != {} {
      var p := Pick(PairsOf(Elements(Rows(labels, k))));
      assert p.0 in Rows(labels, k) && p.1 in Rows(labels, k);
    }
  }

  /** `load_ncvr`'s grouping: the ground-truth pairs are exactly the pairs of rows
      with equal keys. */
  method NcvrPairs<K(==, !new)>(ncids: seq<K>) returns (gt: set<(int, int)>)
    ensures gt == AgreeingPairs(ncids)
  {
    var groups := GroupRows(ncids);
    gt := {};
    var left := groups.Keys;
    while left != {}
      invariant left <= groups.Keys
      invariant forall p :: p in gt <==> p in AgreeingPairs(ncids) && ncids[p.0] !in left
    {
      var k :| k in left;
      left := left - {k};
      var members := groups[k];
      GroupPairsAreAgreeing(ncids, k);
      if |members| >= 2 {
        gt := AddGroupPairs(members, gt);
      }
    }
  }

  /** Pairs that only join equal labels and include, for each label, the chain
      through its rows.  Both `load_ncvr`'s pairs and a spanning chain qualify. */
  ghost predicate SpansLabels<K(!new)>(labels: seq<K>, E: set<(int, int)>) {
    && E <= AgreeingPairs(labels)
    && forall l :: ChainOf(Elements(Rows(labels, l))) <= E
  }

  lemma AgreeingPairsSpan<K(!new)>(labels: seq<K>)
    ensures SpansLabels(labels, AgreeingPairs(labels))
  {
  }

  lemma {:induction false} ChainConnects<K(!new)>(labels: seq<K>, E: set<(int, int)>, i: int, j: int)
    requires SpansLabels(labels, E)
    requires 0 <= i <= j < |labels| && labels[i] == labels[j]
    ensures Connected(E, i, j)
    decreases j - i
  {
    var S := Elements(Rows(labels, labels[i]));
    if i == j {
      ConnectedRefl(E, i);
    } else if Between(S, i, j) {
      var c :| c in S && i < c < j;
      ChainConnects(labels, E, i, c);
      ChainConnects(labels, E, c, j);
      ConnectedTrans(E, i, c, j);
    } else {
      assert (i, j) in ChainOf(S);
      ConnectedEdge(E, i, j);
    }
  }

  /** Partition to pairs to partition: connectivity gives back the labelling. */
  lemma SpanningPairsRecoverLabels<K(!new)>(labels: seq<K>, E: set<(int, int)>, i: int, j: int)
    requires SpansLabels(labels, E) && 0 <= i < |labels| && 0 <= j < |labels|
    ensures Connected(E, i, j) <==> labels[i] == labels[j]
  {
    if labels[i] == labels[j] {
      if i <= j {
        ChainConnects(labels, E, i, j);
      } else {
        ChainConnects(labels, E, j, i);
        ConnectedSym(E, j, i);
      }
    }
    if Connected(E, i, j) {
      var asMap := map k | 0 <= k < |labels| :: labels[k];
      ConnectedKeepsLabel(E, asMap, i, j);
    }
  }

  function RowIds(n: nat): (s: seq<int>)
    ensures |s| == n && forall i :: 0 <= i < n ==> s[i] == i
    ensures forall i :: i in s <==> 0 <= i < n
  {
    var s := seq(n, i => i);
    assert forall i :: 0 <= i < n ==> i in s by {
      forall i | 0 <= i < n ensures i in s { assert s[i] == i; }
    }
    s
  }

  /** Any pair list spanning the labels yields the labels' own partition, numbered by
      first appearance; so all such lists yield one and the same series. */
  lemma SeriesRecoversLabels<K(!new)>(labels: seq<K>, pairs: seq<(int, int)>, out: map<int, int>)
    requires IsSeries(pairs, RowIds(|labels|), out)
    requires SpansLabels(labels, set p | p in pairs)
    ensures forall i :: i in out <==> 0 <= i < |labels|
    ensures SameKernel(labels, Labels(out, RowIds(|labels|)))
    ensures FirstAppearance(Labels(out, RowIds(|labels|)))
  {
    var n := |labels|;
    var E := set p | p in pairs;
    assert LivePairs(pairs, RowIds(n)) == E;
    var s := Labels(out, RowIds(n));
    forall i, j | 0 <= i < n && 0 <= j < n
      ensures labels[i] == labels[j] <==> s[i] == s[j]
    {
      SpanningPairsRecoverLabels(labels, E, i, j);
    }
  }

  /** The reference series of `load_ncvr`: rows share an id iff they share a key. */
  method NcvrReference<K(==, !new)>(ncids: seq<K>) returns (reference: map<int, int>)
    ensures forall i :: i in reference <==> 0 <= i < |ncids|
    ensures SameKernel(ncids, Labels(reference, RowIds(|ncids|)))
    ensures FirstAppearance(Labels(reference, RowIds(|ncids|)))
  {
    var gt := NcvrPairs(ncids);
    var pairs := ToList(gt);
    reference := GtPairsToSeries(pairs, RowIds(|ncids|));
    assert gt == set p | p in pairs;
    AgreeingPairsSpan(ncids);
    SeriesRecoversLabels(ncids, pairs, reference);
  }
}
