/** scripts/bench_identity_control_plane.py: the cluster partition built from labels, with its evidence pairs. */
module BenchIdentityControlPlane {
  import opened Partitions
  import opened EvalBenchmark
  import opened Options
  import opened Sorting

  datatype Density = NoScores | Spanning | Full

  datatype Info = Info(members: seq<int>, pairScores: Option<map<(int, int), real>>)

  const SCORE := 0.95

  // ------------------------------------------- stable argsort and splitting

  /** Row `a` comes before row `b` in a stable sort by label. */
  predicate Before(labels: seq<int>, a: int, b: int)
    requires 0 <= a < |labels| && 0 <= b < |labels|
  {
    labels[a] < labels[b] || (labels[a] == labels[b] && a < b)
  }

  ghost predicate IsRow(labels: seq<int>, order: seq<int>) {
    forall k :: 0 <= k < |order| ==> 0 <= order[k] < |labels|
  }

  ghost predicate StablySorted(labels: seq<int>, order: seq<int>) {
    && IsRow(labels, order)
    && forall j, k :: 0 <= j < k < |order| ==> Before(labels, order[j], order[k])
  }

  /** Compares row numbers by label alone; a number that is no row has no place. */
  function ByLabel(labels: seq<int>): (int, int) -> bool {
    (a, b) => if 0 <= a < |labels| && 0 <= b < |labels| then labels[a] <= labels[b] else true
  }

  lemma StableAppend(labels: seq<int>, order: seq<int>, x: int)
    requires StablySorted(labels, order) && 0 <= x < |labels|
    requires forall y :: y in order ==> 0 <= y < |labels| && Before(labels, y, x)
    ensures StablySorted(labels, order + [x])
  {
    forall k | 0 <= k < |order| ensures Before(labels, order[k], x) { assert order[k] in order; }
  }

  lemma InsertMembers(order: seq<int>, x: int, le: (int, int) -> bool)
    ensures forall y :: y in Insert(order, x, le) <==> y in order || y == x
  {
    forall y ensures y in Insert(order, x, le) <==> y in order || y == x {
      assert y in multiset(Insert(order, x, le)) <==> y in multiset(order) || y == x;
    }
  }

  lemma RowsOf(labels: seq<int>, order: seq<int>, y: int)
    requires StablySorted(labels, order) && order != [] && y in order
    ensures 0 <= y < |labels|
    ensures var last := order[|order| - 1]; y != last ==> y in order[..|order| - 1] && Before(labels, y, last)
  {
    var n := |order| - 1;
    assert order == order[..n] + [order[n]];
    var k :| 0 <= k < |order| && order[k] == y;
    if k < n { assert Before(labels, order[k], order[n]); }
  }

  /** Inserting a later row puts it after every row of its label. */
  lemma {:induction false} InsertIsStable(labels: seq<int>, order: seq<int>, x: int)
    requires StablySorted(labels, order) && 0 <= x < |labels| && forall y :: y in order ==> y < x
    ensures StablySorted(labels, Insert(order, x, ByLabel(labels)))
    decreases |order|
  {
    if order != [] {
      var n := |order| - 1;
      var last, init := order[n], order[..n];
      forall y | y in order
        ensures 0 <= y < |labels| && (y != last ==> Before(labels, y, last))
      {
        RowsOf(labels, order, y);
      }
      if labels[last] <= labels[x] {
        StableAppend(labels, order, x);
      } else {
        forall y | y in init ensures y in order && Before(labels, y, last) {
          var k :| 0 <= k < n && init[k] == y;
          assert order[k] == y && Before(labels, order[k], order[n]);
        }
        InsertIsStable(labels, init, x);
        InsertMembers(init, x, ByLabel(labels));
        StableAppend(labels, Insert(init, x, ByLabel(labels)), last);
      }
    }
  }

  /** The first `n` rows, stably sorted. */
  ghost predicate SortsRows(labels: seq<int>, n: nat, order: seq<int>) {
    StablySorted(labels, order) && forall y :: y in order <==> 0 <= y < n
  }

  lemma NextRow(labels: seq<int>, n: nat, order: seq<int>)
    requires n < |labels| && SortsRows(labels, n, order)
    ensures SortsRows(labels, n + 1, Insert(order, n, ByLabel(labels)))
  {
    InsertIsStable(labels, order, n);
    InsertMembers(order, n, ByLabel(labels));
  }

  lemma SortNext(n: nat, le: (int, int) -> bool)
    ensures Sort(RowIds(n + 1), le) == Insert(Sort(RowIds(n), le), n, le)
  {
    assert RowIds(n + 1)[..n] == RowIds(n);
  }

  /** Sorting the row numbers by label alone leaves the rows of a label in their order. */
  lemma {:induction false} SortIsStable(labels: seq<int>, n: nat)
    requires n <= |labels|
    ensures SortsRows(labels, n, Sort(RowIds(n), ByLabel(labels)))
  {
    if n > 0 {
      SortIsStable(labels, n - 1);
      SortNext(n - 1, ByLabel(labels));
      NextRow(labels, n - 1, Sort(RowIds(n - 1), ByLabel(labels)));
    }
  }

  /** `np.argsort(labels, kind="stable")`. */
  function Argsort(labels: seq<int>): (order: seq<int>)
    ensures StablySorted(labels, order)
    ensures forall y :: y in order <==> 0 <= y < |labels|
  {
    SortIsStable(labels, |labels|);
    Sort(RowIds(|labels|), ByLabel(labels))
  }

  /** `np.split` at the places where the sorted label changes. */
  function SplitRuns(labels: seq<int>, order: seq<int>): (groups: seq<seq<int>>)
    requires IsRow(labels, order)
    ensures forall k :: 0 <= k < |groups| ==> groups[k] != [] && IsRow(labels, groups[k])
  {
    if order == [] then []
    else
      var n := |order| - 1;
      var x, front := order[n], SplitRuns(labels, order[..n]);
      var m := |front| - 1;
      if front != [] && labels[front[m][0]] == labels[x] then front[m := front[m] + [x]] else front + [[x]]
  }

  /** `g` is the rows of `order` labelled `l`, in increasing order. */
  ghost predicate RunOf(labels: seq<int>, order: seq<int>, g: seq<int>, l: int)
    requires IsRow(labels, order)
  {
    && g != [] && IsRow(labels, g) && Ascending(g)
    && forall y :: y in g <==> y in order && labels[y] == l
  }

  /** One run per label that occurs, in increasing order of label. */
  ghost predicate AreRuns(labels: seq<int>, order: seq<int>, groups: seq<seq<int>>, keys: seq<int>)
    requires IsRow(labels, order)
  {
    && |groups| == |keys| && Ascending(keys)
    && (forall k :: 0 <= k < |groups| ==> RunOf(labels, order, groups[k], keys[k]))
    && (forall y :: y in order ==> labels[y] in keys)
  }

  lemma RunAfter(labels: seq<int>, order: seq<int>, g: seq<int>, l: int, x: int)
    requires IsRow(labels, order) && RunOf(labels, order, g, l)
    requires 0 <= x < |labels| && forall y :: y in order ==> Before(labels, y, x)
    ensures l <= labels[x] && labels[g[0]] == l
    ensures labels[x] == l ==> RunOf(labels, order + [x], g + [x], l)
    ensures labels[x] != l ==> RunOf(labels, order + [x], g, l)
  {
    assert g[0] in g && Before(labels, g[0], x);
    forall k | 0 <= k < |g| ensures labels[x] == l ==> g[k] < x {
      assert g[k] in g && Before(labels, g[k], x);
    }
  }

  /** Appending a row with the last run's label extends that run. */
  lemma ExtendRun(labels: seq<int>, order: seq<int>, front: seq<seq<int>>, keys: seq<int>, x: int)
    requires IsRow(labels, order) && AreRuns(labels, order, front, keys)
    requires 0 <= x < |labels| && forall y :: y in order ==> Before(labels, y, x)
    requires front != [] && keys[|front| - 1] == labels[x]
    ensures AreRuns(labels, order + [x], front[|front| - 1 := front[|front| - 1] + [x]], keys)
  {
    var m := |front| - 1;
    var groups := front[m := front[m] + [x]];
    forall k | 0 <= k < |groups| ensures RunOf(labels, order + [x], groups[k], keys[k]) {
      RunAfter(labels, order, front[k], keys[k], x);
    }
  }

  /** Appending a row with a new label opens a run. */
  lemma OpenRun(labels: seq<int>, order: seq<int>, front: seq<seq<int>>, keys: seq<int>, x: int)
    requires IsRow(labels, order) && AreRuns(labels, order, front, keys)
    requires 0 <= x < |labels| && forall y :: y in order ==> Before(labels, y, x)
    requires front != [] ==> keys[|front| - 1] != labels[x]
    ensures AreRuns(labels, order + [x], front + [[x]], keys + [labels[x]])
  {
    var groups, keys' := front + [[x]], keys + [labels[x]];
    forall k | 0 <= k < |keys| ensures keys[k] < labels[x] {
      RunAfter(labels, order, front[|front| - 1], keys[|front| - 1], x);
    }
    forall k | 0 <= k < |groups| ensures RunOf(labels, order + [x], groups[k], keys'[k]) {
      if k < |front| {
        RunAfter(labels, order, front[k], keys[k], x);
      } else {
        assert forall y :: y in order ==> labels[y] in keys;
      }
    }
    forall y | y in order + [x] ensures labels[y] in keys' {
      assert labels[y] in keys || labels[y] == keys'[|keys|];
    }
  }

  lemma {:induction false} SplitRunsAreRuns(labels: seq<int>, order: seq<int>) returns (keys: seq<int>)
    requires StablySorted(labels, order)
    ensures AreRuns(labels, order, SplitRuns(labels, order), keys)
  {
    keys := [];
    if order != [] {
      var n := |order| - 1;
      var init, x := order[..n], order[n];
      keys := SplitRunsAreRuns(labels, init);
      forall y | y in init ensures Before(labels, y, x) {
        var k :| 0 <= k < n && init[k] == y;
        assert Before(labels, order[k], order[n]);
      }
      assert order == init + [x];
      var front := SplitRuns(labels, init);
      if front != [] {
        RunAfter(labels, init, front[|front| - 1], keys[|front| - 1], x);
      }
      if front != [] && keys[|front| - 1] == labels[x] {
        ExtendRun(labels, init, front, keys, x);
      } else {
        OpenRun(labels, init, front, keys, x);
        keys := keys + [labels[x]];
      }
    }
  }

  /** The groups are the rows of the labels `keys`, which are all the labels, in order. */
  ghost predicate AreRowsOf(labels: seq<int>, groups: seq<seq<int>>, keys: seq<int>) {
    && |groups| == |keys| && Ascending(keys) && (forall l :: l in keys <==> l in labels)
    && forall k :: 0 <= k < |groups| ==> groups[k] == Rows(labels, keys[k])
  }

  /** Each group handed to the cluster loop is exactly the rows of one label, and every
      label has its group. */
  lemma {:induction false} GroupsAreRows(labels: seq<int>) returns (keys: seq<int>)
    ensures AreRowsOf(labels, SplitRuns(labels, Argsort(labels)), keys)
  {
    var order := Argsort(labels);
    var groups := SplitRuns(labels, order);
    keys := SplitRunsAreRuns(labels, order);
    forall k | 0 <= k < |groups| ensures groups[k] == Rows(labels, keys[k]) && keys[k] in labels {
      assert RunOf(labels, order, groups[k], keys[k]);
      assert groups[k][0] in groups[k];
      AscendingIsDetermined(groups[k], Rows(labels, keys[k]));
    }
    forall l | l in labels ensures l in keys {
      var i :| 0 <= i < |labels| && labels[i] == l;
      assert i in order;
    }
  }

  // ------------------------------------------------------------- clusters

  function Ordered(a: int, b: int): (int, int) { if b < a then (b, a) else (a, b) }

  ghost predicate AllScored(ps: map<(int, int), real>) { forall p :: p in ps ==> ps[p] == SCORE }

  /** The `full` density: a key for every pair of members. */
  method FullScores(members: seq<int>) returns (ps: map<(int, int), real>)
    requires Ascending(members)
    ensures ps.Keys == PairsOf(Elements(members)) && AllScored(ps)
  {
    ps := map[];
    for i := 0 to |members|
      invariant AllScored(ps)
      invariant forall p :: p in ps <==> p.0 in members[..i] && p.1 in members && p.0 < p.1
    {
      assert members[..i + 1] == members[..i] + [members[i]];
      for j := i + 1 to |members|
        invariant AllScored(ps)
        invariant forall p :: p in ps <==>
          (p.0 in members[..i] && p.1 in members && p.0 < p.1) || (p.0 == members[i] && p.1 in members[i + 1..j])
      {
        ps := ps[Ordered(members[i], members[j]) := SCORE];
        assert members[i + 1..j + 1] == members[i + 1..j] + [members[j]];
      }
      LaterMembersAreGreater(members, i);
      assert members[i + 1..|members|] == members[i + 1..];
    }
    assert members[..|members|] == members;
  }

  lemma LinkAt(members: seq<int>, i: nat)
    requires Ascending(members) && i + 1 < |members|
    ensures forall y :: y in members && members[i] < y <= members[i + 1] ==> y == members[i + 1]
    ensures forall p :: p in ChainOf(Elements(members)) && p.1 == members[i + 1] <==> p == (members[i], members[i + 1])
  {
    var S := Elements(members);
    forall y | y in members && members[i] < y <= members[i + 1] ensures y == members[i + 1] {
      var k :| 0 <= k < |members| && members[k] == y;
    }
    forall p | p in PairsOf(S) && p.1 == members[i + 1] && !Between(S, p.0, p.1)
      ensures p.0 == members[i]
    {
      assert members[i] in S;
    }
  }

  /** The `spanning` density: a key for each member and the next. */
  method SpanningScores(members: seq<int>) returns (ps: map<(int, int), real>)
    requires Ascending(members) && members != []
    ensures ps.Keys == ChainOf(Elements(members)) && AllScored(ps)
  {
    ps := map[];
    assert forall y :: y in members ==> members[0] <= y;
    for i := 0 to |members| - 1
      invariant AllScored(ps)
      invariant forall p :: p in ps <==> p in ChainOf(Elements(members)) && p.1 <= members[i]
    {
      LinkAt(members, i);
      ps := ps[Ordered(members[i], members[i + 1]) := SCORE];
    }
    assert forall y :: y in members ==> y <= members[|members| - 1];
  }

  ghost predicate IsInfo(labels: seq<int>, l: int, density: Density, info: Info) {
    var S := Elements(Rows(labels, l));
    && info.members == Rows(labels, l)
    && (info.pairScores.None? <==> density.NoScores? || |info.members| <= 1)
    && (info.pairScores.Some? ==>
          && info.pairScores.value.Keys == (if density.Full? then PairsOf(S) else ChainOf(S))
          && AllScored(info.pairScores.value))
  }

  ghost predicate IsClustering(labels: seq<int>, density: Density, clusters: map<int, Info>) {
    && (forall l :: l in clusters <==> l in labels)
    && (forall l :: l in clusters ==> IsInfo(labels, l, density, clusters[l]))
  }

  /** The loop body: the record of one group. */
  method DescribeGroup(labels: seq<int>, ghost l: int, members: seq<int>, density: Density) returns (info: Info)
    requires members == Rows(labels, l) && members != []
    ensures IsInfo(labels, l, density, info)
  {
    info := Info(members, None);
    if !density.NoScores? && |members| > 1 {
      var ps;
      if density.Full? {
        ps := FullScores(members);
      } else {
        ps := SpanningScores(members);
      }
      info := info.(pairScores := Some(ps));
    }
  }

  /** The clusters of the labels `done`. */
  ghost predicate Described(labels: seq<int>, done: seq<int>, density: Density, clusters: map<int, Info>) {
    && (forall l :: l in clusters <==> l in done)
    && (forall l :: l in clusters ==> IsInfo(labels, l, density, clusters[l]))
  }

  lemma DescribedMore(labels: seq<int>, done: seq<int>, density: Density, clusters: map<int, Info>, l: int, info: Info)
    requires Described(labels, done, density, clusters) && IsInfo(labels, l, density, info)
    ensures Described(labels, done + [l], density, clusters[l := info])
  {
  }

  /** `build_clusters`: one cluster per label, holding that label's rows in order and
      its evidence pairs in the requested density. */
  method BuildClusters(gtCids: seq<int>, density: Density) returns (clusters: map<int, Info>)
    ensures IsClustering(gtCids, density, clusters)
  {
    var order := Argsort(gtCids);
    var groups := SplitRuns(gtCids, order);
    ghost var keys := GroupsAreRows(gtCids);
    clusters := map[];
    for g := 0 to |groups|
      invariant Described(gtCids, keys[..g], density, clusters)
    {
      var members := groups[g];
      assert members[0] in members && members == Rows(gtCids, keys[g]);
      var cid := gtCids[members[0]];
      assert cid == keys[g];
      var info := DescribeGroup(gtCids, cid, members, density);
      DescribedMore(gtCids, keys[..g], density, clusters, cid, info);
      assert keys[..g + 1] == keys[..g] + [cid];
      clusters := clusters[cid := info];
    }
    assert keys[..|groups|] == keys;
  }

  // ------------------------------------------------------------ properties

  /** Every row lies in exactly one cluster: the one of its label. */
  lemma EveryRowOnce(labels: seq<int>, density: Density, clusters: map<int, Info>, i: nat, l: int)
    requires IsClustering(labels, density, clusters) && i < |labels|
    ensures l in clusters && i in clusters[l].members <==> l == labels[i]
  {
    assert labels[i] in clusters;
  }

  /** The density sets how many evidence keys a cluster of k rows stores: k - 1 or k(k-1)/2. */
  lemma DensityCost(labels: seq<int>, density: Density, clusters: map<int, Info>, l: int)
    requires IsClustering(labels, density, clusters) && l in clusters && clusters[l].pairScores.Some?
    ensures var k := |clusters[l].members|;
      |clusters[l].pairScores.value| == if density.Full? then C2(k) else k - 1
  {
    var rows := Rows(labels, l);
    var ps := clusters[l].pairScores.value;
    assert IsInfo(labels, l, density, clusters[l]);
    assert |ps| == |ps.Keys|;
    ElementsSize(rows);
    PairsOfSize(Elements(rows));
    ChainOfSize(Elements(rows));
  }

  /** All the evidence keys of a clustering. */
  ghost function EvidencePairs(clusters: map<int, Info>): set<(int, int)> {
    set l, p | l in clusters && clusters[l].pairScores.Some? && p in clusters[l].pairScores.value.Keys :: p
  }

  lemma EvidenceSpansLabels(labels: seq<int>, density: Density, clusters: map<int, Info>)
    requires IsClustering(labels, density, clusters) && !density.NoScores?
    ensures SpansLabels(labels, EvidencePairs(clusters))
  {
    forall p | p in EvidencePairs(clusters) ensures p in AgreeingPairs(labels) {
      var l :| l in clusters && clusters[l].pairScores.Some? && p in clusters[l].pairScores.value.Keys;
      assert IsInfo(labels, l, density, clusters[l]);
    }
    forall l ensures ChainOf(Elements(Rows(labels, l))) <= EvidencePairs(clusters) {
      if ChainOf(Elements(Rows(labels, l))) != {} {
        var q := Pick(ChainOf(Elements(Rows(labels, l))));
        assert q.0 in Rows(labels, l) && q.1 in Rows(labels, l);
        assert l in labels && IsInfo(labels, l, density, clusters[l]);
      }
    }
  }

  /** The evidence pairs carry the whole partition in either density: collapsing them
      again with the union-find gives back the labels, numbered by first appearance,
      so the sparse and the dense evidence yield one and the same series. */
  lemma EvidenceRoundTrip(labels: seq<int>, density: Density, clusters: map<int, Info>, pairs: seq<(int, int)>,
                          out: map<int, int>, density': Density, clusters': map<int, Info>,
                          pairs': seq<(int, int)>, out': map<int, int>)
    requires IsClustering(labels, density, clusters) && IsClustering(labels, density', clusters')
    requires !density.NoScores? && !density'.NoScores?
    requires EvidencePairs(clusters) == (set p | p in pairs) && EvidencePairs(clusters') == (set p | p in pairs')
    requires IsSeries(pairs, RowIds(|labels|), out) && IsSeries(pairs', RowIds(|labels|), out')
    ensures SameKernel(labels, Labels(out, RowIds(|labels|)))
    ensures out == out'
  {
    EvidenceSpansLabels(labels, density, clusters);
    EvidenceSpansLabels(labels, density', clusters');
    SeriesRecoversLabels(labels, pairs, out);
    SeriesRecoversLabels(labels, pairs', out');
    var s, t := Labels(out, RowIds(|labels|)), Labels(out', RowIds(|labels|));
    NumberingIsUnique(s, t);
    forall i | i in out ensures out[i] == out'[i] {
      assert s[i] == t[i];
    }
  }
}
