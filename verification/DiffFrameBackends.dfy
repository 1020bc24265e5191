/** scripts/diff_frame_backends.py: a canonical form for comparing two dedupe results. */
module DiffFrameBackends {
  import opened Bags
  import opened Clusterings
  import opened Options
  import opened Orders
  import opened Sorting
  import opened Strings

  // --------------------------------------------------------------- clusters

  /** Every member is a row of the input. */
  ghost predicate InRange(members: seq<int>, n: nat) {
    forall k :: 0 <= k < |members| ==> 0 <= members[k] < n
  }

  function Keys(members: seq<int>, rowKeys: seq<string>): (s: seq<string>)
    requires InRange(members, |rowKeys|)
    ensures |s| == |members| && forall k :: 0 <= k < |s| ==> s[k] == rowKeys[members[k]]
  {
    seq(|members|, k requires 0 <= k < |members| => rowKeys[members[k]])
  }

  /** A cluster as the canonical form lists it. */
  function SortedKeys(members: seq<int>, rowKeys: seq<string>): seq<string>
    requires InRange(members, |rowKeys|)
  {
    Sort(Keys(members, rowKeys), StringLe)
  }

  ghost predicate AllInRange(clusters: Clusters, n: nat) {
    forall c :: 0 <= c < |clusters| ==> InRange(clusters[c].1, n)
  }

  /** The clusters of more than one member, in dictionary order. */
  function KeyLists(clusters: Clusters, rowKeys: seq<string>): seq<seq<string>>
    requires AllInRange(clusters, |rowKeys|)
  {
    if clusters == [] then []
    else
      var m := |clusters| - 1;
      var front := KeyLists(clusters[..m], rowKeys);
      if |clusters[m].1| > 1 then front + [SortedKeys(clusters[m].1, rowKeys)] else front
  }

  /** The canonical `clusters`. */
  function Canonical(clusters: Clusters, rowKeys: seq<string>): seq<seq<string>>
    requires AllInRange(clusters, |rowKeys|)
  {
    Sort(KeyLists(clusters, rowKeys), ListLe)
  }

  /** `cid_to_sorted_keys`. */
  function KeysById(clusters: Clusters, rowKeys: seq<string>): map<int, seq<string>>
    requires AllInRange(clusters, |rowKeys|)
  {
    if clusters == [] then map[]
    else
      var (cid, members) := clusters[|clusters| - 1];
      var front := KeysById(clusters[..|clusters| - 1], rowKeys);
      if |members| > 1 then front[cid := SortedKeys(members, rowKeys)] else front
  }

  /** The cluster loop and the sort after it. */
  method CanonicalClusters(clusters: Clusters, rowKeys: seq<string>)
    returns (multiMember: seq<seq<string>>, cidKeys: map<int, seq<string>>)
    requires AllInRange(clusters, |rowKeys|)
    ensures multiMember == Canonical(clusters, rowKeys) && cidKeys == KeysById(clusters, rowKeys)
  {
    multiMember, cidKeys := [], map[];
    for i := 0 to |clusters|
      invariant multiMember == KeyLists(clusters[..i], rowKeys) && cidKeys == KeysById(clusters[..i], rowKeys)
    {
      var (cid, members) := clusters[i];
      assert clusters[..i + 1][..i] == clusters[..i];
      if |members| > 1 {
        var keys := SortedKeys(members, rowKeys);
        cidKeys := cidKeys[cid := keys];
        multiMember := multiMember + [keys];
      }
    }
    assert clusters[..|clusters|] == clusters;
    multiMember := Sort(multiMember, ListLe);
  }

  // ------------------------------------- deciding equality of clusterings

  /** Disjoint clusters without repeated members over rows with distinct keys. */
  ghost predicate IsClusteringOf(clusters: Clusters, rowKeys: seq<string>) {
    && AllInRange(clusters, |rowKeys|) && WellFormed(clusters) && Distinct(rowKeys)
    && forall c :: 0 <= c < |clusters| ==> Distinct(clusters[c].1)
  }

  /** Cluster `c` has several members and this key list. */
  ghost predicate HasKeys(clusters: Clusters, rowKeys: seq<string>, c: int, keys: seq<string>)
    requires AllInRange(clusters, |rowKeys|)
  {
    0 <= c < |clusters| && |clusters[c].1| > 1 && keys == SortedKeys(clusters[c].1, rowKeys)
  }

  /** The key lists are those of the clusters of more than one member: each list has
      its cluster ... */
  lemma {:induction false} ListHasCluster(clusters: Clusters, rowKeys: seq<string>, keys: seq<string>) returns (c: int)
    requires AllInRange(clusters, |rowKeys|) && keys in KeyLists(clusters, rowKeys)
    ensures HasKeys(clusters, rowKeys, c, keys)
    decreases |clusters|
  {
    c := |clusters| - 1;
    if keys in KeyLists(clusters[..c], rowKeys) {
      c := ListHasCluster(clusters[..c], rowKeys, keys);
    }
  }

  lemma LastKeyList(clusters: Clusters, rowKeys: seq<string>, keys: seq<string>)
    requires AllInRange(clusters, |rowKeys|) && clusters != []
    ensures var m := |clusters| - 1;
      keys in KeyLists(clusters[..m], rowKeys) || HasKeys(clusters, rowKeys, m, keys) ==>
      keys in KeyLists(clusters, rowKeys)
  {
  }

  /** ... and each such cluster its list. */
  lemma {:induction false} ClusterHasList(clusters: Clusters, rowKeys: seq<string>, c: int, keys: seq<string>)
    requires AllInRange(clusters, |rowKeys|) && HasKeys(clusters, rowKeys, c, keys)
    ensures keys in KeyLists(clusters, rowKeys)
    decreases |clusters|
  {
    var m := |clusters| - 1;
    LastKeyList(clusters, rowKeys, keys);
    if c < m {
      ClusterHasList(clusters[..m], rowKeys, c, keys);
    }
  }

  /** A cluster's key list names a row exactly when the cluster holds it. */
  lemma KeyListNamesMembers(members: seq<int>, rowKeys: seq<string>, i: int)
    requires InRange(members, |rowKeys|) && Distinct(rowKeys) && 0 <= i < |rowKeys|
    ensures rowKeys[i] in SortedKeys(members, rowKeys) <==> i in members
  {
    var keys := Keys(members, rowKeys);
    assert rowKeys[i] in multiset(Sort(keys, StringLe)) <==> rowKeys[i] in multiset(keys);
    if rowKeys[i] in keys {
      var k :| 0 <= k < |keys| && keys[k] == rowKeys[i];
      assert members[k] == i;
    }
    if i in members {
      var k :| 0 <= k < |members| && members[k] == i;
      assert keys[k] == rowKeys[i];
    }
  }

  ghost predicate SameRelation(clusters: Clusters, clusters': Clusters) {
    forall i, j :: i != j ==> (SameCluster(clusters, i, j) <==> SameCluster(clusters', i, j))
  }

  lemma SeveralMembers(members: seq<int>, i: int, j: int)
    requires i in members && j in members && i != j
    ensures |members| > 1
  {
  }

  /** A shared key list puts the cluster's rows together in the other result too. */
  lemma ListJoinsRows(clusters: Clusters, clusters': Clusters, rowKeys: seq<string>, i: int, j: int)
    requires IsClusteringOf(clusters, rowKeys) && IsClusteringOf(clusters', rowKeys)
    requires forall keys :: keys in KeyLists(clusters, rowKeys) ==> keys in KeyLists(clusters', rowKeys)
    requires i != j && SameCluster(clusters, i, j)
    ensures SameCluster(clusters', i, j)
  {
    var c :| 0 <= c < |clusters| && i in clusters[c].1 && j in clusters[c].1;
    var members := clusters[c].1;
    var keys := SortedKeys(members, rowKeys);
    SeveralMembers(members, i, j);
    assert HasKeys(clusters, rowKeys, c, keys);
    ClusterHasList(clusters, rowKeys, c, keys);
    var d := ListHasCluster(clusters', rowKeys, keys);
    assert InRange(members, |rowKeys|);
    KeyListNamesMembers(members, rowKeys, i);
    KeyListNamesMembers(members, rowKeys, j);
    KeyListNamesMembers(clusters'[d].1, rowKeys, i);
    KeyListNamesMembers(clusters'[d].1, rowKeys, j);
  }

  lemma KeysDistinct(members: seq<int>, rowKeys: seq<string>)
    requires InRange(members, |rowKeys|) && Distinct(members) && Distinct(rowKeys)
    ensures Distinct(Keys(members, rowKeys))
  {
    var keys := Keys(members, rowKeys);
    forall a, b | 0 <= a < b < |keys| ensures keys[a] != keys[b] {
      assert members[a] != members[b];
    }
  }

  /** Two clusters with the same rows are listed alike. */
  lemma SameRowsSameList(members: seq<int>, members': seq<int>, rowKeys: seq<string>)
    requires InRange(members, |rowKeys|) && InRange(members', |rowKeys|)
    requires Distinct(members) && Distinct(members') && Distinct(rowKeys)
    requires forall i :: i in members <==> i in members'
    ensures SortedKeys(members, rowKeys) == SortedKeys(members', rowKeys)
  {
    var s, t := Keys(members, rowKeys), Keys(members', rowKeys);
    KeysDistinct(members, rowKeys);
    KeysDistinct(members', rowKeys);
    forall x ensures x in s <==> x in t {
      if x in s {
        var k :| 0 <= k < |s| && s[k] == x;
        assert members[k] in members';
        var l :| 0 <= l < |members'| && members'[l] == members[k];
        assert t[l] == x;
      }
      if x in t {
        var k :| 0 <= k < |t| && t[k] == x;
        assert members'[k] in members;
        var l :| 0 <= l < |members| && members[l] == members'[k];
        assert s[l] == x;
      }
    }
    DistinctSameElements(s, t);
    StringLeIsAnOrder(s);
    SortForgetsOrder(s, t, StringLe);
  }

  lemma HomeHolds(clusters: Clusters, c: int, d: int, i: int)
    requires WellFormed(clusters) && 0 <= c < |clusters| && 0 <= d < |clusters|
    requires i in clusters[c].1 && i in clusters[d].1
    ensures c == d
  {
  }

  /** The same relation gives the same key lists. */
  lemma RelationGivesList(clusters: Clusters, clusters': Clusters, rowKeys: seq<string>, keys: seq<string>)
    requires IsClusteringOf(clusters, rowKeys) && IsClusteringOf(clusters', rowKeys)
    requires SameRelation(clusters, clusters') && keys in KeyLists(clusters, rowKeys)
    ensures keys in KeyLists(clusters', rowKeys)
  {
    var c := ListHasCluster(clusters, rowKeys, keys);
    var members := clusters[c].1;
    var i, j := members[0], members[1];
    assert Distinct(members) && i in members && j in members && i != j;
    assert SameCluster(clusters, i, j) && SameCluster(clusters', i, j);
    var d :| 0 <= d < |clusters'| && i in clusters'[d].1 && j in clusters'[d].1;
    var members' := clusters'[d].1;
    forall x | x != i ensures x in members <==> x in members' {
      if x in members {
        assert SameCluster(clusters, i, x) && SameCluster(clusters', i, x);
        var e :| 0 <= e < |clusters'| && i in clusters'[e].1 && x in clusters'[e].1;
        HomeHolds(clusters', d, e, i);
      }
      if x in members' {
        assert SameCluster(clusters', i, x) && SameCluster(clusters, i, x);
        var e :| 0 <= e < |clusters| && i in clusters[e].1 && x in clusters[e].1;
        HomeHolds(clusters, c, e, i);
      }
    }
    SeveralMembers(members', i, j);
    SameRowsSameList(members, members', rowKeys);
    ClusterHasList(clusters', rowKeys, d, keys);
  }

  /** No two clusters of a clustering are listed alike. */
  lemma {:induction false} ListsAreDistinct(clusters: Clusters, rowKeys: seq<string>)
    requires IsClusteringOf(clusters, rowKeys)
    ensures Distinct(KeyLists(clusters, rowKeys))
    decreases |clusters|
  {
    if clusters != [] {
      var m := |clusters| - 1;
      var front, members := clusters[..m], clusters[m].1;
      ListsAreDistinct(front, rowKeys);
      if |members| > 1 {
        var keys := SortedKeys(members, rowKeys);
        if keys in KeyLists(front, rowKeys) {
          var c := ListHasCluster(front, rowKeys, keys);
          KeyListNamesMembers(members, rowKeys, members[0]);
          KeyListNamesMembers(front[c].1, rowKeys, members[0]);
          assert false;
        }
      }
    }
  }

  /** The canonical `clusters` decides equality of clusterings: two results compare
      equal exactly when they put the same rows together, whatever the cluster ids,
      the order of clusters and the order of members. */
  lemma CanonicalDecidesPartition(clusters: Clusters, clusters': Clusters, rowKeys: seq<string>)
    requires IsClusteringOf(clusters, rowKeys) && IsClusteringOf(clusters', rowKeys)
    ensures Canonical(clusters, rowKeys) == Canonical(clusters', rowKeys) <==> SameRelation(clusters, clusters')
  {
    var s, t := KeyLists(clusters, rowKeys), KeyLists(clusters', rowKeys);
    if Canonical(clusters, rowKeys) == Canonical(clusters', rowKeys) {
      forall keys ensures keys in s <==> keys in t {
        assert keys in multiset(s) <==> keys in multiset(t);
      }
      forall i, j | i != j ensures SameCluster(clusters, i, j) <==> SameCluster(clusters', i, j) {
        if SameCluster(clusters, i, j) { ListJoinsRows(clusters, clusters', rowKeys, i, j); }
        if SameCluster(clusters', i, j) { ListJoinsRows(clusters', clusters, rowKeys, i, j); }
      }
    }
    if SameRelation(clusters, clusters') {
      forall keys ensures keys in s <==> keys in t {
        if keys in s { RelationGivesList(clusters, clusters', rowKeys, keys); }
        if keys in t { RelationGivesList(clusters', clusters, rowKeys, keys); }
      }
      ListsAreDistinct(clusters, rowKeys);
      ListsAreDistinct(clusters', rowKeys);
      DistinctSameElements(s, t);
      ListLeIsAnOrder(s);
      SortForgetsOrder(s, t, ListLe);
    }
  }

  // ------------------------------------------------------------------ pairs

  type ScoredPair = (int, int, real)

  type KeyedPair = (string, string, real)

  /** Both ends by row key, smaller key first, and the rounded score. */
  function Orient(p: ScoredPair, rowKeys: seq<string>, round: real -> real): KeyedPair
    requires 0 <= p.0 < |rowKeys| && 0 <= p.1 < |rowKeys|
  {
    var ka, kb := rowKeys[p.0], rowKeys[p.1];
    if StringLe(ka, kb) then (ka, kb, round(p.2)) else (kb, ka, round(p.2))
  }

  ghost predicate PairsInRange(pairs: seq<ScoredPair>, n: nat) {
    forall k :: 0 <= k < |pairs| ==> 0 <= pairs[k].0 < n && 0 <= pairs[k].1 < n
  }

  function OrientAll(pairs: seq<ScoredPair>, rowKeys: seq<string>, round: real -> real): (s: seq<KeyedPair>)
    requires PairsInRange(pairs, |rowKeys|)
    ensures |s| == |pairs| && forall k :: 0 <= k < |s| ==> s[k] == Orient(pairs[k], rowKeys, round)
  {
    seq(|pairs|, k requires 0 <= k < |pairs| => Orient(pairs[k], rowKeys, round))
  }

  /** The sort key is the two row keys; the score does not take part. */
  predicate PairLe(p: KeyedPair, q: KeyedPair) { ListLe([p.0, p.1], [q.0, q.1]) }

  lemma PairLeIsAnOrder()
    ensures Preorder(PairLe)
  {
    forall a, b ensures PairLe(a, b) || PairLe(b, a) { ListLeTotal([a.0, a.1], [b.0, b.1]); }
    forall a, b, c | PairLe(a, b) && PairLe(b, c) ensures PairLe(a, c) {
      ListLeTransitive([a.0, a.1], [b.0, b.1], [c.0, c.1]);
    }
  }

  /** The canonical `pairs`. */
  method CanonicalPairs(pairs: seq<ScoredPair>, rowKeys: seq<string>, round: real -> real) returns (out: seq<KeyedPair>)
    requires PairsInRange(pairs, |rowKeys|)
    ensures out == Sort(OrientAll(pairs, rowKeys, round), PairLe)
    ensures |out| == |pairs| && forall e :: e in out <==> exists p :: p in pairs && IsEntry(e, p, rowKeys, round)
  {
    out := [];
    for k := 0 to |pairs|
      invariant out == OrientAll(pairs, rowKeys, round)[..k]
    {
      var (a, b, score) := pairs[k];
      var ka, kb := rowKeys[a], rowKeys[b];
      if !StringLe(ka, kb) {
        ka, kb := kb, ka;
      }
      out := out + [(ka, kb, round(score))];
    }
    assert OrientAll(pairs, rowKeys, round)[..|pairs|] == OrientAll(pairs, rowKeys, round);
    out := Sort(out, PairLe);
    EntriesOfPairs(pairs, rowKeys, round);
  }

  /** `e` is the entry of the scored pair `p`: its two row keys, the smaller one first, and
      its rounded score. */
  ghost predicate IsEntry(e: KeyedPair, p: ScoredPair, rowKeys: seq<string>, round: real -> real) {
    && 0 <= p.0 < |rowKeys| && 0 <= p.1 < |rowKeys|
    && multiset{e.0, e.1} == multiset{rowKeys[p.0], rowKeys[p.1]} && StringLe(e.0, e.1)
    && e.2 == round(p.2)
  }

  lemma EntryIsOriented(e: KeyedPair, p: ScoredPair, rowKeys: seq<string>, round: real -> real)
    requires 0 <= p.0 < |rowKeys| && 0 <= p.1 < |rowKeys|
    ensures IsEntry(e, p, rowKeys, round) <==> e == Orient(p, rowKeys, round)
  {
    var ka, kb := rowKeys[p.0], rowKeys[p.1];
    StringLeTotal(ka, kb);
    if multiset{e.0, e.1} == multiset{ka, kb} {
      assert e.0 in multiset{ka, kb} && e.1 in multiset{ka, kb};
      assert ka in multiset{e.0, e.1} && kb in multiset{e.0, e.1};
    }
  }

  /** The sorted list holds the entries of the pairs and nothing else. */
  lemma EntriesOfPairs(pairs: seq<ScoredPair>, rowKeys: seq<string>, round: real -> real)
    requires PairsInRange(pairs, |rowKeys|)
    ensures var out := Sort(OrientAll(pairs, rowKeys, round), PairLe);
      |out| == |pairs| && forall e :: e in out <==> exists p :: p in pairs && IsEntry(e, p, rowKeys, round)
  {
    var s := OrientAll(pairs, rowKeys, round);
    var out := Sort(s, PairLe);
    assert |multiset(out)| == |out| && |multiset(s)| == |s|;
    forall e ensures e in out <==> exists p :: p in pairs && IsEntry(e, p, rowKeys, round) {
      SortKeepsMembers(s, PairLe, e);
      if e in s {
        var k :| 0 <= k < |s| && s[k] == e;
        EntryIsOriented(e, pairs[k], rowKeys, round);
        assert pairs[k] in pairs;
      }
      if p :| p in pairs && IsEntry(e, p, rowKeys, round) {
        var k :| 0 <= k < |pairs| && pairs[k] == p;
        EntryIsOriented(e, p, rowKeys, round);
        assert s[k] == e;
      }
    }
  }

  /** Each unordered pair of rows occurs at most once. */
  ghost predicate UnorderedOnce(pairs: seq<ScoredPair>) {
    forall i, j :: 0 <= i < j < |pairs| ==>
      {pairs[i].0, pairs[i].1} != {pairs[j].0, pairs[j].1}
  }

  /** `t` is `s` with the ends of some pairs swapped. */
  ghost predicate EndsSwapped(s: seq<ScoredPair>, t: seq<ScoredPair>) {
    |s| == |t| && forall k :: 0 <= k < |t| ==> t[k] == s[k] || t[k] == (s[k].1, s[k].0, s[k].2)
  }

  lemma OrientForgetsDirection(p: ScoredPair, rowKeys: seq<string>, round: real -> real)
    requires 0 <= p.0 < |rowKeys| && 0 <= p.1 < |rowKeys|
    ensures Orient((p.1, p.0, p.2), rowKeys, round) == Orient(p, rowKeys, round)
  {
    StringLeTotal(rowKeys[p.0], rowKeys[p.1]);
  }

  lemma OrientedKeysTellPairs(pairs: seq<ScoredPair>, rowKeys: seq<string>, round: real -> real)
    requires PairsInRange(pairs, |rowKeys|) && UnorderedOnce(pairs) && Distinct(rowKeys)
    ensures Determines(PairLe, OrientAll(pairs, rowKeys, round)) && Distinct(OrientAll(pairs, rowKeys, round))
  {
    var s := OrientAll(pairs, rowKeys, round);
    forall i, j | 0 <= i < j < |s| ensures (s[i].0, s[i].1) != (s[j].0, s[j].1) {
      assert {pairs[i].0, pairs[i].1} != {pairs[j].0, pairs[j].1};
      if (s[i].0, s[i].1) == (s[j].0, s[j].1) {
        SameEnds(pairs[i], pairs[j], rowKeys, round);
        assert false;
      }
    }
    forall a, b | a in s && b in s && PairLe(a, b) && PairLe(b, a) ensures a == b {
      ListLeTotal([a.0, a.1], [b.0, b.1]);
      assert [a.0, a.1][0] == [b.0, b.1][0] && [a.0, a.1][1] == [b.0, b.1][1];
      var i :| 0 <= i < |s| && s[i] == a;
      var j :| 0 <= j < |s| && s[j] == b;
    }
  }

  lemma SameEnds(p: ScoredPair, q: ScoredPair, rowKeys: seq<string>, round: real -> real)
    requires 0 <= p.0 < |rowKeys| && 0 <= p.1 < |rowKeys| && 0 <= q.0 < |rowKeys| && 0 <= q.1 < |rowKeys|
    requires Distinct(rowKeys)
    requires Orient(p, rowKeys, round).0 == Orient(q, rowKeys, round).0
    requires Orient(p, rowKeys, round).1 == Orient(q, rowKeys, round).1
    ensures {p.0, p.1} == {q.0, q.1}
  {
    forall a, b | 0 <= a < |rowKeys| && 0 <= b < |rowKeys| && rowKeys[a] == rowKeys[b] ensures a == b {}
    assert (p.0 == q.0 && p.1 == q.1) || (p.0 == q.1 && p.1 == q.0);
  }

  lemma OrientSplit(a: seq<ScoredPair>, b: seq<ScoredPair>, rowKeys: seq<string>, round: real -> real)
    requires PairsInRange(a, |rowKeys|) && PairsInRange(b, |rowKeys|)
    ensures PairsInRange(a + b, |rowKeys|)
    ensures OrientAll(a + b, rowKeys, round) == OrientAll(a, rowKeys, round) + OrientAll(b, rowKeys, round)
  {
  }

  lemma OrientWithout(s: seq<ScoredPair>, k: nat, rowKeys: seq<string>, round: real -> real)
    requires k < |s| && PairsInRange(s, |rowKeys|)
    ensures PairsInRange(Without(s, k), |rowKeys|)
    ensures multiset(OrientAll(s, rowKeys, round)) ==
            multiset(OrientAll(Without(s, k), rowKeys, round)) + multiset{Orient(s[k], rowKeys, round)}
  {
    var out := OrientAll(s, rowKeys, round);
    OrientSplit(s[..k], s[k + 1..], rowKeys, round);
    assert OrientAll(Without(s, k), rowKeys, round) == Without(out, k);
    BagWithout(out, k);
  }

  lemma {:induction false} OrientPermuted(s: seq<ScoredPair>, t: seq<ScoredPair>, rowKeys: seq<string>,
                                          round: real -> real)
    requires multiset(s) == multiset(t) && PairsInRange(s, |rowKeys|) && PairsInRange(t, |rowKeys|)
    ensures multiset(OrientAll(s, rowKeys, round)) == multiset(OrientAll(t, rowKeys, round))
    decreases |s|
  {
    if s == [] {
      assert |multiset(t)| == 0;
    } else {
      var n := |s| - 1;
      var k := FindSame(s, n, t);
      OrientWithout(s, n, rowKeys, round);
      OrientWithout(t, k, rowKeys, round);
      OrientPermuted(Without(s, n), Without(t, k), rowKeys, round);
    }
  }

  /** The canonical `pairs` is the same for the same pairs in any order and with any
      ends swapped, provided each unordered pair occurs once. */
  lemma PairsForgetOrderAndDirection(s: seq<ScoredPair>, u: seq<ScoredPair>, t: seq<ScoredPair>,
                                     rowKeys: seq<string>, round: real -> real)
    requires PairsInRange(s, |rowKeys|) && Distinct(rowKeys) && UnorderedOnce(s)
    requires multiset(u) == multiset(s) && EndsSwapped(u, t)
    ensures PairsInRange(t, |rowKeys|)
    ensures Sort(OrientAll(t, rowKeys, round), PairLe) == Sort(OrientAll(s, rowKeys, round), PairLe)
  {
    forall k | 0 <= k < |u| ensures 0 <= u[k].0 < |rowKeys| && 0 <= u[k].1 < |rowKeys| {
      assert u[k] in multiset(s);
    }
    forall k | 0 <= k < |t| ensures OrientAll(t, rowKeys, round)[k] == OrientAll(u, rowKeys, round)[k] {
      OrientForgetsDirection(u[k], rowKeys, round);
    }
    assert OrientAll(t, rowKeys, round) == OrientAll(u, rowKeys, round);
    OrientPermuted(s, u, rowKeys, round);
    OrientedKeysTellPairs(s, rowKeys, round);
    PairLeIsAnOrder();
    SortForgetsOrder(OrientAll(s, rowKeys, round), OrientAll(u, rowKeys, round), PairLe);
  }

  /** Some scored pair joins the rows `i` and `j` with the rounded score `r`. */
  ghost predicate Scores(pairs: seq<ScoredPair>, i: int, j: int, r: real, round: real -> real) {
    exists p :: p in pairs && {p.0, p.1} == {i, j} && round(p.2) == r
  }

  /** Both lists score the same unordered pairs of rows, alike after rounding. */
  ghost predicate SameScores(s: seq<ScoredPair>, t: seq<ScoredPair>, round: real -> real) {
    forall i, j, r :: Scores(s, i, j, r, round) <==> Scores(t, i, j, r, round)
  }

  lemma SameOrientation(p: ScoredPair, q: ScoredPair, rowKeys: seq<string>, round: real -> real)
    requires 0 <= p.0 < |rowKeys| && 0 <= p.1 < |rowKeys| && 0 <= q.0 < |rowKeys| && 0 <= q.1 < |rowKeys|
    requires Distinct(rowKeys)
    ensures Orient(p, rowKeys, round) == Orient(q, rowKeys, round) <==>
      {p.0, p.1} == {q.0, q.1} && round(p.2) == round(q.2)
  {
    if {p.0, p.1} == {q.0, q.1} {
      assert p.0 in {q.0, q.1} && p.1 in {q.0, q.1} && q.0 in {p.0, p.1} && q.1 in {p.0, p.1};
      OrientForgetsDirection(p, rowKeys, round);
    }
    if Orient(p, rowKeys, round) == Orient(q, rowKeys, round) {
      SameEnds(p, q, rowKeys, round);
    }
  }

  /** An entry of one list stands for the same unordered pair and score in the other. */
  lemma EntryScores(s: seq<ScoredPair>, t: seq<ScoredPair>, rowKeys: seq<string>, round: real -> real, p: ScoredPair)
    requires PairsInRange(s, |rowKeys|) && PairsInRange(t, |rowKeys|) && Distinct(rowKeys) && p in s
    ensures Orient(p, rowKeys, round) in OrientAll(t, rowKeys, round) <==> Scores(t, p.0, p.1, round(p.2), round)
  {
    var k :| 0 <= k < |s| && s[k] == p;
    var e, out := Orient(p, rowKeys, round), OrientAll(t, rowKeys, round);
    if e in out {
      var m :| 0 <= m < |out| && out[m] == e;
      SameOrientation(p, t[m], rowKeys, round);
      assert t[m] in t;
    }
    if Scores(t, p.0, p.1, round(p.2), round) {
      var q :| q in t && {q.0, q.1} == {p.0, p.1} && round(q.2) == round(p.2);
      var m :| 0 <= m < |t| && t[m] == q;
      SameOrientation(p, q, rowKeys, round);
      assert out[m] == e;
    }
  }

  lemma SubsetOfEntries(s: seq<ScoredPair>, t: seq<ScoredPair>, rowKeys: seq<string>, round: real -> real)
    requires PairsInRange(s, |rowKeys|) && PairsInRange(t, |rowKeys|) && Distinct(rowKeys)
    ensures (forall e :: e in OrientAll(s, rowKeys, round) ==> e in OrientAll(t, rowKeys, round)) <==>
      forall i, j, r :: Scores(s, i, j, r, round) ==> Scores(t, i, j, r, round)
  {
    var a, b := OrientAll(s, rowKeys, round), OrientAll(t, rowKeys, round);
    if forall e :: e in a ==> e in b {
      forall i, j, r | Scores(s, i, j, r, round) ensures Scores(t, i, j, r, round) {
        var p :| p in s && {p.0, p.1} == {i, j} && round(p.2) == r;
        var k :| 0 <= k < |s| && s[k] == p;
        assert a[k] in b;
        EntryScores(s, t, rowKeys, round, p);
        var q :| q in t && {q.0, q.1} == {p.0, p.1} && round(q.2) == round(p.2);
      }
    }
    if forall i, j, r :: Scores(s, i, j, r, round) ==> Scores(t, i, j, r, round) {
      forall e | e in a ensures e in b {
        var k :| 0 <= k < |a| && a[k] == e;
        assert s[k] in s;
        assert Scores(s, s[k].0, s[k].1, round(s[k].2), round);
        EntryScores(s, t, rowKeys, round, s[k]);
      }
    }
  }

  /** The canonical `pairs` decides equality of the scored pairs: for lists in which each
      unordered pair occurs once it is the same exactly if both score the same unordered
      pairs of rows, alike after rounding. */
  lemma CanonicalDecidesPairs(s: seq<ScoredPair>, t: seq<ScoredPair>, rowKeys: seq<string>, round: real -> real)
    requires PairsInRange(s, |rowKeys|) && PairsInRange(t, |rowKeys|) && Distinct(rowKeys)
    requires UnorderedOnce(s) && UnorderedOnce(t)
    ensures Sort(OrientAll(s, rowKeys, round), PairLe) == Sort(OrientAll(t, rowKeys, round), PairLe)
       <==> SameScores(s, t, round)
  {
    var a, b := OrientAll(s, rowKeys, round), OrientAll(t, rowKeys, round);
    SubsetOfEntries(s, t, rowKeys, round);
    SubsetOfEntries(t, s, rowKeys, round);
    OrientedKeysTellPairs(s, rowKeys, round);
    OrientedKeysTellPairs(t, rowKeys, round);
    SortDecidesElements(a, b);
  }

  lemma SortDecidesElements(a: seq<KeyedPair>, b: seq<KeyedPair>)
    requires Distinct(a) && Distinct(b) && Determines(PairLe, a)
    ensures Sort(a, PairLe) == Sort(b, PairLe) <==> forall e :: e in a <==> e in b
  {
    if Sort(a, PairLe) == Sort(b, PairLe) {
      forall e ensures e in a <==> e in b {
        assert e in multiset(a) <==> e in multiset(b);
      }
    }
    if forall e :: e in a <==> e in b {
      DistinctSameElements(a, b);
      PairLeIsAnOrder();
      SortForgetsOrder(a, b, PairLe);
    }
  }

  // ----------------------------------------------------------- golden rows

  /** A golden row: its cluster id and its values. */
  type GoldenRow = (int, map<string, Option<string>>)

  /** `",".join(keys)`. */
  function JoinedKey(keys: seq<string>): string { if keys == [] then "" else Join(keys, ',') }

  /** The rows of clusters that have a key list. */
  function KnownRows(rows: seq<GoldenRow>, cidKeys: map<int, seq<string>>): (known: seq<GoldenRow>)
    ensures forall row :: row in known <==> row in rows && row.0 in cidKeys
  {
    if rows == [] then []
    else
      var m := |rows| - 1;
      assert rows == rows[..m] + [rows[m]];
      KnownRows(rows[..m], cidKeys) + if rows[m].0 in cidKeys then [rows[m]] else []
  }

  /** The golden keys those rows are written under. */
  function GoldenKeys(known: seq<GoldenRow>, cidKeys: map<int, seq<string>>): (keys: seq<string>)
    requires forall row :: row in known ==> row.0 in cidKeys
    ensures |keys| == |known| && forall k :: 0 <= k < |keys| ==> keys[k] == JoinedKey(cidKeys[known[k].0])
  {
    seq(|known|, k requires 0 <= k < |known| => JoinedKey(cidKeys[known[k].0]))
  }

  /** No later place holds the same key. */
  ghost predicate IsLast(keys: seq<string>, k: nat)
    requires k < |keys|
  {
    forall j :: k < j < |keys| ==> keys[j] != keys[k]
  }

  /** `golden` has the keys `keys` and no other, and the last row written under a key wins. */
  ghost predicate LastWins(keys: seq<string>, rows: seq<GoldenRow>, golden: map<string, map<string, Option<string>>>)
    requires |keys| == |rows|
  {
    && (forall key :: key in golden <==> key in keys)
    && (forall k :: 0 <= k < |keys| && IsLast(keys, k) ==> keys[k] in golden && golden[keys[k]] == rows[k].1)
  }

  lemma LastStaysLast(keys: seq<string>, key: string, k: nat)
    requires k < |keys| && IsLast(keys + [key], k)
    ensures IsLast(keys, k) && keys[k] != key
  {
    var after := keys + [key];
    assert after[|keys|] == key && after[k] == keys[k];
    forall j | k < j < |keys| ensures keys[j] != keys[k] { assert after[j] == keys[j]; }
  }

  lemma LastWinsStep(keys: seq<string>, rows: seq<GoldenRow>, golden: map<string, map<string, Option<string>>>,
                     key: string, row: GoldenRow)
    requires |keys| == |rows| && LastWins(keys, rows, golden)
    ensures LastWins(keys + [key], rows + [row], golden[key := row.1])
  {
    forall k | 0 <= k < |keys| && IsLast(keys + [key], k) ensures IsLast(keys, k) && keys[k] != key {
      LastStaysLast(keys, key, k);
    }
  }

  /** What the golden dictionary is: a key for every row of a known cluster and no other,
      holding the values of the last row written under it. */
  ghost predicate IsGolden(known: seq<GoldenRow>, cidKeys: map<int, seq<string>>,
                           golden: map<string, map<string, Option<string>>>)
    requires forall row :: row in known ==> row.0 in cidKeys
  {
    LastWins(GoldenKeys(known, cidKeys), known, golden)
  }

  lemma GoldenStep(known: seq<GoldenRow>, cidKeys: map<int, seq<string>>,
                   golden: map<string, map<string, Option<string>>>, row: GoldenRow)
    requires (forall r :: r in known ==> r.0 in cidKeys) && row.0 in cidKeys && IsGolden(known, cidKeys, golden)
    ensures forall r :: r in known + [row] ==> r.0 in cidKeys
    ensures IsGolden(known + [row], cidKeys, golden[JoinedKey(cidKeys[row.0]) := row.1])
  {
    LastWinsStep(GoldenKeys(known, cidKeys), known, golden, JoinedKey(cidKeys[row.0]), row);
    assert GoldenKeys(known + [row], cidKeys) == GoldenKeys(known, cidKeys) + [JoinedKey(cidKeys[row.0])];
  }

  /** The golden loop; rows of unknown clusters are skipped. */
  method CanonicalGolden(rows: seq<GoldenRow>, cidKeys: map<int, seq<string>>)
    returns (golden: map<string, map<string, Option<string>>>)
    ensures IsGolden(KnownRows(rows, cidKeys), cidKeys, golden)
  {
    golden := map[];
    for i := 0 to |rows|
      invariant IsGolden(KnownRows(rows[..i], cidKeys), cidKeys, golden)
    {
      var (cid, values) := rows[i];
      assert rows[..i + 1][..i] == rows[..i];
      if cid in cidKeys {
        GoldenStep(KnownRows(rows[..i], cidKeys), cidKeys, golden, rows[i]);
        golden := golden[JoinedKey(cidKeys[cid]) := values];
      } else {
        assert KnownRows(rows[..i + 1], cidKeys) == KnownRows(rows[..i], cidKeys);
      }
    }
    assert rows[..|rows|] == rows;
  }

  /** There are as many golden entries as rows of known clusters exactly when the joined
      keys of those rows differ; then every row is found under its own key. */
  lemma GoldenKeepsEveryRow(known: seq<GoldenRow>, cidKeys: map<int, seq<string>>,
                            golden: map<string, map<string, Option<string>>>)
    requires (forall row :: row in known ==> row.0 in cidKeys) && IsGolden(known, cidKeys, golden)
    ensures |golden| <= |known|
    ensures |golden| == |known| <==> Distinct(GoldenKeys(known, cidKeys))
    ensures |golden| == |known| ==> forall k :: 0 <= k < |known| ==>
      var key := JoinedKey(cidKeys[known[k].0]); key in golden && golden[key] == known[k].1
  {
    var keys := GoldenKeys(known, cidKeys);
    ElementCount(keys);
    assert golden.Keys == (set key | key in keys) && |golden| == |golden.Keys|;
  }

  // --------------------------------------------- golden rows of a clustering

  /** A cluster of several members has its key list under its id ... */
  lemma {:induction false} ListOfId(clusters: Clusters, rowKeys: seq<string>, c: int)
    requires AllInRange(clusters, |rowKeys|) && WellFormed(clusters)
    requires 0 <= c < |clusters| && |clusters[c].1| > 1
    ensures clusters[c].0 in KeysById(clusters, rowKeys)
    ensures KeysById(clusters, rowKeys)[clusters[c].0] == SortedKeys(clusters[c].1, rowKeys)
    decreases |clusters|
  {
    var m := |clusters| - 1;
    if c < m {
      ListOfId(clusters[..m], rowKeys, c);
      assert clusters[..m][c] == clusters[c] && clusters[c].0 != clusters[m].0;
    }
  }

  /** ... and no other id has one. */
  lemma {:induction false} IdHasCluster(clusters: Clusters, rowKeys: seq<string>, id: int) returns (c: int)
    requires AllInRange(clusters, |rowKeys|) && id in KeysById(clusters, rowKeys)
    ensures 0 <= c < |clusters| && clusters[c].0 == id && |clusters[c].1| > 1
    decreases |clusters|
  {
    c := |clusters| - 1;
    if clusters[c].0 != id || |clusters[c].1| <= 1 {
      c := IdHasCluster(clusters[..c], rowKeys, id);
    }
  }

  ghost predicate CommaFree(keys: seq<string>) { forall k :: 0 <= k < |keys| ==> ',' !in keys[k] }

  lemma SortedKeysAreRowKeys(members: seq<int>, rowKeys: seq<string>)
    requires InRange(members, |rowKeys|)
    ensures |SortedKeys(members, rowKeys)| == |members|
    ensures CommaFree(rowKeys) ==> CommaFree(SortedKeys(members, rowKeys))
  {
    var keys := Keys(members, rowKeys);
    var s := SortedKeys(members, rowKeys);
    assert |multiset(s)| == |s| && |multiset(keys)| == |keys|;
    forall k | 0 <= k < |s| ensures CommaFree(rowKeys) ==> ',' !in s[k] {
      assert s[k] in multiset(s);
      assert s[k] in keys;
    }
  }

  /** A clustering's key lists have two keys or more and differ from one another; they
      are comma-free if the row keys are. */
  lemma ClusteringLists(clusters: Clusters, rowKeys: seq<string>, a: int, b: int)
    requires IsClusteringOf(clusters, rowKeys)
    requires a in KeysById(clusters, rowKeys) && b in KeysById(clusters, rowKeys)
    ensures var lists := KeysById(clusters, rowKeys);
      && |lists[a]| > 1 && (CommaFree(rowKeys) ==> CommaFree(lists[a]))
      && (lists[a] == lists[b] ==> a == b)
  {
    var c := IdHasCluster(clusters, rowKeys, a);
    var d := IdHasCluster(clusters, rowKeys, b);
    ListOfId(clusters, rowKeys, c);
    ListOfId(clusters, rowKeys, d);
    assert InRange(clusters[c].1, |rowKeys|) && InRange(clusters[d].1, |rowKeys|);
    SortedKeysAreRowKeys(clusters[c].1, rowKeys);
    var i := clusters[c].1[0];
    KeyListNamesMembers(clusters[c].1, rowKeys, i);
    KeyListNamesMembers(clusters[d].1, rowKeys, i);
    if SortedKeys(clusters[c].1, rowKeys) == SortedKeys(clusters[d].1, rowKeys) {
      HomeHolds(clusters, c, d, i);
    }
  }

  /** Joining tells comma-free key lists apart. */
  lemma JoinIsInjective(a: seq<string>, b: seq<string>)
    requires a != [] && b != [] && CommaFree(a) && CommaFree(b) && JoinedKey(a) == JoinedKey(b)
    ensures a == b
  {
    SplitJoin(a, ',');
    SplitJoin(b, ',');
  }

  ghost predicate OneRowEach(known: seq<GoldenRow>) { forall i, j :: 0 <= i < j < |known| ==> known[i].0 != known[j].0 }

  /** For a clustering with comma-free row keys no golden entry is lost exactly when no
      cluster has two golden rows. */
  lemma CommaFreeKeysLoseNothing(clusters: Clusters, rowKeys: seq<string>, rows: seq<GoldenRow>,
                                 golden: map<string, map<string, Option<string>>>)
    requires IsClusteringOf(clusters, rowKeys) && CommaFree(rowKeys)
    requires IsGolden(KnownRows(rows, KeysById(clusters, rowKeys)), KeysById(clusters, rowKeys), golden)
    ensures |golden| == |KnownRows(rows, KeysById(clusters, rowKeys))|
         <==> OneRowEach(KnownRows(rows, KeysById(clusters, rowKeys)))
  {
    var lists := KeysById(clusters, rowKeys);
    var known := KnownRows(rows, lists);
    GoldenKeepsEveryRow(known, lists, golden);
    KeysFollowClusters(clusters, rowKeys, known);
    DistinctTogether(GoldenKeys(known, lists), known);
  }

  lemma KeysFollowClusters(clusters: Clusters, rowKeys: seq<string>, known: seq<GoldenRow>)
    requires IsClusteringOf(clusters, rowKeys) && CommaFree(rowKeys)
    requires forall row :: row in known ==> row.0 in KeysById(clusters, rowKeys)
    ensures var keys := GoldenKeys(known, KeysById(clusters, rowKeys));
      forall i, j :: 0 <= i < j < |known| ==> (keys[i] == keys[j] <==> known[i].0 == known[j].0)
  {
    var keys := GoldenKeys(known, KeysById(clusters, rowKeys));
    forall i, j | 0 <= i < j < |known| ensures keys[i] == keys[j] <==> known[i].0 == known[j].0 {
      assert known[i] in known && known[j] in known;
      SameKeySameCluster(clusters, rowKeys, known[i].0, known[j].0);
    }
  }

  lemma DistinctTogether(keys: seq<string>, known: seq<GoldenRow>)
    requires |keys| == |known|
    requires forall i, j :: 0 <= i < j < |known| ==> (keys[i] == keys[j] <==> known[i].0 == known[j].0)
    ensures Distinct(keys) <==> OneRowEach(known)
  {
  }

  lemma SameKeySameCluster(clusters: Clusters, rowKeys: seq<string>, a: int, b: int)
    requires IsClusteringOf(clusters, rowKeys) && CommaFree(rowKeys)
    requires a in KeysById(clusters, rowKeys) && b in KeysById(clusters, rowKeys)
    ensures JoinedKey(KeysById(clusters, rowKeys)[a]) == JoinedKey(KeysById(clusters, rowKeys)[b]) <==> a == b
  {
    var lists := KeysById(clusters, rowKeys);
    ClusteringLists(clusters, rowKeys, a, b);
    ClusteringLists(clusters, rowKeys, b, a);
    if JoinedKey(lists[a]) == JoinedKey(lists[b]) {
      JoinIsInjective(lists[a], lists[b]);
    }
  }

  // -------------------------------------------------- a clustering that fails

  const COMMA_KEYS := ["a", "a,b", "b,c", "c"]

  /** Rows "a" and "b,c" in one cluster, rows "a,b" and "c" in the other. */
  const COMMA_CLUSTERS: Clusters := [(0, [0, 2]), (1, [1, 3])]

  const COMMA_ROWS: seq<GoldenRow> := [(0, map[]), (1, map[])]

  lemma CommaClustersAreAClustering()
    ensures IsClusteringOf(COMMA_CLUSTERS, COMMA_KEYS)
  {
  }

  lemma InsertAfter(a: string, b: string)
    requires StringLe(a, b)
    ensures Insert([a], b, StringLe) == [a, b]
  {
  }

  lemma TwoKeys(i: int, j: int, rowKeys: seq<string>)
    requires 0 <= i < |rowKeys| && 0 <= j < |rowKeys| && StringLe(rowKeys[i], rowKeys[j])
    ensures SortedKeys([i, j], rowKeys) == [rowKeys[i], rowKeys[j]]
  {
    var a, b := rowKeys[i], rowKeys[j];
    assert Keys([i, j], rowKeys) == [a, b];
    assert [a, b][..1] == [a] && [a][..0] == [];
    assert Sort([a], StringLe) == [a];
    InsertAfter(a, b);
  }

  lemma JoinTwo(a: string, b: string)
    ensures JoinedKey([a, b]) == a + [','] + b
  {
    assert [a, b][..1] == [a];
    assert Join([a], ',') == a;
  }

  lemma BothJoinAlike()
    requires IsClusteringOf(COMMA_CLUSTERS, COMMA_KEYS)
    ensures var lists := KeysById(COMMA_CLUSTERS, COMMA_KEYS);
      0 in lists && 1 in lists && JoinedKey(lists[0]) == JoinedKey(lists[1])
  {
    ListOfId(COMMA_CLUSTERS, COMMA_KEYS, 0);
    ListOfId(COMMA_CLUSTERS, COMMA_KEYS, 1);
    TwoKeys(0, 2, COMMA_KEYS);
    TwoKeys(1, 3, COMMA_KEYS);
    JoinTwo("a", "b,c");
    JoinTwo("a,b", "c");
    assert "a" + [','] + "b,c" == "a,b" + [','] + "c";
  }

  /** With commas in the row keys a golden row can be lost: both clusters join to "a,b,c",
      so two rows leave one entry. */
  lemma CommasCollide(golden: map<string, map<string, Option<string>>>)
    requires IsGolden(KnownRows(COMMA_ROWS, KeysById(COMMA_CLUSTERS, COMMA_KEYS)),
                      KeysById(COMMA_CLUSTERS, COMMA_KEYS), golden)
    ensures IsClusteringOf(COMMA_CLUSTERS, COMMA_KEYS)
    ensures |golden| < |KnownRows(COMMA_ROWS, KeysById(COMMA_CLUSTERS, COMMA_KEYS))| == 2
  {
    CommaClustersAreAClustering();
    BothJoinAlike();
    TwoRowsOneKey(KeysById(COMMA_CLUSTERS, COMMA_KEYS), golden);
  }

  lemma TwoRowsOneKey(lists: map<int, seq<string>>, golden: map<string, map<string, Option<string>>>)
    requires 0 in lists && 1 in lists && JoinedKey(lists[0]) == JoinedKey(lists[1])
    requires IsGolden(KnownRows(COMMA_ROWS, lists), lists, golden)
    ensures |golden| < |KnownRows(COMMA_ROWS, lists)| == 2
  {
    assert COMMA_ROWS[..1] == [(0, map[])] && COMMA_ROWS[..1][..0] == [];
    assert KnownRows([], lists) == [] && KnownRows(COMMA_ROWS[..1], lists) == COMMA_ROWS[..1];
    assert KnownRows(COMMA_ROWS, lists) == COMMA_ROWS;
    var keys := GoldenKeys(COMMA_ROWS, lists);
    assert keys[0] == keys[1];
    GoldenKeepsEveryRow(COMMA_ROWS, lists, golden);
  }
}
