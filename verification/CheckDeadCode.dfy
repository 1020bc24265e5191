/** scripts/check_dead_code.py: module-level reachability and the deferral gate. */
module CheckDeadCode {
  import opened Bags
  import opened Strings

  // ------------------------------------------------------------- ancestors

  /** The joins of the leading parts, the whole left out. */
  function Heads(parts: seq<string>): seq<string>
    requires parts != []
  {
    seq(|parts| - 1, i requires 0 <= i < |parts| - 1 => Join(parts[..i + 1], '.'))
  }

  /** `_ancestors`: the packages Python imports on the way to a module, outermost first. */
  function Ancestors(name: string): seq<string> { Heads(Split(name, '.')) }

  /** A proper dotted prefix. */
  ghost predicate IsAncestor(a: string, name: string) {
    exists i :: 0 <= i < |name| && name[i] == '.' && a == name[..i]
  }

  lemma SplitStep(s: string, c: char)
    ensures Split(s + [c], '.') ==
      var front := Split(s, '.'); var m := |front| - 1; if c == '.' then front + [""] else front[m := front[m] + [c]]
  {
    assert (s + [c])[..|s|] == s;
  }

  lemma HeadsGrow(front: seq<string>, last: string)
    requires front != []
    ensures Heads(front + [last]) == Heads(front) + [Join(front, '.')]
  {
    var parts, m := front + [last], |front| - 1;
    assert front[..m + 1] == front;
    forall i | 0 <= i < |front| ensures Heads(parts)[i] == (Heads(front) + [Join(front, '.')])[i] {
      assert parts[..i + 1] == front[..i + 1];
    }
  }

  lemma HeadsForgetLast(front: seq<string>, last: string)
    requires front != []
    ensures Heads(front[|front| - 1 := last]) == Heads(front)
  {
    var parts, m := front[|front| - 1 := last], |front| - 1;
    forall i | 0 <= i < m ensures Heads(parts)[i] == Heads(front)[i] {
      assert parts[..i + 1] == front[..i + 1];
    }
  }

  lemma AncestorsStep(s: string, c: char)
    ensures Ancestors(s + [c]) == if c == '.' then Ancestors(s) + [s] else Ancestors(s)
  {
    var front := Split(s, '.');
    SplitStep(s, c);
    JoinSplit(s, '.');
    HeadsGrow(front, "");
    HeadsForgetLast(front, front[|front| - 1] + [c]);
  }

  lemma DottedPrefixStep(a: string, front: string, c: char)
    ensures IsAncestor(a, front + [c]) <==> IsAncestor(a, front) || (c == '.' && a == front)
  {
    var name, n := front + [c], |front|;
    assert name[n] == c && name[..n] == front;
    if IsAncestor(a, front) {
      var i :| 0 <= i < n && front[i] == '.' && a == front[..i];
      assert name[i] == '.' && a == name[..i];
    }
    if IsAncestor(a, name) {
      var i :| 0 <= i < |name| && name[i] == '.' && a == name[..i];
      if i < n { assert front[i] == '.' && a == front[..i]; }
    }
  }

  /** Splitting at the dots and joining the leading parts gives the dotted prefixes. */
  lemma {:induction false} AncestorsAreDottedPrefixes(name: string, a: string)
    ensures a in Ancestors(name) <==> IsAncestor(a, name)
    decreases |name|
  {
    if name == "" {
      assert Ancestors(name) == [];
    } else {
      var front, c := name[..|name| - 1], name[|name| - 1];
      assert name == front + [c];
      AncestorsAreDottedPrefixes(front, a);
      AncestorsStep(front, c);
      DottedPrefixStep(a, front, c);
    }
  }

  lemma AncestorsAreTransitive(a: string, b: string, c: string)
    requires a in Ancestors(b) && b in Ancestors(c)
    ensures a in Ancestors(c)
  {
    AncestorsAreDottedPrefixes(b, a);
    AncestorsAreDottedPrefixes(c, b);
    AncestorsAreDottedPrefixes(c, a);
    var i :| 0 <= i < |b| && b[i] == '.' && a == b[..i];
    var j :| 0 <= j < |c| && c[j] == '.' && b == c[..j];
    assert c[i] == '.' && a == c[..i];
  }

  // ----------------------------------------------------------- reachability

  /** Internal imports of each module; every edge names a module of the tree. */
  type Graph = map<string, set<string>>

  ghost predicate WellFormed(graph: Graph) {
    forall m :: m in graph ==> graph[m] <= graph.Keys
  }

  /** The known packages above a module. */
  function Packages(known: set<string>, name: string): set<string> {
    set a | a in Ancestors(name) && a in known
  }

  ghost predicate UpClosed(known: set<string>, S: set<string>) {
    forall m :: m in S ==> Packages(known, m) <= S
  }

  /** Closed under "imports" and "is inside package". */
  ghost predicate Closed(graph: Graph, S: set<string>) {
    && UpClosed(graph.Keys, S)
    && forall m :: m in S && m in graph ==> graph[m] <= S
  }

  /** The least closed set of modules containing the seeds. */
  ghost predicate IsReachable(graph: Graph, seeds: set<string>, S: set<string>) {
    && seeds <= S <= graph.Keys && Closed(graph, S)
    && forall T :: seeds <= T && Closed(graph, T) ==> S <= T
  }

  function AllPackages(known: set<string>, S: set<string>): set<string> {
    set m, a | m in S && a in Packages(known, m) :: a
  }

  lemma PackagesAreUpClosed(known: set<string>, S: set<string>)
    ensures UpClosed(known, S + AllPackages(known, S))
  {
    var U := S + AllPackages(known, S);
    forall m, a | m in U && a in Packages(known, m) ensures a in U {
      if m !in S {
        var n :| n in S && m in Packages(known, n);
        AncestorsAreTransitive(a, m, n);
        assert a in Packages(known, n);
      } else {
        assert a in Packages(known, m);
      }
    }
  }

  /** What a module leads to: its imports and the packages above them. */
  function Leads(graph: Graph, m: string): set<string>
    requires m in graph
  {
    graph[m] + AllPackages(graph.Keys, graph[m])
  }

  /** The adjacency loop. */
  method BuildAdjacency(graph: Graph) returns (adj: Graph)
    ensures adj.Keys == graph.Keys && forall m :: m in graph ==> adj[m] == Leads(graph, m)
  {
    adj := map[];
    var left := graph.Keys;
    while left != {}
      invariant left <= graph.Keys && adj.Keys == graph.Keys - left
      invariant forall m :: m in adj ==> adj[m] == Leads(graph, m)
    {
      var name :| name in left;
      var e := graph[name];
      var imports := graph[name];
      while imports != {}
        invariant imports <= graph[name]
        invariant e == graph[name] + AllPackages(graph.Keys, graph[name] - imports)
      {
        var imp :| imp in imports;
        imports := imports - {imp};
        e := e + Packages(graph.Keys, imp);
        assert AllPackages(graph.Keys, graph[name] - imports)
            == AllPackages(graph.Keys, graph[name] - imports - {imp}) + Packages(graph.Keys, imp);
      }
      adj := adj[name := e];
      left := left - {name};
    }
  }

  /** The loop state: `met` is what is reachable or still on the stack.  It holds the
      leads of every module already visited, and nothing that is not necessary. */
  ghost predicate Searching(graph: Graph, roots: set<string>, reachable: set<string>, stack: seq<string>,
                            met: set<string>) {
    && (forall m :: m in met <==> m in reachable || m in stack)
    && roots <= met <= graph.Keys && UpClosed(graph.Keys, met)
    && (forall m :: m in reachable ==> m in graph && graph[m] <= met)
    && (forall T :: roots <= T && Closed(graph, T) ==> met <= T)
  }

  /** Taking the top module off the stack and, if it is new, following its leads. */
  lemma VisitKeepsSearching(graph: Graph, roots: set<string>, reachable: set<string>, stack: seq<string>,
                            met: set<string>, next: seq<string>)
    requires WellFormed(graph) && Searching(graph, roots, reachable, stack, met) && stack != []
    requires stack[|stack| - 1] in graph && forall m :: m in next <==> m in Leads(graph, stack[|stack| - 1])
    ensures var cur, rest := stack[|stack| - 1], stack[..|stack| - 1];
      && (cur in reachable ==> Searching(graph, roots, reachable, rest, met))
      && Searching(graph, roots, reachable + {cur}, rest + next, met + Leads(graph, cur))
  {
    var cur, rest := stack[|stack| - 1], stack[..|stack| - 1];
    assert stack == rest + [cur];
    assert cur in stack;
    MeetMore(graph, roots, met, cur);
  }

  lemma SearchEnds(graph: Graph, roots: set<string>, reachable: set<string>, met: set<string>)
    requires Searching(graph, roots, reachable, [], met)
    ensures IsReachable(graph, roots, reachable)
  {
    assert reachable == met;
  }

  /** The worklist loop.  From roots that include their packages it computes exactly
      the least closed set containing them. */
  method Worklist(graph: Graph, adj: Graph, roots: set<string>) returns (reachable: set<string>)
    requires WellFormed(graph) && adj.Keys == graph.Keys
    requires forall m :: m in graph ==> adj[m] == Leads(graph, m)
    requires roots <= graph.Keys && UpClosed(graph.Keys, roots)
    ensures IsReachable(graph, roots, reachable)
  {
    reachable := {};
    var stack := ToList(roots);
    ghost var met := roots;
    while stack != []
      invariant Searching(graph, roots, reachable, stack, met)
      decreases graph.Keys - reachable, |stack|
    {
      var cur := stack[|stack| - 1];
      assert cur in met;
      var next := ToList(adj[cur]);
      VisitKeepsSearching(graph, roots, reachable, stack, met, next);
      stack := stack[..|stack| - 1];
      if cur !in reachable {
        reachable := reachable + {cur};
        stack := stack + next;
        met := met + adj[cur];
      }
    }
    SearchEnds(graph, roots, reachable, met);
  }

  /** Following one module's leads keeps what was met upward closed and necessary. */
  lemma MeetMore(graph: Graph, roots: set<string>, met: set<string>, cur: string)
    requires WellFormed(graph) && cur in met && met <= graph.Keys && UpClosed(graph.Keys, met)
    requires forall T :: roots <= T && Closed(graph, T) ==> met <= T
    ensures met + Leads(graph, cur) <= graph.Keys
    ensures UpClosed(graph.Keys, met + Leads(graph, cur))
    ensures forall T :: roots <= T && Closed(graph, T) ==> met + Leads(graph, cur) <= T
  {
    PackagesAreUpClosed(graph.Keys, graph[cur]);
    forall T | roots <= T && Closed(graph, T) ensures Leads(graph, cur) <= T {
      assert cur in T && graph[cur] <= T;
      forall a | a in AllPackages(graph.Keys, graph[cur]) ensures a in T {
        var m :| m in graph[cur] && a in Packages(graph.Keys, m);
      }
    }
  }

  /** A closed set already contains every package above its members. */
  lemma SweepAddsNothing(graph: Graph, S: set<string>)
    requires Closed(graph, S)
    ensures S + AllPackages(graph.Keys, S) == S
  {
  }

  // ---------------------------------------------------------------- analyze

  /** The entry points every package may declare, relative to the package name. */
  const ENTRY_HUBS: seq<string> :=
    ["", ".__main__", ".cli.main", ".mcp.server", ".a2a.server", ".api.server", ".web.app",
     ".plugins.registry", ".plugins.builtin"]

  /** Known entry hubs and known modules the tests import. */
  function Seeds(pkg: string, known: set<string>, testImports: set<string>): set<string> {
    (set m | m in known && m in testImports)
    + (set h | h in ENTRY_HUBS && pkg + h in known :: pkg + h)
  }

  datatype Report = Report(roots: set<string>, testOnlyRoots: set<string>, reachable: set<string>,
                           orphans: set<string>, uncovered: set<string>, stale: set<string>, phantom: set<string>)

  method CollectRoots(pkg: string, known: set<string>, testImports: set<string>)
    returns (roots: set<string>, testRoots: set<string>)
    ensures var seeds := Seeds(pkg, known, testImports); roots == seeds + AllPackages(known, seeds)
    ensures testRoots == known * testImports <= roots && Seeds(pkg, known, testImports) <= known
  {
    roots := {};
    for i := 0 to |ENTRY_HUBS|
      invariant roots == set h | h in ENTRY_HUBS[..i] && pkg + h in known :: pkg + h
    {
      var h := pkg + ENTRY_HUBS[i];
      assert ENTRY_HUBS[..i + 1] == ENTRY_HUBS[..i] + [ENTRY_HUBS[i]];
      if h in known {
        roots := roots + {h};
      }
    }
    assert ENTRY_HUBS[..|ENTRY_HUBS|] == ENTRY_HUBS;
    testRoots := known * testImports;
    roots := roots + testRoots;
    assert roots == Seeds(pkg, known, testImports);
    roots := roots + AllPackages(known, roots);
  }

  /** Adjacency, worklist and final sweep, from roots that include their packages. */
  method Reach(graph: Graph, ghost seeds: set<string>, roots: set<string>) returns (adj: Graph, reachable: set<string>)
    requires WellFormed(graph) && seeds <= graph.Keys && roots == seeds + AllPackages(graph.Keys, seeds)
    ensures adj.Keys == graph.Keys && forall m :: m in graph ==> adj[m] == Leads(graph, m)
    ensures IsReachable(graph, seeds, reachable) && roots <= reachable
  {
    PackagesAreUpClosed(graph.Keys, seeds);
    adj := BuildAdjacency(graph);
    reachable := Worklist(graph, adj, roots);
    RootsAddNothing(graph, seeds, reachable);
    SweepAddsNothing(graph, reachable);
    reachable := reachable + AllPackages(graph.Keys, reachable);
  }

  /** `analyze`: reachability from the declared surface, reconciled with the deferrals. */
  method Analyze(pkg: string, graph: Graph, testImports: set<string>, deferred: map<string, string>) returns (r: Report)
    requires WellFormed(graph)
    ensures IsReachable(graph, Seeds(pkg, graph.Keys, testImports), r.reachable)
    ensures r.roots <= r.reachable && r.orphans == graph.Keys - r.reachable
    ensures r.uncovered == r.orphans - deferred.Keys
    ensures r.stale == deferred.Keys * r.reachable && r.phantom == deferred.Keys - graph.Keys
    ensures r.testOnlyRoots == set m | m in graph.Keys * testImports && graph[m] == {}
    ensures forall m :: m in r.orphans <==> m in graph && !HasRoute(graph, pkg, testImports, m)
  {
    var known := graph.Keys;
    var roots, testRoots := CollectRoots(pkg, known, testImports);
    var adj, reachable := Reach(graph, Seeds(pkg, known, testImports), roots);
    TestRootsWithoutImports(graph, adj, testRoots, roots);
    var orphans := known - reachable;
    forall m ensures m in orphans <==> m in graph && !HasRoute(graph, pkg, testImports, m) {
      ReachableByRoutes(graph, pkg, testImports, reachable, m);
    }
    r := Report(roots, testRoots - (set m | m in roots && m in adj && adj[m] != {}), reachable, orphans,
                orphans - deferred.Keys, deferred.Keys * reachable, deferred.Keys - known);
  }

  lemma TestRootsWithoutImports(graph: Graph, adj: Graph, testRoots: set<string>, roots: set<string>)
    requires adj.Keys == graph.Keys && testRoots <= roots && testRoots <= graph.Keys
    requires forall m :: m in graph ==> adj[m] == Leads(graph, m)
    ensures testRoots - (set m | m in roots && m in adj && adj[m] != {}) == set m | m in testRoots && graph[m] == {}
  {
    forall m | m in testRoots ensures adj[m] == {} <==> graph[m] == {} {
      assert adj[m] == Leads(graph, m);
    }
  }

  /** Starting from the seeds together with their packages reaches the same modules. */
  lemma RootsAddNothing(graph: Graph, seeds: set<string>, S: set<string>)
    requires IsReachable(graph, seeds + AllPackages(graph.Keys, seeds), S)
    ensures IsReachable(graph, seeds, S)
  {
    forall T | seeds <= T && Closed(graph, T) ensures S <= T {
      forall a | a in AllPackages(graph.Keys, seeds) ensures a in T {
        var m :| m in seeds && a in Packages(graph.Keys, m);
      }
    }
  }

  // --------------------------------------------------- what is reachable

  /** A known module that the tests import, or that is one of the package's entry points. */
  ghost predicate IsDeclared(pkg: string, known: set<string>, testImports: set<string>, m: string) {
    m in known && (m in testImports || exists i :: 0 <= i < |ENTRY_HUBS| && m == pkg + ENTRY_HUBS[i])
  }

  /** Importing `m` imports `n`: it is a known module that `m` names, or a package above `m`. */
  ghost predicate Imports(graph: Graph, m: string, n: string) {
    m in graph && n in graph && (n in graph[m] || IsAncestor(n, m))
  }

  /** A declared module, then each time a module that the one before imports, up to `m`. */
  ghost predicate Route(graph: Graph, pkg: string, testImports: set<string>, chain: seq<string>, m: string) {
    && chain != [] && IsDeclared(pkg, graph.Keys, testImports, chain[0]) && chain[|chain| - 1] == m
    && forall i :: 0 < i < |chain| ==> Imports(graph, chain[i - 1], chain[i])
  }

  ghost predicate HasRoute(graph: Graph, pkg: string, testImports: set<string>, m: string) {
    exists chain :: Route(graph, pkg, testImports, chain, m)
  }

  lemma SeedsAreDeclared(pkg: string, known: set<string>, testImports: set<string>, m: string)
    ensures m in Seeds(pkg, known, testImports) <==> IsDeclared(pkg, known, testImports, m)
  {
    if i :| 0 <= i < |ENTRY_HUBS| && m == pkg + ENTRY_HUBS[i] {
      assert ENTRY_HUBS[i] in ENTRY_HUBS;
    }
  }

  lemma {:induction false} RouteStaysInside(graph: Graph, pkg: string, testImports: set<string>, S: set<string>,
                                            chain: seq<string>, m: string)
    requires Seeds(pkg, graph.Keys, testImports) <= S && Closed(graph, S)
    requires Route(graph, pkg, testImports, chain, m)
    ensures m in S
    decreases |chain|
  {
    var k := |chain| - 1;
    if k == 0 {
      SeedsAreDeclared(pkg, graph.Keys, testImports, m);
    } else {
      var front := chain[..k];
      assert front[0] == chain[0];
      RouteStaysInside(graph, pkg, testImports, S, front, chain[k - 1]);
      ImportStaysInside(graph, S, chain[k - 1], m);
    }
  }

  lemma ImportStaysInside(graph: Graph, S: set<string>, m: string, n: string)
    requires Closed(graph, S) && m in S && Imports(graph, m, n)
    ensures n in S
  {
    AncestorsAreDottedPrefixes(m, n);
    assert n in graph[m] || n in Packages(graph.Keys, m);
  }

  lemma RouteGrows(graph: Graph, pkg: string, testImports: set<string>, m: string, n: string)
    requires HasRoute(graph, pkg, testImports, m) && Imports(graph, m, n)
    ensures HasRoute(graph, pkg, testImports, n)
  {
    var chain :| Route(graph, pkg, testImports, chain, m);
    assert Route(graph, pkg, testImports, chain + [n], n);
  }

  lemma RoutesAreClosed(graph: Graph, pkg: string, testImports: set<string>, T: set<string>)
    requires WellFormed(graph) && forall m :: m in T <==> m in graph && HasRoute(graph, pkg, testImports, m)
    ensures Seeds(pkg, graph.Keys, testImports) <= T && Closed(graph, T)
  {
    forall m | m in Seeds(pkg, graph.Keys, testImports) ensures m in T {
      SeedsAreDeclared(pkg, graph.Keys, testImports, m);
      assert Route(graph, pkg, testImports, [m], m);
    }
    forall m, n | m in T && n in graph[m] ensures n in T {
      RouteGrows(graph, pkg, testImports, m, n);
    }
    forall m, a | m in T && a in Packages(graph.Keys, m) ensures a in T {
      AncestorsAreDottedPrefixes(m, a);
      RouteGrows(graph, pkg, testImports, m, a);
    }
  }

  /** What is reachable: the modules that a chain of imports leads to from the declared
      surface.  The orphans are the modules without such a chain. */
  lemma ReachableByRoutes(graph: Graph, pkg: string, testImports: set<string>, S: set<string>, m: string)
    requires WellFormed(graph) && IsReachable(graph, Seeds(pkg, graph.Keys, testImports), S)
    ensures m in S <==> m in graph && HasRoute(graph, pkg, testImports, m)
  {
    if chain :| Route(graph, pkg, testImports, chain, m) {
      RouteStaysInside(graph, pkg, testImports, S, chain, m);
    }
    if m in S {
      var T := set n | n in graph && HasRoute(graph, pkg, testImports, n);
      RoutesAreClosed(graph, pkg, testImports, T);
    }
  }

  /** The exit status of `--check`. */
  function ExitCode(r: Report): int {
    if r.uncovered == {} && r.stale == {} && r.phantom == {} then 0 else 1
  }

  // ------------------------------------------------------------- properties

  /** The gate passes exactly when the deferred modules are the orphans, no more and
      no fewer. */
  lemma GateIsExact(known: set<string>, reachable: set<string>, deferred: map<string, string>, r: Report)
    requires reachable <= known && r.orphans == known - reachable
    requires r.uncovered == r.orphans - deferred.Keys
    requires r.stale == deferred.Keys * reachable && r.phantom == deferred.Keys - known
    ensures ExitCode(r) == 0 <==> deferred.Keys == r.orphans
  {
    if ExitCode(r) == 0 {
      forall d | d in deferred.Keys ensures d in r.orphans {
        assert d !in r.stale && d !in r.phantom;
      }
      forall o | o in r.orphans ensures o in deferred.Keys {
        assert o !in r.uncovered;
      }
    }
  }

  /** Adding a root, a test import or an import edge never makes a module an orphan. */
  lemma MoreEdgesFewerOrphans(graph: Graph, graph': Graph, seeds: set<string>, seeds': set<string>,
                              S: set<string>, S': set<string>)
    requires graph.Keys == graph'.Keys && forall m :: m in graph ==> graph[m] <= graph'[m]
    requires seeds <= seeds' && IsReachable(graph, seeds, S) && IsReachable(graph', seeds', S')
    ensures graph'.Keys - S' <= graph.Keys - S
  {
    assert Closed(graph, S');
  }
}
