/** scripts/check_claude_refs.py: resolving a referenced path through a basename index. */
module CheckClaudeRefs {

  /** `s.rsplit("/", 1)[-1]`. */
  function Basename(s: string): string {
    if s == "" || s[|s| - 1] == '/' then "" else Basename(s[..|s| - 1]) + [s[|s| - 1]]
  }

  /** The basename is what follows the last slash, or everything if there is none. */
  lemma {:induction false} BasenameFollowsLastSlash(s: string)
    ensures var r := Basename(s);
      && '/' !in r && |r| <= |s| && r == s[|s| - |r|..]
      && (|r| < |s| ==> s[|s| - |r| - 1] == '/')
  {
    if s != "" && s[|s| - 1] != '/' {
      BasenameFollowsLastSlash(s[..|s| - 1]);
    }
  }

  predicate EndsWith(s: string, tail: string) { |tail| <= |s| && s[|s| - |tail|..] == tail }

  /** `s` is `front` and then `tail`. */
  ghost predicate Ends(s: string, front: string, tail: string) { s == front + tail }

  lemma EndsMeaning(s: string, tail: string)
    ensures EndsWith(s, tail) <==> exists front :: Ends(s, front, tail)
  {
    if EndsWith(s, tail) {
      assert Ends(s, s[..|s| - |tail|], tail);
    }
  }

  type Index = map<string, seq<string>>

  predicate Lists(index: Index, name: string, p: string) { name in index && p in index[name] }

  /** The index lists each path of `tracked` under its basename, and nothing else. */
  ghost predicate Indexes(index: Index, tracked: set<string>) {
    forall name, p :: Lists(index, name, p) <==> p in tracked && Basename(p) == name
  }

  /** `by_basename.setdefault(name, []).append(p)`. */
  function Filed(index: Index, name: string, p: string): (r: Index)
    ensures forall n, q :: Lists(r, n, q) <==> Lists(index, n, q) || (n == name && q == p)
  {
    index[name := (if name in index then index[name] else []) + [p]]
  }

  lemma FiledIndexes(index: Index, seen: set<string>, p: string)
    requires Indexes(index, seen)
    ensures Indexes(Filed(index, Basename(p), p), seen + {p})
  {
  }

  /** The index `_resolver` fills. */
  method BuildIndex(tracked: set<string>) returns (index: Index)
    ensures Indexes(index, tracked)
  {
    index := map[];
    var rest := tracked;
    while rest != {}
      invariant rest <= tracked && Indexes(index, tracked - rest)
      decreases |rest|
    {
      var p :| p in rest;
      FiledIndexes(index, tracked - rest, p);
      assert tracked - rest + {p} == tracked - (rest - {p});
      index := Filed(index, Basename(p), p);
      rest := rest - {p};
    }
    assert tracked - rest == tracked;
  }

  /** The returned closure. */
  predicate Resolves(index: Index, tracked: set<string>, token: string) {
    token in tracked ||
    (Basename(token) in index && exists p :: p in index[Basename(token)] && EndsWith(p, "/" + token))
  }

  lemma BasenameStep(s: string, c: char)
    ensures Basename(s + [c]) == if c == '/' then "" else Basename(s) + [c]
  {
    assert (s + [c])[..|s|] == s;
  }

  lemma {:induction false} AfterSlash(p: string, token: string)
    requires Basename(p) == ""
    ensures Basename(p + token) == Basename(token)
    decreases |token|
  {
    if token == "" {
      assert p + token == p;
    } else {
      var t, c := token[..|token| - 1], token[|token| - 1];
      AfterSlash(p, t);
      LastCharacter(p + t, t, c);
      assert token == t + [c] && p + token == p + t + [c];
    }
  }

  /** A path that ends in "/" and `token` has the basename of `token`. */
  lemma SuffixSharesBasename(front: string, token: string)
    ensures Basename(front + "/" + token) == Basename(token)
  {
    BasenameStep(front, '/');
    assert front + "/" == front + ['/'];
    AfterSlash(front + "/", token);
  }

  lemma LastCharacter(a: string, b: string, c: char)
    requires Basename(a) == Basename(b)
    ensures Basename(a + [c]) == Basename(b + [c])
  {
    BasenameStep(a, c);
    BasenameStep(b, c);
  }

  /** Looking only under the token's basename misses nothing: a token resolves exactly when
      it is tracked or some tracked path ends in "/" and the token. */
  lemma ResolvesIsFullScan(index: Index, tracked: set<string>, token: string)
    requires Indexes(index, tracked)
    ensures Resolves(index, tracked, token) <==>
      token in tracked || exists p :: p in tracked && EndsWith(p, "/" + token)
  {
    forall p | p in tracked && EndsWith(p, "/" + token) ensures Lists(index, Basename(token), p) {
      var front := p[..|p| - |token| - 1];
      assert p == front + ("/" + token) == front + "/" + token;
      SuffixSharesBasename(front, token);
    }
    forall p | Basename(token) in index && p in index[Basename(token)] ensures p in tracked {
      assert Lists(index, Basename(token), p);
    }
  }

  /** Moving every tracked path under one directory breaks no reference. */
  lemma DeeperTreesResolveMore(index: Index, tracked: set<string>, deeper: Index, dir: string, token: string)
    requires Indexes(index, tracked) && Indexes(deeper, set p | p in tracked :: dir + "/" + p)
    requires Resolves(index, tracked, token)
    ensures Resolves(deeper, set p | p in tracked :: dir + "/" + p, token)
  {
    var tracked' := set p | p in tracked :: dir + "/" + p;
    ResolvesIsFullScan(index, tracked, token);
    ResolvesIsFullScan(deeper, tracked', token);
    var tail := "/" + token;
    if token in tracked {
      assert dir + "/" + token == dir + tail && dir + "/" + token in tracked';
      assert EndsWith(dir + "/" + token, tail);
    } else {
      var p :| p in tracked && EndsWith(p, tail);
      var q := dir + "/" + p;
      assert q[|q| - |tail|..] == p[|p| - |tail|..] && q in tracked';
      assert EndsWith(q, tail);
    }
  }
}
