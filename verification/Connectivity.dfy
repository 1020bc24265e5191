/** Undirected connectivity over a set of pairs.

    This is the reference meaning of "the clusters a pair set describes": two
    records belong together exactly when a chain of pairs, each followed in
    either direction, leads from one to the other.  Nothing here mentions
    forests, roots or ids. */
module Connectivity {

  ghost predicate Adjacent<T>(E: set<(T, T)>, x: T, y: T) {
    (x, y) in E || (y, x) in E
  }

  /** `chain` lists the records visited after `x`; the last of them is `y`. */
  ghost predicate Walk<T>(E: set<(T, T)>, x: T, chain: seq<T>, y: T) {
    if chain == [] then x == y
    else Adjacent(E, x, chain[0]) && Walk(E, chain[0], chain[1..], y)
  }

  ghost predicate Connected<T(!new)>(E: set<(T, T)>, x: T, y: T) {
    exists chain: seq<T> :: Walk(E, x, chain, y)
  }

  lemma ConnectedRefl<T(!new)>(E: set<(T, T)>, x: T)
    ensures Connected(E, x, x)
  {
    assert Walk(E, x, [], x);
  }

  lemma ConnectedEdge<T(!new)>(E: set<(T, T)>, x: T, y: T)
    requires Adjacent(E, x, y)
    ensures Connected(E, x, y) && Connected(E, y, x)
  {
    assert Walk(E, y, [], y) && Walk(E, x, [], x);
    assert Walk(E, x, [y], y) && Walk(E, y, [x], x);
  }

  lemma {:induction false} WalkConcat<T(!new)>(E: set<(T, T)>, x: T, p: seq<T>, y: T, q: seq<T>, z: T)
    requires Walk(E, x, p, y) && Walk(E, y, q, z)
    ensures Walk(E, x, p + q, z)
  {
    if p == [] {
      assert p + q == q;
    } else {
      WalkConcat(E, p[0], p[1..], y, q, z);
      assert (p + q)[1..] == p[1..] + q;
    }
  }

  lemma ConnectedTrans<T(!new)>(E: set<(T, T)>, x: T, y: T, z: T)
    requires Connected(E, x, y) && Connected(E, y, z)
    ensures Connected(E, x, z)
  {
    var p :| Walk(E, x, p, y);
    var q :| Walk(E, y, q, z);
    WalkConcat(E, x, p, y, q, z);
  }

  lemma {:induction false} WalkBack<T(!new)>(E: set<(T, T)>, x: T, p: seq<T>, y: T)
    requires Walk(E, x, p, y)
    ensures Connected(E, y, x)
    decreases |p|
  {
    if p == [] {
      ConnectedRefl(E, x);
    } else {
      WalkBack(E, p[0], p[1..], y);
      ConnectedEdge(E, x, p[0]);
      ConnectedTrans(E, y, p[0], x);
    }
  }

  lemma ConnectedSym<T(!new)>(E: set<(T, T)>, x: T, y: T)
    requires Connected(E, x, y)
    ensures Connected(E, y, x)
  {
    var p :| Walk(E, x, p, y);
    WalkBack(E, x, p, y);
  }

  lemma {:induction false} WalkMono<T(!new)>(E: set<(T, T)>, F: set<(T, T)>, x: T, p: seq<T>, y: T)
    requires Walk(E, x, p, y)
    requires forall a, b :: Adjacent(E, a, b) ==> Adjacent(F, a, b)
    ensures Walk(F, x, p, y)
  {
    if p != [] {
      WalkMono(E, F, p[0], p[1..], y);
    }
  }

  /** More pairs never disconnect anything; orientation is irrelevant. */
  lemma ConnectedMono<T(!new)>(E: set<(T, T)>, F: set<(T, T)>, x: T, y: T)
    requires Connected(E, x, y)
    requires forall a, b :: Adjacent(E, a, b) ==> Adjacent(F, a, b)
    ensures Connected(F, x, y)
  {
    var p :| Walk(E, x, p, y);
    WalkMono(E, F, x, p, y);
  }

  /** A labelling that agrees on both ends of every pair is constant along walks. */
  lemma {:induction false} WalkKeepsLabel<T(!new), L>(E: set<(T, T)>, cls: map<T, L>, x: T, p: seq<T>, y: T)
    requires forall e :: e in E ==> e.0 in cls && e.1 in cls && cls[e.0] == cls[e.1]
    requires x in cls && Walk(E, x, p, y)
    ensures y in cls && cls[y] == cls[x]
    decreases |p|
  {
    if p != [] {
      WalkKeepsLabel(E, cls, p[0], p[1..], y);
    }
  }

  lemma ConnectedKeepsLabel<T(!new), L>(E: set<(T, T)>, cls: map<T, L>, x: T, y: T)
    requires forall e :: e in E ==> e.0 in cls && e.1 in cls && cls[e.0] == cls[e.1]
    requires x in cls && Connected(E, x, y)
    ensures y in cls && cls[y] == cls[x]
  {
    var p :| Walk(E, x, p, y);
    WalkKeepsLabel(E, cls, x, p, y);
  }
}
