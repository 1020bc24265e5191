/** Splitting a string at a separator, joining it again, and substring search.

    Splitting keeps empty parts, as the source's does: the parts of a string number one
    more than its separators, and joining them gives the string back.  The other
    direction needs the parts to be free of the separator, which is where two different
    lists of parts can come to the same string.  Substring search is by position: a
    marker is contained in a text when it is a prefix of some tail. */
module Strings {

  /** `s.split(sep)` for a one-character separator. */
  function Split(s: string, sep: char): (parts: seq<string>)
    ensures parts != []
  {
    if s == "" then [""]
    else
      var front, c := Split(s[..|s| - 1], sep), s[|s| - 1];
      var m := |front| - 1;
      if c == sep then front + [""] else front[m := front[m] + [c]]
  }

  /** `sep.join(parts)`. */
  function Join(parts: seq<string>, sep: char): string
    requires parts != []
  {
    var m := |parts| - 1;
    if m == 0 then parts[0] else Join(parts[..m], sep) + [sep] + parts[m]
  }

  lemma {:induction false} JoinSplit(s: string, sep: char)
    ensures Join(Split(s, sep), sep) == s
  {
    if s != "" {
      var front, c := s[..|s| - 1], s[|s| - 1];
      JoinSplit(front, sep);
      var parts, m := Split(s, sep), |Split(s, sep)| - 1;
      assert s == front + [c];
      if c == sep {
        assert parts[..m] == Split(front, sep);
      } else {
        assert parts[..m] == Split(front, sep)[..m];
      }
    }
  }

  /** Appending separator-free text extends the last part only. */
  lemma {:induction false} SplitAppend(s: string, t: string, sep: char)
    requires sep !in t
    ensures var parts := Split(s, sep); var m := |parts| - 1;
      Split(s + t, sep) == parts[m := parts[m] + t]
  {
    if t == "" {
      var parts := Split(s, sep);
      assert s + t == s && parts[|parts| - 1] + t == parts[|parts| - 1];
    } else {
      var n := |t| - 1;
      SplitAppend(s, t[..n], sep);
      assert t == t[..n] + [t[n]];
      assert (s + t)[..|s + t| - 1] == s + t[..n];
      var parts, m := Split(s, sep), |Split(s, sep)| - 1;
      assert parts[m] + t == parts[m] + t[..n] + [t[n]];
    }
  }

  lemma SplitAtEnd(front: string, last: string, sep: char)
    requires sep !in last
    ensures Split(front + [sep] + last, sep) == Split(front, sep) + [last]
  {
    var s, parts := front + [sep], Split(front, sep);
    assert s[..|front|] == front;
    assert Split(s, sep) == parts + [""];
    SplitAppend(s, last, sep);
    assert "" + last == last;
    assert (parts + [""])[|parts| := last] == parts + [last];
  }

  /** Parts without the separator survive a join. */
  lemma {:induction false} SplitJoin(parts: seq<string>, sep: char)
    requires parts != [] && forall i :: 0 <= i < |parts| ==> sep !in parts[i]
    ensures Split(Join(parts, sep), sep) == parts
  {
    var m := |parts| - 1;
    if m == 0 {
      SplitAppend("", parts[0], sep);
      assert "" + parts[0] == parts[0];
    } else {
      SplitJoin(parts[..m], sep);
      SplitAtEnd(Join(parts[..m], sep), parts[m], sep);
      assert parts == parts[..m] + [parts[m]];
    }
  }

  /** `m in s`. */
  predicate Contains(s: string, m: string) {
    m <= s || (s != "" && Contains(s[1..], m))
  }

  /** `s` is `a`, then `m`, then `b`. */
  ghost predicate Surrounds(s: string, a: string, m: string, b: string) { s == a + m + b }

  /** A string contains another exactly if it reads so with something on either side. */
  lemma {:induction false} ContainsMeaning(s: string, m: string)
    ensures Contains(s, m) <==> exists a, b :: Surrounds(s, a, m, b)
  {
    if m <= s {
      assert Surrounds(s, "", m, s[|m|..]);
    } else if s != "" {
      ContainsMeaning(s[1..], m);
      if Contains(s[1..], m) {
        var a, b :| Surrounds(s[1..], a, m, b);
        assert Surrounds(s, [s[0]] + a, m, b);
      }
    }
    if a, b :| Surrounds(s, a, m, b) {
      AfterPrefix(s, a, m, b);
    }
  }

  lemma {:induction false} AfterPrefix(s: string, a: string, m: string, b: string)
    requires Surrounds(s, a, m, b)
    ensures Contains(s, m)
    decreases |a|
  {
    if a == "" {
      assert m <= s;
    } else {
      assert s[1..] == a[1..] + m + b;
      AfterPrefix(s[1..], a[1..], m, b);
    }
  }

  /** White space, as `str.strip` and the pattern `\s` have it. */
  predicate IsSpace(c: char) {
    || '\U{0009}' <= c <= '\U{000D}' || '\U{001C}' <= c <= '\U{0020}' || '\U{2000}' <= c <= '\U{200A}'
    || c in "\U{0085}\U{00A0}\U{1680}\U{2028}\U{2029}\U{202F}\U{205F}\U{3000}"
  }

  /** `s.strip()`. */
  function Strip(s: string): string {
    if s == "" then ""
    else if IsSpace(s[0]) then Strip(s[1..])
    else if IsSpace(s[|s| - 1]) then Strip(s[..|s| - 1])
    else s
  }

  /** Stripping leaves nothing exactly of white space. */
  lemma {:induction false} StripMeaning(s: string)
    ensures Strip(s) == "" <==> forall c :: c in s ==> IsSpace(c)
    decreases |s|
  {
    if s != "" {
      var m := |s| - 1;
      StripMeaning(s[1..]);
      StripMeaning(s[..m]);
      assert s == [s[0]] + s[1..] && s == s[..m] + [s[m]];
    }
  }
}
