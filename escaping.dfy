/**
  `EscapeGlob` of libarttools/tools.cc: every `*`, `?` and `[` becomes the
  one-member class `[*]`, `[?]`, `[[]`, so that the result used as a glob
  matches the original string literally.

  Both the escape as written and the corrected one (which also quotes `\`)
  rewrite a string one character at a time, so the path-level facts are proved
  once for any such per-character rewrite that leaves '/' alone.
*/
module Escaping {
  import opened Paths
  import opened SegmentGlob
  import opened PathMatch
  import opened Wrappers

  predicate IsGlobMeta(c: char) {
    c == '*' || c == '?' || c == '['
  }

  /** The replacement of the pattern `\*|\?|\[` by `[$&]`, for one character. */
  function EscapeChar(c: char): string {
    if IsGlobMeta(c) then ['[', c, ']'] else [c]
  }

  /** A string rewritten one character at a time. */
  function EscapeWith(esc: char -> string, s: string): string {
    if s == [] then [] else esc(s[0]) + EscapeWith(esc, s[1..])
  }

  function EscapeGlob(s: string): string {
    EscapeWith(EscapeChar, s)
  }

  /** The rewrite works character by character: escaping distributes over concatenation. */
  lemma {:induction false} EscapeWithConcat(esc: char -> string, a: string, b: string)
    ensures EscapeWith(esc, a + b) == EscapeWith(esc, a) + EscapeWith(esc, b)
    decreases |a|
  {
    if a == [] {
      assert a + b == b;
    } else {
      assert (a + b)[0] == a[0] && (a + b)[1..] == a[1..] + b;
      EscapeWithConcat(esc, a[1..], b);
    }
  }

  /** Characters other than `*`, `?`, `[` are kept, in order; the three are bracketed. */
  lemma EscapeGlobRewrite(a: string, c: char, b: string)
    ensures IsGlobMeta(c) ==> EscapeGlob(a + [c] + b) == EscapeGlob(a) + ['[', c, ']'] + EscapeGlob(b)
    ensures !IsGlobMeta(c) ==> EscapeGlob(a + [c] + b) == EscapeGlob(a) + [c] + EscapeGlob(b)
  {
    EscapeWithConcat(EscapeChar, a + [c], b);
    EscapeWithConcat(EscapeChar, a, [c]);
    assert EscapeGlob([c]) == EscapeChar(c) by { assert [c][1..] == []; }
  }

  /** A one-member class `[c]` followed by `q` matches `c` followed by what `q` matches. */
  lemma BracketedMetaMatches(c: char, q: string, t: string)
    requires IsGlobMeta(c)
    ensures Fnmatch(['[', c, ']'] + q, t) <==> t != [] && t[0] == c && Fnmatch(q, t[1..])
  {
    var p := ['[', c, ']'] + q;
    assert p[0] == '[' && p[1] == c && p[2] == ']';
    assert ClassStart(p) == 1;
    assert ClassClose(p) == Some(2);
    assert p[1..2] == [c];
    assert p[3..] == q;
    assert [c][1..] == [];
    assert t != [] ==> (InClass([c], t[0]) <==> t[0] == c);
  }

  /** For a segment without backslashes, the escaped segment matches that segment and no other. */
  lemma {:induction false} EscapedSegmentMatchesOnlyItself(s: string, t: string)
    requires '\\' !in s
    ensures Fnmatch(EscapeGlob(s), t) <==> t == s
    decreases |s|
  {
    if s != [] {
      var c := s[0];
      var q := EscapeGlob(s[1..]);
      assert EscapeGlob(s) == EscapeChar(c) + q;
      assert c in s;
      assert '\\' !in s[1..] by { assert forall x :: x in s[1..] ==> x in s; }
      if IsGlobMeta(c) {
        BracketedMetaMatches(c, q, t);
      } else {
        var p := [c] + q;
        assert p[0] == c && p[1..] == q;
      }
      if t != [] {
        EscapedSegmentMatchesOnlyItself(s[1..], t[1..]);
        assert t == [t[0]] + t[1..] && s == [c] + s[1..];
      }
    }
  }

  /**
    A rewrite that keeps '/' as it is, turns every other character into a non-empty
    stretch without '/', and never starts a replacement with `*`.
  */
  ghost predicate SeparatorSafe(esc: char -> string) {
    && esc('/') == "/"
    && forall c :: |esc(c)| > 0 && esc(c)[0] != '*' && (c != '/' ==> '/' !in esc(c))
  }

  /** An escaped component is never the "**" sentinel, even when the literal is "**". */
  lemma EscapeWithIsNotDoubleStar(esc: char -> string, s: string)
    requires SeparatorSafe(esc)
    ensures EscapeWith(esc, s) != DoubleStar
  {
    if s != [] {
      assert EscapeWith(esc, s)[0] == esc(s[0])[0];
    }
  }

  function EscapeComponents(esc: char -> string, xs: Path): Path {
    if xs == [] then [] else [EscapeWith(esc, xs[0])] + EscapeComponents(esc, xs[1..])
  }

  lemma {:induction false} EscapeComponentsConcat(esc: char -> string, xs: Path, ys: Path)
    ensures EscapeComponents(esc, xs + ys) == EscapeComponents(esc, xs) + EscapeComponents(esc, ys)
    decreases |xs|
  {
    if xs == [] {
      assert xs + ys == ys;
    } else {
      assert (xs + ys)[0] == xs[0] && (xs + ys)[1..] == xs[1..] + ys;
      EscapeComponentsConcat(esc, xs[1..], ys);
    }
  }

  lemma {:induction false} SplitFromEscape(esc: char -> string, s: string, cur: string)
    requires SeparatorSafe(esc)
    ensures SplitFrom(EscapeWith(esc, s), EscapeWith(esc, cur)) == EscapeComponents(esc, SplitFrom(s, cur))
    decreases |s|
  {
    assert EscapeWith(esc, cur) == [] <==> cur == [] by {
      if cur != [] { assert |esc(cur[0])| > 0; }
    }
    if s == [] {
      assert EscapeComponents(esc, [cur]) == [EscapeWith(esc, cur)];
    } else if s[0] == '/' {
      assert EscapeWith(esc, s) == ['/'] + EscapeWith(esc, s[1..]);
      SplitFromEscape(esc, s[1..], []);
      var head := if cur == [] then [] else [cur];
      EscapeComponentsConcat(esc, head, SplitFrom(s[1..], []));
      assert EscapeComponents(esc, [cur]) == [EscapeWith(esc, cur)];
    } else {
      var c := s[0];
      assert EscapeWith(esc, s) == esc(c) + EscapeWith(esc, s[1..]);
      assert '/' !in esc(c);
      SplitFromNoSlash(esc(c), EscapeWith(esc, s[1..]), EscapeWith(esc, cur));
      EscapeWithConcat(esc, cur, [c]);
      assert EscapeWith(esc, [c]) == esc(c) by { assert [c][1..] == []; }
      SplitFromEscape(esc, s[1..], cur + [c]);
    }
  }

  /** Escaping a whole path string escapes each of its components and keeps the separators. */
  lemma ParsePathEscape(esc: char -> string, s: string)
    requires SeparatorSafe(esc)
    ensures ParsePath(EscapeWith(esc, s)) == EscapeComponents(esc, ParsePath(s))
  {
    SplitFromEscape(esc, s, []);
    assert EscapeWith(esc, []) == [];
    if |s| > 0 && s[0] == '/' {
      SplitFromEscape(esc, s[1..], []);
      assert EscapeWith(esc, s) == "/" + EscapeWith(esc, s[1..]);
      assert EscapeComponents(esc, ["/"] + SplitFrom(s[1..], []))
          == [EscapeWith(esc, "/")] + EscapeComponents(esc, SplitFrom(s[1..], []));
      assert EscapeWith(esc, "/") == "/" by { assert "/"[1..] == []; }
    } else if s != [] {
      assert EscapeWith(esc, s)[0] == esc(s[0])[0];
      assert esc(s[0])[0] in esc(s[0]);
    }
  }

  /** Components made only of characters of `s`. */
  lemma {:induction false} SplitFromChars(s: string, cur: string, x: char)
    requires x !in s && x !in cur
    ensures forall i :: 0 <= i < |SplitFrom(s, cur)| ==> x !in SplitFrom(s, cur)[i]
    decreases |s|
  {
    if s != [] {
      assert forall y :: y in s[1..] ==> y in s;
      assert s[0] in s;
      if s[0] == '/' {
        SplitFromChars(s[1..], [], x);
      } else {
        SplitFromChars(s[1..], cur + [s[0]], x);
      }
    }
  }

  /** Components whose escapes match exactly themselves give a pattern matching exactly that path. */
  lemma {:induction false} EscapedComponentsMatchOnlyThemselves(esc: char -> string, xs: Path, ys: Path)
    requires SeparatorSafe(esc)
    requires forall i, t :: 0 <= i < |xs| ==> (Fnmatch(EscapeWith(esc, xs[i]), t) <==> t == xs[i])
    ensures FullMatch(EscapeComponents(esc, xs), ys) <==> ys == xs
    decreases |xs|
  {
    if xs != [] {
      var p := EscapeComponents(esc, xs);
      assert p[0] == EscapeWith(esc, xs[0]) && p[1..] == EscapeComponents(esc, xs[1..]);
      EscapeWithIsNotDoubleStar(esc, xs[0]);
      assert forall i, t :: 0 <= i < |xs| - 1 ==>
        (Fnmatch(EscapeWith(esc, xs[1..][i]), t) <==> t == xs[1..][i]) by {
        assert forall i :: 0 <= i < |xs| - 1 ==> xs[1..][i] == xs[i + 1];
      }
      if ys != [] {
        assert Fnmatch(EscapeWith(esc, xs[0]), ys[0]) <==> ys[0] == xs[0];
        EscapedComponentsMatchOnlyThemselves(esc, xs[1..], ys[1..]);
        assert ys == [ys[0]] + ys[1..] && xs == [xs[0]] + xs[1..];
      }
    } else {
      assert EscapeComponents(esc, xs) == [];
    }
  }

  lemma EscapeCharSeparatorSafe()
    ensures SeparatorSafe(EscapeChar)
  {
  }

  /**
    The EscapeGlob test: for a path string without backslashes, the escaped string
    parsed as a pattern fully matches that path and no other, whatever glob
    characters (including a "**" component) the path contains.
  */
  lemma EscapedPathMatchesOnlyItself(s: string, path: Path)
    requires '\\' !in s
    ensures FullMatch(ParsePath(EscapeGlob(s)), path) <==> path == ParsePath(s)
  {
    EscapeCharSeparatorSafe();
    ParsePathEscape(EscapeChar, s);
    var xs := ParsePath(s);
    if |s| > 0 && s[0] == '/' {
      assert forall c :: c in s[1..] ==> c in s;
      SplitFromChars(s[1..], [], '\\');
      assert forall i :: 0 <= i < |xs| ==> '\\' !in xs[i] by {
        forall i | 0 <= i < |xs| ensures '\\' !in xs[i] {
          if i > 0 { assert xs[i] == SplitFrom(s[1..], [])[i - 1]; }
        }
      }
    } else {
      SplitFromChars(s, [], '\\');
    }
    forall i, t | 0 <= i < |xs| ensures Fnmatch(EscapeWith(EscapeChar, xs[i]), t) <==> t == xs[i] {
      EscapedSegmentMatchesOnlyItself(xs[i], t);
    }
    EscapedComponentsMatchOnlyThemselves(EscapeChar, xs, path);
  }

  /**
    EscapeGlob leaves `\` alone, but with flags 0 fnmatch reads `\` as quoting the next
    character: the escaped "a\b" matches "ab" and not "a\b" itself.
  */
  lemma EscapeGlobMissesBackslash()
    ensures EscapeGlob("a\\b") == "a\\b"
    ensures Fnmatch(EscapeGlob("a\\b"), "ab")
    ensures !Fnmatch(EscapeGlob("a\\b"), "a\\b")
  {
    var p := "a\\b";
    assert EscapeGlob("b") == "b" by { assert "b"[1..] == []; }
    assert p[1..] == "\\b" && p[1..][1..] == "b";
    assert EscapeGlob(p) == p;
    assert "ab"[1..] == "b" && "b"[1..] == [];
    assert Fnmatch("\\b", "b") by { assert "\\b"[2..] == []; }
    assert Fnmatch(p, "ab");
    assert "a\\b"[1..] == "\\b";
    assert !Fnmatch("\\b", "\\b");
  }

  /** The escape that also quotes backslashes, as `\\`. */
  function EscapeCharQuotingBackslash(c: char): string {
    if IsGlobMeta(c) then ['[', c, ']'] else if c == '\\' then ['\\', '\\'] else [c]
  }

  function EscapeGlobQuotingBackslash(s: string): string {
    EscapeWith(EscapeCharQuotingBackslash, s)
  }

  /** With backslashes quoted too, every segment escapes to a glob matching exactly itself. */
  lemma {:induction false} EscapeGlobQuotingBackslashMatchesOnlyItself(s: string, t: string)
    ensures Fnmatch(EscapeGlobQuotingBackslash(s), t) <==> t == s
    decreases |s|
  {
    if s != [] {
      var c := s[0];
      var q := EscapeGlobQuotingBackslash(s[1..]);
      assert EscapeGlobQuotingBackslash(s) == EscapeCharQuotingBackslash(c) + q;
      if IsGlobMeta(c) {
        BracketedMetaMatches(c, q, t);
      } else if c == '\\' {
        var p := ['\\', '\\'] + q;
        assert p[0] == '\\' && p[1] == '\\' && p[2..] == q;
      } else {
        var p := [c] + q;
        assert p[0] == c && p[1..] == q;
      }
      if t != [] {
        EscapeGlobQuotingBackslashMatchesOnlyItself(s[1..], t[1..]);
        assert t == [t[0]] + t[1..] && s == [c] + s[1..];
      }
    }
  }

  lemma EscapeCharQuotingBackslashSeparatorSafe()
    ensures SeparatorSafe(EscapeCharQuotingBackslash)
  {
  }

  /** With backslashes quoted too, every path string escapes to a pattern matching exactly that path. */
  lemma QuotedPathMatchesOnlyItself(s: string, path: Path)
    ensures FullMatch(ParsePath(EscapeGlobQuotingBackslash(s)), path) <==> path == ParsePath(s)
  {
    EscapeCharQuotingBackslashSeparatorSafe();
    ParsePathEscape(EscapeCharQuotingBackslash, s);
    var xs := ParsePath(s);
    forall i, t | 0 <= i < |xs|
      ensures Fnmatch(EscapeWith(EscapeCharQuotingBackslash, xs[i]), t) <==> t == xs[i]
    {
      EscapeGlobQuotingBackslashMatchesOnlyItself(xs[i], t);
    }
    EscapedComponentsMatchOnlyThemselves(EscapeCharQuotingBackslash, xs, path);
  }
}
