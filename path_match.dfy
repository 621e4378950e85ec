/**
  Matching a whole path against a pattern, component by component
  (`PartialMatch`, `FullMatchRecursive` and `FullMatch` of libarttools/tools.cc).
  A pattern component "**" stands for zero or more whole path components;
  every other component is a single-segment glob compared with `Fnmatch`.
  Where the source advances iterators, the model passes the remaining suffixes.
*/
module PathMatch {
  import opened Paths
  import opened SegmentGlob

  const DoubleStar: string := "**"

  /** Index of the first "**" component of `pattern`, or |pattern| when it has none. */
  function FirstDoubleStar(pattern: Path): (k: nat)
    ensures k <= |pattern|
    ensures forall i :: 0 <= i < k ==> pattern[i] != DoubleStar
    ensures k < |pattern| ==> pattern[k] == DoubleStar
  {
    if pattern == [] then 0
    else if pattern[0] == DoubleStar then 0
    else 1 + FirstDoubleStar(pattern[1..])
  }

  /** Component `i` of `path` matches component `i` of `pattern` for every i < n. */
  predicate PairwiseUpTo(pattern: Path, path: Path, n: nat)
    requires n <= |pattern| && n <= |path|
  {
    forall i :: 0 <= i < n ==> Fnmatch(pattern[i], path[i])
  }

  /**
    Whether `prefix` may lead to a path matching `pattern`: the components before the
    first "**" match pairwise as far as the prefix goes, and the prefix outruns the
    pattern only if a "**" is there to absorb the rest.
  */
  predicate PrefixCompatible(pattern: Path, prefix: Path) {
    var k := FirstDoubleStar(pattern);
    (forall i :: 0 <= i < |prefix| && i < k ==> Fnmatch(pattern[i], prefix[i]))
    && (|prefix| <= k || k < |pattern|)
  }

  /** The pruning test: walks both sequences together, as the source's loop does. */
  method PartialMatch(pattern: Path, pathPrefix: Path) returns (r: bool)
    ensures r == PrefixCompatible(pattern, pathPrefix)
  {
    var i := 0;
    while true
      invariant i <= |pathPrefix| && i <= |pattern|
      invariant forall j :: 0 <= j < i ==> pattern[j] != DoubleStar && Fnmatch(pattern[j], pathPrefix[j])
      decreases |pathPrefix| - i
    {
      if i == |pathPrefix| {
        return true;
      }
      if i == |pattern| {
        return false;
      }
      if pattern[i] == DoubleStar {
        return true;
      }
      if !Fnmatch(pattern[i], pathPrefix[i]) {
        return false;
      }
      i := i + 1;
    }
  }

  /** The case table of PartialMatch, one step of its loop at a time. */
  lemma PrefixCompatibleCases(pattern: Path, prefix: Path)
    ensures prefix == [] ==> PrefixCompatible(pattern, prefix)
    ensures prefix != [] && pattern == [] ==> !PrefixCompatible(pattern, prefix)
    ensures pattern != [] && pattern[0] == DoubleStar ==> PrefixCompatible(pattern, prefix)
    ensures prefix != [] && pattern != [] && pattern[0] != DoubleStar ==>
      PrefixCompatible(pattern, prefix)
      == (Fnmatch(pattern[0], prefix[0]) && PrefixCompatible(pattern[1..], prefix[1..]))
  {
    if prefix != [] && pattern != [] && pattern[0] != DoubleStar {
      var k := FirstDoubleStar(pattern);
      assert FirstDoubleStar(pattern[1..]) == k - 1;
      if PrefixCompatible(pattern, prefix) {
        forall i | 0 <= i < |prefix| - 1 && i < k - 1
          ensures Fnmatch(pattern[1..][i], prefix[1..][i])
        {
          assert Fnmatch(pattern[i + 1], prefix[i + 1]);
        }
      }
      if Fnmatch(pattern[0], prefix[0]) && PrefixCompatible(pattern[1..], prefix[1..]) {
        forall i | 0 <= i < |prefix| && i < k ensures Fnmatch(pattern[i], prefix[i]) {
          if i > 0 { assert pattern[1..][i - 1] == pattern[i] && prefix[1..][i - 1] == prefix[i]; }
        }
      }
    }
  }

  /** Whether `path` matches `pattern` exactly, backtracking over how much each "**" absorbs. */
  function FullMatch(pattern: Path, path: Path): bool
    decreases |pattern| + |path|
  {
    if pattern == [] && path == [] then true
    else if pattern == [] then false
    else if pattern[0] == DoubleStar then
      FullMatch(pattern[1..], path) || (path != [] && FullMatch(pattern, path[1..]))
    else if path == [] then false
    else if !Fnmatch(pattern[0], path[0]) then false
    else FullMatch(pattern[1..], path[1..])
  }

  /** A run of components without "**" is matched pairwise against the same number of components. */
  lemma {:induction false} FullMatchLiteralPrefix(a: Path, q: Path, path: Path)
    requires DoubleStar !in a
    ensures FullMatch(a + q, path)
      <==> |a| <= |path| && PairwiseUpTo(a, path, |a|) && FullMatch(q, path[|a|..])
    decreases |a|
  {
    if a == [] {
      assert a + q == q && path[0..] == path;
    } else {
      var p := a + q;
      assert p[0] == a[0] && p[1..] == a[1..] + q;
      assert DoubleStar !in a[1..] by { assert forall c :: c in a[1..] ==> c in a; }
      assert a[0] in a;
      if path != [] {
        FullMatchLiteralPrefix(a[1..], q, path[1..]);
        if |a| <= |path| { assert path[1..][|a| - 1..] == path[|a|..]; }
        if |a| <= |path| && PairwiseUpTo(a, path, |a|) {
          assert PairwiseUpTo(a[1..], path[1..], |a| - 1) by {
            forall i | 0 <= i < |a| - 1 ensures Fnmatch(a[1..][i], path[1..][i]) {
              assert Fnmatch(a[i + 1], path[i + 1]);
            }
          }
        }
        if |a| <= |path| && Fnmatch(a[0], path[0]) && PairwiseUpTo(a[1..], path[1..], |a| - 1) {
          assert PairwiseUpTo(a, path, |a|) by {
            forall i | 0 <= i < |a| ensures Fnmatch(a[i], path[i]) {
              if i > 0 { assert a[1..][i - 1] == a[i] && path[1..][i - 1] == path[i]; }
            }
          }
        }
      }
    }
  }

  /** No "**": a full match means the same number of components, each pair matching. */
  lemma FullMatchWithoutDoubleStar(pattern: Path, path: Path)
    requires DoubleStar !in pattern
    ensures FullMatch(pattern, path)
      <==> |pattern| == |path| && PairwiseUpTo(pattern, path, |pattern|)
  {
    FullMatchLiteralPrefix(pattern, [], path);
    assert pattern + [] == pattern;
    if |pattern| <= |path| {
      assert FullMatch([], path[|pattern|..]) <==> |pattern| == |path| by {
        assert |path[|pattern|..]| == |path| - |pattern|;
      }
    }
  }

  /** A leading "**" absorbs some number of whole components, from none to all. */
  lemma {:induction false} FullMatchLeadingDoubleStar(rest: Path, path: Path)
    ensures FullMatch([DoubleStar] + rest, path)
      <==> exists k :: 0 <= k <= |path| && FullMatch(rest, path[k..])
    decreases |path|
  {
    var p := [DoubleStar] + rest;
    assert p[0] == DoubleStar && p[1..] == rest;
    if path == [] {
      assert path[0..] == path;
    } else {
      FullMatchLeadingDoubleStar(rest, path[1..]);
      if FullMatch(p, path) {
        if FullMatch(rest, path) {
          assert path[0..] == path;
        } else {
          var k :| 0 <= k <= |path[1..]| && FullMatch(rest, path[1..][k..]);
          assert path[1..][k..] == path[k + 1..];
        }
      }
      if exists k :: 0 <= k <= |path| && FullMatch(rest, path[k..]) {
        var k :| 0 <= k <= |path| && FullMatch(rest, path[k..]);
        if k == 0 {
          assert path[0..] == path;
        } else {
          assert path[1..][k - 1..] == path[k..];
        }
      }
    }
  }

  /**
    A pattern with a "**" after a run `a` without one: `a` matches the leading components
    pairwise, and `rest` matches what is left once the "**" has absorbed some components.
  */
  lemma FullMatchAtDoubleStar(a: Path, rest: Path, path: Path)
    requires DoubleStar !in a
    ensures FullMatch(a + [DoubleStar] + rest, path)
      <==> |a| <= |path| && PairwiseUpTo(a, path, |a|)
           && exists k :: |a| <= k <= |path| && FullMatch(rest, path[k..])
  {
    assert a + [DoubleStar] + rest == a + ([DoubleStar] + rest);
    FullMatchLiteralPrefix(a, [DoubleStar] + rest, path);
    if |a| <= |path| {
      var tail := path[|a|..];
      FullMatchLeadingDoubleStar(rest, tail);
      if exists j :: 0 <= j <= |tail| && FullMatch(rest, tail[j..]) {
        var j :| 0 <= j <= |tail| && FullMatch(rest, tail[j..]);
        assert tail[j..] == path[|a| + j..];
      }
      if exists k :: |a| <= k <= |path| && FullMatch(rest, path[k..]) {
        var k :| |a| <= k <= |path| && FullMatch(rest, path[k..]);
        assert tail[k - |a|..] == path[k..];
      }
    }
  }

  /**
    The intended use, one "**" between two runs without one: the path is at least as
    long as both runs, `a` matches its first components and `b` its last ones.
  */
  lemma FullMatchSingleDoubleStar(a: Path, b: Path, path: Path)
    requires DoubleStar !in a && DoubleStar !in b
    ensures FullMatch(a + [DoubleStar] + b, path)
      <==> |a| + |b| <= |path| && PairwiseUpTo(a, path, |a|)
           && PairwiseUpTo(b, path[|path| - |b|..], |b|)
  {
    FullMatchAtDoubleStar(a, b, path);
    if FullMatch(a + [DoubleStar] + b, path) {
      assert exists k :: |a| <= k <= |path| && FullMatch(b, path[k..]);
      var k :| |a| <= k <= |path| && FullMatch(b, path[k..]);
      var t := path[k..];
      FullMatchWithoutDoubleStar(b, t);
      assert |t| == |b| && PairwiseUpTo(b, t, |b|);
      assert k == |path| - |b|;
    }
    if |a| + |b| <= |path| && PairwiseUpTo(a, path, |a|) && PairwiseUpTo(b, path[|path| - |b|..], |b|) {
      FullMatchWithoutDoubleStar(b, path[|path| - |b|..]);
    }
  }

  /**
    Pruning soundness: every prefix of a fully matching path, the path itself included,
    passes the PartialMatch test, so a subtree whose root fails it holds no match.
  */
  lemma FullMatchImpliesPrefixCompatible(pattern: Path, path: Path, n: nat)
    requires FullMatch(pattern, path) && n <= |path|
    ensures PrefixCompatible(pattern, path[..n])
  {
    var k := FirstDoubleStar(pattern);
    var a, q := pattern[..k], pattern[k..];
    assert DoubleStar !in a by {
      forall i | 0 <= i < |a| ensures a[i] != DoubleStar { assert a[i] == pattern[i]; }
    }
    assert a + q == pattern;
    FullMatchLiteralPrefix(a, q, path);
    if k == |pattern| {
      assert q == [];
    }
    forall i | 0 <= i < n && i < k ensures Fnmatch(pattern[i], path[..n][i]) {
      assert a[i] == pattern[i];
    }
  }

  /** Matches and misses of the `**` patterns in the Glob test of libarttools/tools_test.cc. */
  lemma DoubleStarTestCases()
    ensures FullMatch(["/", "abc", "**", "789.txt"], ["/", "abc", "789.txt"])
    ensures FullMatch(["/", "abc", "**", "789.txt"], ["/", "abc", "aaa", "bbb", "789.txt"])
    ensures !FullMatch(["/", "abc", "**", "789.txt"], ["/", "789.txt"])
  {
    PlainPatternMatchesOnlyItself("/", "/");
    PlainPatternMatchesOnlyItself("abc", "abc");
    PlainPatternMatchesOnlyItself("789.txt", "789.txt");
    PlainPatternMatchesOnlyItself("abc", "789.txt");
    var tail: Path := ["**", "789.txt"];
    assert FullMatch(["789.txt"], ["789.txt"]);
    assert FullMatch(tail, ["789.txt"]);
    assert FullMatch(tail, ["bbb", "789.txt"]);
    assert FullMatch(tail, ["aaa", "bbb", "789.txt"]);
    assert !FullMatch(["/", "abc", "**", "789.txt"], ["/", "789.txt"]);
  }

  /** A lone "**" matches every sequence of components, the empty one included. */
  lemma {:induction false} DoubleStarMatchesAnything(path: Path)
    ensures FullMatch([DoubleStar], path)
    decreases |path|
  {
    assert [DoubleStar][1..] == [];
    if path != [] {
      DoubleStarMatchesAnything(path[1..]);
    }
  }

  /** A trailing "**" matches the rest of the path whatever it is. */
  lemma TrailingDoubleStarTestCase()
    ensures FullMatch(["pqr", "**"], ["pqr", "ccc", "ddd", "123.txt"])
  {
    var tail: Path := ["pqr", "ccc", "ddd", "123.txt"];
    PlainPatternMatchesOnlyItself("pqr", "pqr");
    DoubleStarMatchesAnything(tail[1..]);
    FullMatchLiteralPrefix(["pqr"], [DoubleStar], tail);
    assert ["pqr"] + [DoubleStar] == ["pqr", "**"];
    assert PairwiseUpTo(["pqr"], tail, 1);
  }

  /** A "**" in the middle absorbs several components before a later "**" takes the rest. */
  lemma TwoDoubleStarsTestCase()
    ensures FullMatch(["/", "abc", "**", "pqr", "**"], ["/", "abc", "aaa", "bbb", "pqr", "ccc", "ddd", "123.txt"])
  {
    var path: Path := ["/", "abc", "aaa", "bbb", "pqr", "ccc", "ddd", "123.txt"];
    var a: Path := ["/", "abc"];
    var rest: Path := ["pqr", "**"];
    PlainPatternMatchesOnlyItself("/", "/");
    PlainPatternMatchesOnlyItself("abc", "abc");
    assert a + [DoubleStar] + rest == ["/", "abc", "**", "pqr", "**"];
    FullMatchAtDoubleStar(a, rest, path);
    assert PairwiseUpTo(a, path, |a|);
    TrailingDoubleStarTestCase();
    assert path[4..] == ["pqr", "ccc", "ddd", "123.txt"];
  }

  /** `*.txt` matches a name ending in ".txt" and not one ending in ".pdf". */
  lemma StarSuffixTestCases()
    ensures Fnmatch("*.txt", "123.txt")
    ensures !Fnmatch("*.txt", "456.pdf")
  {
    assert "*.txt" == ['*'] + ".txt";
    FnmatchLeadingStar(".txt", "123.txt");
    PlainPatternMatchesOnlyItself(".txt", "123.txt"[3..]);
    assert "123.txt"[3..] == ".txt";
    FnmatchLeadingStar(".txt", "456.pdf");
    forall k | 0 <= k <= 7 ensures !Fnmatch(".txt", "456.pdf"[k..]) {
      PlainPatternMatchesOnlyItself(".txt", "456.pdf"[k..]);
      if k == 3 {
        assert "456.pdf"[k..][1] == 'p';
      }
    }
  }

  /** `*` never spans a component boundary: a file one directory deeper is not matched. */
  lemma SingleStarStaysInComponent()
    ensures !FullMatch(["/", "abc", "def", "ghi", "*.txt"], ["/", "abc", "def", "ghi", "jkl", "456.txt"])
  {
    var last: Path := ["*.txt"];
    assert !FullMatch(last, ["jkl", "456.txt"]);
  }
}
