/**
  Paths as sequences of components, and the string-level prefix relation
  `PathStartsWith` of libarttools/tools.cc.

  `ParsePath` is a simplified `std::filesystem::path` iteration: an absolute
  path yields the root component "/" followed by its non-empty segments.
*/
module Paths {

  /** A path or a pattern, component by component: "/abc/x" is ["/", "abc", "x"]. */
  type Path = seq<string>

  /** The segments of `s` split at '/', where `cur` is the segment read so far. */
  function SplitFrom(s: string, cur: string): seq<string>
    decreases |s|
  {
    if s == [] then (if cur == [] then [] else [cur])
    else if s[0] == '/' then (if cur == [] then [] else [cur]) + SplitFrom(s[1..], [])
    else SplitFrom(s[1..], cur + [s[0]])
  }

  function ParsePath(s: string): Path {
    if |s| > 0 && s[0] == '/' then ["/"] + SplitFrom(s[1..], []) else SplitFrom(s, [])
  }

  /** Reading a stretch without separators only extends the current segment. */
  lemma {:induction false} SplitFromNoSlash(t: string, rest: string, cur: string)
    requires '/' !in t
    ensures SplitFrom(t + rest, cur) == SplitFrom(rest, cur + t)
    decreases |t|
  {
    if t != [] {
      assert (t + rest)[0] == t[0] && (t + rest)[1..] == t[1..] + rest;
      assert '/' !in t[1..] by { assert forall c :: c in t[1..] ==> c in t; }
      SplitFromNoSlash(t[1..], rest, cur + [t[0]]);
      assert cur + [t[0]] + t[1..] == cur + t;
    } else {
      assert t + rest == rest && cur + t == cur;
    }
  }

  predicate IsAbsolute(s: string) {
    |s| > 0 && s[0] == '/'
  }

  /** `ConsumeSuffix(&s, "/")`: drops one trailing '/'. */
  function ConsumeSlashSuffix(s: string): string {
    if |s| > 0 && s[|s| - 1] == '/' then s[..|s| - 1] else s
  }

  /** Whether `b` is a prefix of `a` that ends at a component boundary: at the end of `a` or before a '/'. */
  predicate BoundaryPrefix(b: string, a: string) {
    |b| <= |a| && a[..|b|] == b && (|a| == |b| || a[|b|] == '/')
  }

  /** Whether `prefix` (one trailing '/' ignored) is a prefix of `path` ending at a component boundary. */
  function PathStartsWith(path: string, prefix: string): bool
    requires IsAbsolute(path) && IsAbsolute(prefix)
  {
    BoundaryPrefix(ConsumeSlashSuffix(prefix), path)
  }

  /** The expectations of the PathStartsWith test. */
  lemma PathStartsWithTable()
    ensures PathStartsWith("/a/b", "/a")
    ensures PathStartsWith("/a/b", "/a/")
    ensures !PathStartsWith("/a/c", "/a/b")
    ensures !PathStartsWith("/ab", "/a")
    ensures PathStartsWith("/a", "/a")
    ensures PathStartsWith("/a/", "/a")
    ensures PathStartsWith("/a", "/a/")
    ensures PathStartsWith("/a", "/")
    ensures PathStartsWith("/", "/")
    ensures !PathStartsWith("/", "/a")
  {
    assert "/a/b"[..2] == "/a";
    assert "/a/c"[..4] != "/a/b" by { assert "/a/c"[3] != "/a/b"[3]; }
    assert "/a/"[..2] == "/a";
  }

  /** Every absolute path starts with itself, and with the root. */
  lemma PathStartsWithReflexiveAndRoot(path: string)
    requires IsAbsolute(path)
    ensures PathStartsWith(path, path)
    ensures PathStartsWith(path, "/")
  {
    var p := ConsumeSlashSuffix(path);
    assert path[..|p|] == p;
  }

  /** A segment of a normalized path: non-empty and without separators. */
  predicate IsSegment(s: string) {
    s != [] && '/' !in s
  }

  predicate AllSegments(segs: seq<string>) {
    forall i :: 0 <= i < |segs| ==> IsSegment(segs[i])
  }

  /** "/" + segs[0] + "/" + segs[1] + ... */
  function Joined(segs: seq<string>): string {
    if segs == [] then [] else "/" + segs[0] + Joined(segs[1..])
  }

  /** The normalized absolute path whose segments are `segs`. */
  function Render(segs: seq<string>): (s: string)
    ensures IsAbsolute(s)
  {
    if segs == [] then "/" else Joined(segs)
  }

  predicate IsPrefix<T(==)>(b: seq<T>, a: seq<T>) {
    |b| <= |a| && a[..|b|] == b
  }

  lemma {:induction false} JoinedLastIsNotSlash(segs: seq<string>)
    requires segs != [] && AllSegments(segs)
    ensures |Joined(segs)| > 0 && Joined(segs)[|Joined(segs)| - 1] != '/'
    decreases |segs|
  {
    var s0 := segs[0];
    assert Joined(segs) == "/" + s0 + Joined(segs[1..]);
    if |segs| == 1 {
      assert Joined(segs[1..]) == [];
      assert Joined(segs)[|Joined(segs)| - 1] == s0[|s0| - 1];
      assert s0[|s0| - 1] in s0;
    } else {
      assert AllSegments(segs[1..]) by { assert forall i :: 0 <= i < |segs| - 1 ==> segs[1..][i] == segs[i + 1]; }
      JoinedLastIsNotSlash(segs[1..]);
    }
  }

  /** A shared leading stretch can be dropped from a boundary-prefix test when what follows it starts a new component. */
  lemma BoundaryPrefixShared(x: string, a: string, b: string)
    requires a == [] || a[0] == '/'
    ensures BoundaryPrefix(x + b, x + a) <==> BoundaryPrefix(b, a)
  {
    var A, B := x + a, x + b;
    if BoundaryPrefix(b, a) {
      assert A[..|B|] == x + a[..|b|];
    }
    if BoundaryPrefix(B, A) {
      assert a[..|b|] == b by {
        forall i | 0 <= i < |b| ensures a[i] == b[i] {
          assert A[|x| + i] == B[|x| + i];
        }
      }
      assert |A| != |B| ==> a[|b|] == A[|B|];
    }
  }

  /** A component prefix of a longer sequence: the first components agree and the rest is a prefix. */
  lemma IsPrefixCons(a: seq<string>, b: seq<string>)
    requires a != [] && b != []
    ensures IsPrefix(b, a) <==> a[0] == b[0] && IsPrefix(b[1..], a[1..])
  {
    if IsPrefix(b[1..], a[1..]) && a[0] == b[0] {
      assert a[..|b|] == [a[0]] + a[1..][..|b| - 1];
      assert b == [b[0]] + b[1..];
    }
    if IsPrefix(b, a) {
      assert a[..|b|][0] == a[0];
      assert a[1..][..|b| - 1] == a[..|b|][1..];
    }
  }

  /** Joined segments start with a separator. */
  lemma JoinedStartsWithSlash(segs: seq<string>)
    ensures Joined(segs) == [] || Joined(segs)[0] == '/'
  {
  }

  /** Joined paths whose first segments differ are not boundary prefixes of each other. */
  lemma DifferentFirstSegments(a: seq<string>, b: seq<string>)
    requires a != [] && b != [] && IsSegment(a[0]) && IsSegment(b[0]) && a[0] != b[0]
    ensures !BoundaryPrefix(Joined(b), Joined(a))
  {
    var a0, b0 := a[0], b[0];
    var A, B := Joined(a), Joined(b);
    var A', B' := Joined(a[1..]), Joined(b[1..]);
    assert A == ['/'] + a0 + A' && B == ['/'] + b0 + B';
    JoinedStartsWithSlash(a[1..]);
    JoinedStartsWithSlash(b[1..]);
    // The strings part before the shorter first segment ends.
    if |a0| == |b0| {
      var i :| 0 <= i < |a0| && a0[i] != b0[i];
      assert A[1 + i] == a0[i] && B[1 + i] == b0[i];
      if |B| <= |A| { assert A[..|B|][1 + i] != B[1 + i]; }
    } else if |a0| < |b0| {
      var k := 1 + |a0|;
      assert B[k] == b0[|a0|] && b0[|a0|] in b0;
      if A' != [] {
        assert A[k] == A'[0];
        if |B| <= |A| { assert A[..|B|][k] != B[k]; }
      }
    } else {
      var k := 1 + |b0|;
      assert A[k] == a0[|b0|] && a0[|b0|] in a0;
      if B' != [] {
        assert B[k] == B'[0];
        if |B| <= |A| { assert A[..|B|][k] != B[k]; }
      }
    }
  }

  /** On joined segments, the boundary-prefix test is exactly the component-prefix relation. */
  lemma {:induction false} JoinedBoundaryPrefix(a: seq<string>, b: seq<string>)
    requires AllSegments(a) && AllSegments(b)
    ensures BoundaryPrefix(Joined(b), Joined(a)) <==> IsPrefix(b, a)
    decreases |b|
  {
    if b == [] {
      JoinedStartsWithSlash(a);
    } else if a == [] {
      assert |Joined(b)| > 0;
    } else {
      assert IsSegment(a[0]) && IsSegment(b[0]);
      IsPrefixCons(a, b);
      if a[0] == b[0] {
        var x := ['/'] + a[0];
        assert AllSegments(a[1..]) by { assert forall i :: 0 <= i < |a| - 1 ==> a[1..][i] == a[i + 1]; }
        assert AllSegments(b[1..]) by { assert forall i :: 0 <= i < |b| - 1 ==> b[1..][i] == b[i + 1]; }
        JoinedBoundaryPrefix(a[1..], b[1..]);
        JoinedStartsWithSlash(a[1..]);
        assert Joined(a) == x + Joined(a[1..]) && Joined(b) == x + Joined(b[1..]);
        BoundaryPrefixShared(x, Joined(a[1..]), Joined(b[1..]));
      } else {
        DifferentFirstSegments(a, b);
      }
    }
  }

  /**
    On normalized absolute paths, PathStartsWith is the component-prefix relation:
    "/a/b" starts with "/a" but "/ab" does not.
  */
  lemma PathStartsWithComponents(a: seq<string>, b: seq<string>)
    requires AllSegments(a) && AllSegments(b)
    ensures PathStartsWith(Render(a), Render(b)) <==> IsPrefix(b, a)
  {
    if b == [] {
      assert ConsumeSlashSuffix(Render(b)) == [];
    } else {
      JoinedLastIsNotSlash(b);
      assert ConsumeSlashSuffix(Render(b)) == Joined(b);
      if a == [] {
        assert |Joined(b)| > 1 by { assert Joined(b) == "/" + b[0] + Joined(b[1..]); }
      } else {
        JoinedBoundaryPrefix(a, b);
      }
    }
  }

  lemma {:induction false} SplitJoined(segs: seq<string>, cur: string)
    requires AllSegments(segs) && '/' !in cur
    ensures SplitFrom(Joined(segs), cur) == (if cur == [] then [] else [cur]) + segs
    decreases |segs|
  {
    if segs == [] {
      assert Joined(segs) == [];
    } else {
      var s0 := segs[0];
      var J := Joined(segs);
      assert J == "/" + s0 + Joined(segs[1..]);
      assert J[0] == '/' && J[1..] == s0 + Joined(segs[1..]);
      assert AllSegments(segs[1..]) by { assert forall i :: 0 <= i < |segs| - 1 ==> segs[1..][i] == segs[i + 1]; }
      SplitFromNoSlash(s0, Joined(segs[1..]), []);
      assert [] + s0 == s0;
      SplitJoined(segs[1..], s0);
      assert segs == [s0] + segs[1..];
    }
  }

  /** Parsing a rendered path gives back its components. */
  lemma ParsePathRender(segs: seq<string>)
    requires AllSegments(segs)
    ensures ParsePath(Render(segs)) == ["/"] + segs
  {
    if segs == [] {
      assert Render(segs)[1..] == [];
    } else {
      var J := Joined(segs);
      assert J == "/" + segs[0] + Joined(segs[1..]);
      SplitJoined(segs, []);
      assert SplitFrom(J, []) == SplitFrom(J[1..], []);
    }
  }
}
