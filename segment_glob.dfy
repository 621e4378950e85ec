/**
  A model of `fnmatch(pattern, string, 0)`, the single-segment glob matcher that
  libarttools/tools.cc calls on one path component at a time.

  Supported syntax: literal characters, `?` (one character), `*` (any run of
  characters), bracket expressions `[...]` with an optional leading `!` or `^`
  for negation, single members and ranges `a-z` (a `]` right after the opening
  bracket or the negation mark is a member; an unclosed `[` is an ordinary
  character), and a backslash outside brackets that quotes the next character
  (a trailing backslash stands for itself, as in bionic's fnmatch).
  With flags 0 neither `/` nor a leading `.` is special.
*/
module SegmentGlob {
  import opened Wrappers

  /** Index of the first class member of the bracket expression that `p` opens. */
  function ClassStart(p: string): (k: nat)
    requires |p| > 0 && p[0] == '['
    ensures k == 1 || k == 2
  {
    if |p| > 1 && (p[1] == '!' || p[1] == '^') then 2 else 1
  }

  /** The first `]` at or after `from`. */
  function FindClose(p: string, from: nat): (r: Option<nat>)
    decreases |p| - from
    ensures r.Some? ==> from <= r.value < |p| && p[r.value] == ']'
    ensures r.Some? ==> forall k :: from <= k < r.value ==> p[k] != ']'
    ensures r.None? ==> forall k :: from <= k < |p| ==> p[k] != ']'
  {
    if from >= |p| then None
    else if p[from] == ']' then Some(from)
    else FindClose(p, from + 1)
  }

  /** The `]` closing the bracket expression that `p` opens; the first member is never a closer. */
  function ClassClose(p: string): Option<nat>
    requires |p| > 0 && p[0] == '['
  {
    FindClose(p, ClassStart(p) + 1)
  }

  /** Whether `c` is a member of the class whose members are spelled by `body`. */
  function InClass(body: string, c: char): bool
    decreases |body|
  {
    if body == [] then false
    else if |body| >= 3 && body[1] == '-' then (body[0] <= c <= body[2]) || InClass(body[3..], c)
    else body[0] == c || InClass(body[1..], c)
  }

  /** Whether the whole segment `s` matches the glob `p`. */
  function Fnmatch(p: string, s: string): bool
    decreases |p| + |s|
  {
    if p == [] then s == []
    else if p[0] == '*' then Fnmatch(p[1..], s) || (s != [] && Fnmatch(p, s[1..]))
    else if p[0] == '?' then s != [] && Fnmatch(p[1..], s[1..])
    else if p[0] == '[' && ClassClose(p).Some? then
      var close := ClassClose(p).value;
      var negated := ClassStart(p) == 2;
      s != [] && InClass(p[ClassStart(p)..close], s[0]) != negated && Fnmatch(p[close + 1..], s[1..])
    else if p[0] == '\\' && |p| >= 2 then s != [] && s[0] == p[1] && Fnmatch(p[2..], s[1..])
    else s != [] && s[0] == p[0] && Fnmatch(p[1..], s[1..])
  }

  /** A leading `*` absorbs any prefix of the segment: the rest of the pattern matches some suffix. */
  lemma {:induction false} FnmatchLeadingStar(q: string, s: string)
    ensures Fnmatch(['*'] + q, s) <==> exists k :: 0 <= k <= |s| && Fnmatch(q, s[k..])
    decreases |s|
  {
    var p := ['*'] + q;
    assert p[1..] == q;
    if s == [] {
      assert s[0..] == s;
    } else {
      FnmatchLeadingStar(q, s[1..]);
      if Fnmatch(p, s) {
        if !Fnmatch(q, s) {
          var k :| 0 <= k <= |s[1..]| && Fnmatch(q, s[1..][k..]);
          assert s[1..][k..] == s[k + 1..];
        } else {
          assert s[0..] == s;
        }
      }
      if exists k :: 0 <= k <= |s| && Fnmatch(q, s[k..]) {
        var k :| 0 <= k <= |s| && Fnmatch(q, s[k..]);
        if k == 0 {
          assert s[0..] == s;
        } else {
          assert s[1..][k - 1..] == s[k..];
        }
      }
    }
  }

  /** `?` matches exactly the one-character segments. */
  lemma QuestionMarkMatchesOneCharacter(s: string)
    ensures Fnmatch("?", s) <==> |s| == 1
  {
    assert "?"[1..] == [];
  }

  /** A segment pattern without `*`, `?`, `[` or a backslash matches exactly itself. */
  lemma {:induction false} PlainPatternMatchesOnlyItself(p: string, s: string)
    requires forall i :: 0 <= i < |p| ==> p[i] !in "*?[\\"
    ensures Fnmatch(p, s) <==> s == p
    decreases |p|
  {
    if p != [] {
      assert p[0] !in "*?[\\";
      PlainPatternMatchesOnlyItself(p[1..], if s == [] then [] else s[1..]);
      if s != [] && s[0] == p[0] && s[1..] == p[1..] {
        assert s == [s[0]] + s[1..] && p == [p[0]] + p[1..];
      }
    }
  }
}
