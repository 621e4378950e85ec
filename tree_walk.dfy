/**
  `MatchGlobRecursive` and `Glob` of libarttools/tools.cc over an in-memory,
  finite directory tree. The source drives a `recursive_directory_iterator`;
  the model keeps the iterator's stack of open directories explicitly. Each
  frame is a directory path with the entries not yet visited; pruning an entry
  is not pushing a frame for it.
*/
module TreeWalk {
  import opened Paths
  import opened PathMatch
  import opened Escaping

  datatype Entry =
    | RegularFile(name: string)
      /** A directory whose listing is denied is visited but not entered (skip_permission_denied). */
    | Directory(name: string, readable: bool, children: seq<Entry>)
      /** Never followed into; `is_regular_file` follows it to its target. */
    | Symlink(name: string, toRegularFile: bool)
      /** A device, socket or pipe, or an entry whose type cannot be queried. */
    | Special(name: string)

  /** What `is_regular_file` reports for the entry. */
  predicate IsRegularFile(e: Entry) {
    e.RegularFile? || (e.Symlink? && e.toRegularFile)
  }

  /** Whether the iterator enters the entry after visiting it. */
  predicate Enters(e: Entry) {
    e.Directory? && e.readable
  }

  /** One step of the iterator: an entry and its full path. */
  datatype Visit = Visit(path: Path, entry: Entry)

  /** Every entry the unpruned iterator yields below `dir` whose listing is `es`, in its order. */
  function VisitsIn(dir: Path, es: seq<Entry>): seq<Visit>
    decreases es
  {
    if es == [] then []
    else
      var path := dir + [es[0].name];
      [Visit(path, es[0])]
      + (if Enters(es[0]) then VisitsIn(path, es[0].children) else [])
      + VisitsIn(dir, es[1..])
  }

  /** Some pattern fully matches the path. */
  predicate MatchesAny(patterns: seq<Path>, path: Path) {
    exists i :: 0 <= i < |patterns| && FullMatch(patterns[i], path)
  }

  /** Whether a visit is collected: a regular file that some pattern fully matches. */
  predicate IsSelected(patterns: seq<Path>, v: Visit) {
    IsRegularFile(v.entry) && MatchesAny(patterns, v.path)
  }

  /** The paths of the collected visits, in visiting order. */
  function Selected(patterns: seq<Path>, vs: seq<Visit>): seq<Path> {
    if vs == [] then []
    else (if IsSelected(patterns, vs[0]) then [vs[0].path] else []) + Selected(patterns, vs[1..])
  }

  lemma {:induction false} SelectedConcat(patterns: seq<Path>, a: seq<Visit>, b: seq<Visit>)
    ensures Selected(patterns, a + b) == Selected(patterns, a) + Selected(patterns, b)
    decreases |a|
  {
    if a == [] {
      assert a + b == b;
    } else {
      assert (a + b)[0] == a[0] && (a + b)[1..] == a[1..] + b;
      SelectedConcat(patterns, a[1..], b);
    }
  }

  /** The result holds exactly the paths of the regular files that some pattern fully matches. */
  lemma {:induction false} SelectedMembership(patterns: seq<Path>, vs: seq<Visit>, q: Path)
    ensures q in Selected(patterns, vs)
      <==> MatchesAny(patterns, q) && exists v :: v in vs && v.path == q && IsRegularFile(v.entry)
    decreases |vs|
  {
    if vs != [] {
      SelectedMembership(patterns, vs[1..], q);
      assert forall v :: v in vs <==> v == vs[0] || v in vs[1..];
    }
  }

  lemma {:induction false} NothingSelected(patterns: seq<Path>, vs: seq<Visit>)
    requires forall v :: v in vs ==> !MatchesAny(patterns, v.path)
    ensures Selected(patterns, vs) == []
    decreases |vs|
  {
    if vs != [] {
      assert vs[0] in vs;
      assert forall v :: v in vs[1..] ==> v in vs;
      NothingSelected(patterns, vs[1..]);
    }
  }

  /** Every visit lies strictly under the directory being listed. */
  lemma {:induction false} VisitsStrictlyUnder(dir: Path, es: seq<Entry>)
    ensures forall v :: v in VisitsIn(dir, es) ==> |v.path| > |dir| && v.path[..|dir|] == dir
    decreases es
  {
    if es != [] {
      var path := dir + [es[0].name];
      VisitsStrictlyUnder(dir, es[1..]);
      if Enters(es[0]) {
        VisitsStrictlyUnder(path, es[0].children);
        forall v | v in VisitsIn(path, es[0].children) ensures v.path[..|dir|] == dir {
          assert v.path[..|path|][..|dir|] == v.path[..|dir|];
        }
      }
      assert path[..|dir|] == dir;
    }
  }

  /** The visits of one entry and of everything under it. */
  function VisitsUnder(dir: Path, e: Entry): seq<Visit> {
    var path := dir + [e.name];
    [Visit(path, e)] + (if Enters(e) then VisitsIn(path, e.children) else [])
  }

  /**
    Pruning is sound: when no pattern is PrefixCompatible with an entry's path, neither
    the entry nor anything under it is collected.
  */
  lemma PrunedSubtreeSelectsNothing(patterns: seq<Path>, dir: Path, e: Entry)
    requires forall i :: 0 <= i < |patterns| ==> !PrefixCompatible(patterns[i], dir + [e.name])
    ensures Selected(patterns, VisitsUnder(dir, e)) == []
  {
    var path := dir + [e.name];
    var vs := VisitsUnder(dir, e);
    forall v | v in vs ensures !MatchesAny(patterns, v.path) {
      assert |v.path| >= |path| && v.path[..|path|] == path by {
        if v != Visit(path, e) {
          VisitsStrictlyUnder(path, e.children);
        }
      }
      forall i | 0 <= i < |patterns| ensures !FullMatch(patterns[i], v.path) {
        if FullMatch(patterns[i], v.path) {
          FullMatchImpliesPrefixCompatible(patterns[i], v.path, |path|);
        }
      }
    }
    NothingSelected(patterns, vs);
  }

  /** An open directory of the iterator: its path and the entries not yet visited. */
  datatype Frame = Frame(dir: Path, rest: seq<Entry>)

  /** The visits the unpruned iterator has still to make from this stack, top frame first. */
  function Pending(stack: seq<Frame>): seq<Visit> {
    if stack == [] then [] else VisitsIn(stack[0].dir, stack[0].rest) + Pending(stack[1..])
  }

  /** The number of entries in a listing and in all directories below it. */
  function SizeOfAll(es: seq<Entry>): nat
    decreases es
  {
    if es == [] then 0 else 1 + (if es[0].Directory? then SizeOfAll(es[0].children) else 0) + SizeOfAll(es[1..])
  }

  function StackSize(stack: seq<Frame>): nat {
    if stack == [] then 0 else SizeOfAll(stack[0].rest) + StackSize(stack[1..])
  }

  /** Dropping an exhausted frame changes neither what is pending nor its size. */
  lemma PopExhausted(stack: seq<Frame>)
    requires stack != [] && stack[0].rest == []
    ensures Pending(stack) == Pending(stack[1..]) && StackSize(stack) == StackSize(stack[1..])
  {
    assert Pending(stack) == [] + Pending(stack[1..]);
  }

  /** Taking the next entry of the top frame: its visits come first, then the rest. */
  lemma TakeNext(stack: seq<Frame>)
    requires stack != [] && stack[0].rest != []
    ensures var top := stack[0];
      Pending(stack) == VisitsUnder(top.dir, top.rest[0]) + Pending([Frame(top.dir, top.rest[1..])] + stack[1..])
  {
    var top := stack[0];
    Push(Frame(top.dir, top.rest[1..]), stack[1..]);
    FirstVisits(top.dir, top.rest);
    PendingTop(stack);
    var under := VisitsUnder(top.dir, top.rest[0]);
    var others := VisitsIn(top.dir, top.rest[1..]);
    var below := Pending(stack[1..]);
    assert (under + others) + below == under + (others + below);
  }

  /** Taking the next entry removes it, and its subtree when it is a directory, from the stack's size. */
  lemma TakeNextSize(stack: seq<Frame>)
    requires stack != [] && stack[0].rest != []
    ensures var top := stack[0];
      var e := top.rest[0];
      StackSize(stack)
        == 1 + (if e.Directory? then SizeOfAll(e.children) else 0) + StackSize([Frame(top.dir, top.rest[1..])] + stack[1..])
  {
    var top := stack[0];
    Push(Frame(top.dir, top.rest[1..]), stack[1..]);
    FirstVisits(top.dir, top.rest);
    PendingTop(stack);
  }

  /** The stack's pending visits and size: the top frame's, then the rest's. */
  lemma PendingTop(stack: seq<Frame>)
    requires stack != []
    ensures Pending(stack) == VisitsIn(stack[0].dir, stack[0].rest) + Pending(stack[1..])
    ensures StackSize(stack) == SizeOfAll(stack[0].rest) + StackSize(stack[1..])
  {
  }

  /** A listing's visits: those of its first entry, then those of the others. */
  lemma FirstVisits(dir: Path, es: seq<Entry>)
    requires es != []
    ensures VisitsIn(dir, es) == VisitsUnder(dir, es[0]) + VisitsIn(dir, es[1..])
    ensures SizeOfAll(es) == 1 + (if es[0].Directory? then SizeOfAll(es[0].children) else 0) + SizeOfAll(es[1..])
  {
  }

  /** Entering a directory pushes a frame for its listing on top of the stack. */
  lemma Push(frame: Frame, stack: seq<Frame>)
    ensures Pending([frame] + stack) == VisitsIn(frame.dir, frame.rest) + Pending(stack)
    ensures StackSize([frame] + stack) == SizeOfAll(frame.rest) + StackSize(stack)
  {
    assert ([frame] + stack)[0] == frame && ([frame] + stack)[1..] == stack;
  }

  /** What is collected from one entry's visits: the entry itself, then its subtree. */
  lemma SelectedUnder(patterns: seq<Path>, dir: Path, e: Entry, later: seq<Visit>)
    ensures var path := dir + [e.name];
      Selected(patterns, VisitsUnder(dir, e) + later)
      == (if IsSelected(patterns, Visit(path, e)) then [path] else [])
         + Selected(patterns, if Enters(e) then VisitsIn(path, e.children) else [])
         + Selected(patterns, later)
  {
    var path := dir + [e.name];
    var sub := if Enters(e) then VisitsIn(path, e.children) else [];
    SelectedConcat(patterns, VisitsUnder(dir, e), later);
    SelectedConcat(patterns, [Visit(path, e)], sub);
    assert Selected(patterns, [Visit(path, e)])
        == (if IsSelected(patterns, Visit(path, e)) then [path] else []) + Selected(patterns, []);
  }

  /** Whether some pattern fully matches `path`: the `any_of` test. */
  method AnyFullMatch(patterns: seq<Path>, path: Path) returns (r: bool)
    ensures r == MatchesAny(patterns, path)
  {
    r := false;
    var i := 0;
    while i < |patterns|
      invariant 0 <= i <= |patterns|
      invariant forall j :: 0 <= j < i ==> !FullMatch(patterns[j], path)
    {
      if FullMatch(patterns[i], path) {
        return true;
      }
      i := i + 1;
    }
  }

  /** One unpruned step: the entry is collected or not, then the walk goes on into its listing, if it is entered, and past it. */
  lemma UnprunedStep(patterns: seq<Path>, stack: seq<Frame>)
    requires stack != [] && stack[0].rest != []
    ensures var top := stack[0];
      var e := top.rest[0];
      var path := top.dir + [e.name];
      var remaining := [Frame(top.dir, top.rest[1..])] + stack[1..];
      var next := if Enters(e) then [Frame(path, e.children)] + remaining else remaining;
      Selected(patterns, Pending(stack))
        == (if IsSelected(patterns, Visit(path, e)) then [path] else []) + Selected(patterns, Pending(next))
  {
    var top := stack[0];
    var e := top.rest[0];
    var path := top.dir + [e.name];
    var remaining := [Frame(top.dir, top.rest[1..])] + stack[1..];
    TakeNext(stack);
    SelectedUnder(patterns, top.dir, e, Pending(remaining));
    if Enters(e) {
      Push(Frame(path, e.children), remaining);
      SelectedConcat(patterns, VisitsIn(path, e.children), Pending(remaining));
    }
  }

  /** One unpruned step keeps the walk's invariant and shrinks what is left to visit. */
  lemma AdvanceUnpruned(patterns: seq<Path>, stack: seq<Frame>, results: seq<Path>, goal: seq<Path>)
    requires stack != [] && stack[0].rest != []
    requires results + Selected(patterns, Pending(stack)) == goal
    ensures var top := stack[0];
      var e := top.rest[0];
      var path := top.dir + [e.name];
      var remaining := [Frame(top.dir, top.rest[1..])] + stack[1..];
      var next := if Enters(e) then [Frame(path, e.children)] + remaining else remaining;
      && (if IsSelected(patterns, Visit(path, e)) then results + [path] else results)
         + Selected(patterns, Pending(next)) == goal
      && StackSize(next) < StackSize(stack)
  {
    var top := stack[0];
    var e := top.rest[0];
    var path := top.dir + [e.name];
    var remaining := [Frame(top.dir, top.rest[1..])] + stack[1..];
    var next := if Enters(e) then [Frame(path, e.children)] + remaining else remaining;
    var here := if IsSelected(patterns, Visit(path, e)) then [path] else [];
    var later := Selected(patterns, Pending(next));
    UnprunedStep(patterns, stack);
    UnprunedStepSize(stack);
    assert results + (here + later) == (results + here) + later;
  }

  /** What is left to visit shrinks by the entry taken, even when its listing is pushed. */
  lemma UnprunedStepSize(stack: seq<Frame>)
    requires stack != [] && stack[0].rest != []
    ensures var top := stack[0];
      var e := top.rest[0];
      var remaining := [Frame(top.dir, top.rest[1..])] + stack[1..];
      var next := if Enters(e) then [Frame(top.dir + [e.name], e.children)] + remaining else remaining;
      StackSize(next) < StackSize(stack)
  {
    var top := stack[0];
    var e := top.rest[0];
    var remaining := [Frame(top.dir, top.rest[1..])] + stack[1..];
    TakeNextSize(stack);
    if Enters(e) {
      Push(Frame(top.dir + [e.name], e.children), remaining);
    }
  }

  /** One pruned step: the entry and its subtree are skipped without changing what is selected. */
  lemma PrunedStep(patterns: seq<Path>, stack: seq<Frame>)
    requires stack != [] && stack[0].rest != []
    requires forall i :: 0 <= i < |patterns| ==> !PrefixCompatible(patterns[i], stack[0].dir + [stack[0].rest[0].name])
    ensures Selected(patterns, Pending(stack))
      == Selected(patterns, Pending([Frame(stack[0].dir, stack[0].rest[1..])] + stack[1..]))
  {
    var top := stack[0];
    var remaining := [Frame(top.dir, top.rest[1..])] + stack[1..];
    TakeNext(stack);
    SelectedConcat(patterns, VisitsUnder(top.dir, top.rest[0]), Pending(remaining));
    PrunedSubtreeSelectsNothing(patterns, top.dir, top.rest[0]);
  }

  /** One pruned step keeps the walk's invariant and shrinks what is left to visit. */
  lemma AdvancePruned(patterns: seq<Path>, stack: seq<Frame>, results: seq<Path>, goal: seq<Path>)
    requires stack != [] && stack[0].rest != []
    requires results + Selected(patterns, Pending(stack)) == goal
    requires forall i :: 0 <= i < |patterns| ==> !PrefixCompatible(patterns[i], stack[0].dir + [stack[0].rest[0].name])
    ensures var remaining := [Frame(stack[0].dir, stack[0].rest[1..])] + stack[1..];
      && results + Selected(patterns, Pending(remaining)) == goal
      && StackSize(remaining) < StackSize(stack)
  {
    PrunedStep(patterns, stack);
    TakeNextSize(stack);
  }

  /** Whether some pattern is PrefixCompatible with `path`: the `none_of` test, negated. */
  method AnyPartialMatch(patterns: seq<Path>, path: Path) returns (r: bool)
    ensures r <==> exists i :: 0 <= i < |patterns| && PrefixCompatible(patterns[i], path)
  {
    r := false;
    var i := 0;
    while i < |patterns|
      invariant 0 <= i <= |patterns|
      invariant forall j :: 0 <= j < i ==> !PrefixCompatible(patterns[j], path)
    {
      var m := PartialMatch(patterns[i], path);
      if m {
        return true;
      }
      i := i + 1;
    }
  }

  /**
    The pruned walk below `rootDir`, whose listing is `listing`, returns what the unpruned
    walk would select: every regular file that some pattern fully matches, in visiting order.
  */
  method MatchGlobRecursive(patterns: seq<Path>, rootDir: Path, listing: seq<Entry>)
    returns (results: seq<Path>)
    ensures results == Selected(patterns, VisitsIn(rootDir, listing))
  {
    results := [];
    var stack := [Frame(rootDir, listing)];
    ghost var goal := Selected(patterns, VisitsIn(rootDir, listing));
    Push(Frame(rootDir, listing), []);
    assert VisitsIn(rootDir, listing) + [] == VisitsIn(rootDir, listing);
    while stack != []
      invariant results + Selected(patterns, Pending(stack)) == goal
      decreases StackSize(stack), |stack|
    {
      var top := stack[0];
      if top.rest == [] {
        PopExhausted(stack);
        stack := stack[1..];
        continue;
      }
      var entry := top.rest[0];
      var path := top.dir + [entry.name];
      var remaining := [Frame(top.dir, top.rest[1..])] + stack[1..];
      var anyPartial := AnyPartialMatch(patterns, path);
      if !anyPartial {
        // No pattern can match anything under this entry: skip its whole subtree.
        AdvancePruned(patterns, stack, results, goal);
        stack := remaining;
        continue;
      }
      AdvanceUnpruned(patterns, stack, results, goal);
      var full := AnyFullMatch(patterns, path);
      if IsRegularFile(entry) && full {
        results := results + [path];
      }
      if Enters(entry) {
        stack := [Frame(path, entry.children)] + remaining;
      } else {
        stack := remaining;
      }
    }
  }

  /** `Glob`: parses the pattern strings and the root directory, then walks. */
  method Glob(patterns: seq<string>, rootDir: string, listing: seq<Entry>) returns (results: seq<Path>)
    ensures results == Selected(
      seq(|patterns|, i requires 0 <= i < |patterns| => ParsePath(patterns[i])),
      VisitsIn(ParsePath(rootDir), listing))
  {
    var parsed: seq<Path> := [];
    for i := 0 to |patterns|
      invariant |parsed| == i
      invariant forall j :: 0 <= j < i ==> parsed[j] == ParsePath(patterns[j])
    {
      parsed := parsed + [ParsePath(patterns[i])];
    }
    assert parsed == seq(|patterns|, i requires 0 <= i < |patterns| => ParsePath(patterns[i]));
    results := MatchGlobRecursive(parsed, ParsePath(rootDir), listing);
  }

  /**
    The EscapeGlob test: globbing with the escaped form of a path string (without
    backslashes) collects that path and nothing else.
  */
  lemma EscapedGlobSelectsOnlyItself(s: string, rootDir: Path, listing: seq<Entry>, q: Path)
    requires '\\' !in s
    ensures q in Selected([ParsePath(EscapeGlob(s))], VisitsIn(rootDir, listing))
      <==> q == ParsePath(s) && exists v :: v in VisitsIn(rootDir, listing) && v.path == q && IsRegularFile(v.entry)
  {
    var patterns := [ParsePath(EscapeGlob(s))];
    SelectedMembership(patterns, VisitsIn(rootDir, listing), q);
    EscapedPathMatchesOnlyItself(s, q);
    assert MatchesAny(patterns, q) <==> FullMatch(patterns[0], q);
  }

  /**
    With the corrected escape, globbing with the escaped form of any path string collects
    that path and nothing else.
  */
  lemma QuotedGlobSelectsOnlyItself(s: string, rootDir: Path, listing: seq<Entry>, q: Path)
    ensures q in Selected([ParsePath(EscapeGlobQuotingBackslash(s))], VisitsIn(rootDir, listing))
      <==> q == ParsePath(s) && exists v :: v in VisitsIn(rootDir, listing) && v.path == q && IsRegularFile(v.entry)
  {
    var patterns := [ParsePath(EscapeGlobQuotingBackslash(s))];
    SelectedMembership(patterns, VisitsIn(rootDir, listing), q);
    QuotedPathMatchesOnlyItself(s, q);
    assert MatchesAny(patterns, q) <==> FullMatch(patterns[0], q);
  }

  /** Whatever Glob collects lies strictly under the root directory. */
  lemma SelectedStrictlyUnderRoot(patterns: seq<Path>, rootDir: Path, listing: seq<Entry>, q: Path)
    requires q in Selected(patterns, VisitsIn(rootDir, listing))
    ensures |q| > |rootDir| && q[..|rootDir|] == rootDir
  {
    SelectedMembership(patterns, VisitsIn(rootDir, listing), q);
    VisitsStrictlyUnder(rootDir, listing);
  }
}
