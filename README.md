# libarttools glob and mount-table model

A Dafny model of the file-discovery and mount-query core of ART's
`libarttools/tools.cc`:

- **Segment globs.** `fnmatch(pattern, name, 0)` compares one path component with one
  pattern component. It is modelled as `SegmentGlob.Fnmatch`: literal characters, `?`,
  `*`, bracket expressions with `!`/`^` negation and ranges, and backslash quoting.
- **Path patterns.** A pattern is a sequence of components, and the component `**`
  stands for any number of whole path components. `PartialMatch` is the pruning test
  ("can a path under this directory still match?"). It is a method with the source's
  loop, proved equal to a closed-form predicate, `PrefixCompatible`. `FullMatch` is the
  source's backtracking recursion over the remaining components.
- **The walk.** `MatchGlobRecursive` walks an in-memory directory tree with an explicit
  stack of open directories, in the role of `recursive_directory_iterator`. It skips
  every entry that no pattern can partially match, and collects the regular files that
  some pattern fully matches. Its contract says the pruned walk returns exactly what the
  unpruned walk would select, in the same order. `Glob` parses the strings and walks.
- **Escaping.** `EscapeGlob` brackets `*`, `?` and `[`. It is proved to turn every path
  string without a backslash into a pattern that matches that path and nothing else.
- **Mounts.** `PathStartsWith` is the component-boundary prefix test on absolute path
  strings. On normalized paths it is proved to be exactly the component-prefix relation.
  `GetProcMountsMatches` filters a mount table, and its two wrappers keep the ancestor
  or descendant mount points of a path.

Modules: `Wrappers` (Option, Result), `SegmentGlob`, `Paths`, `PathMatch`, `Escaping`,
`TreeWalk`, `Mounts`.

## Model

| member | source | states |
|---|---|---|
| SegmentGlob.FnmatchLeadingStar | libarttools/tools.cc:96 | a leading `*` in a segment glob matches iff the rest of the glob matches some suffix of the name |
| SegmentGlob.QuestionMarkMatchesOneCharacter | libarttools/tools.cc:69 | `?` matches exactly the one-character names |
| SegmentGlob.PlainPatternMatchesOnlyItself | libarttools/tools.cc:96 | a segment glob with no `*`, `?`, `[` or backslash matches exactly the name spelled the same |
| Paths.PathStartsWithTable | libarttools/tools_test.cc:144-158 | each expectation of the PathStartsWith test holds |
| Paths.PathStartsWithReflexiveAndRoot | libarttools/tools.cc:157-163 | every absolute path starts with itself and with "/" |
| Paths.JoinedBoundaryPrefix | libarttools/tools.cc:161-162 | on joined segments, the string prefix ending at a '/' or at the end holds iff the segments are a prefix |
| Paths.PathStartsWithComponents | libarttools/tools.cc:157-163 | on normalized absolute paths, PathStartsWith holds iff the prefix's components are a prefix of the path's components ("/ab" does not start with "/a") |
| Paths.ParsePathRender | libarttools/tools.cc:146 | parsing a normalized path string yields "/" followed by its segments |
| PathMatch.PartialMatch | libarttools/tools.cc:55-73 | the loop's answer is PrefixCompatible: components before the first `**` match pairwise as far as the prefix goes, and the prefix outruns the pattern only when a `**` is there |
| PathMatch.PrefixCompatibleCases | libarttools/tools.cc:60-71 | PrefixCompatible follows the four exits of the source loop, one step at a time |
| PathMatch.FullMatchLiteralPrefix | libarttools/tools.cc:93-99 | components without `**` are matched one to one, then the rest of the pattern matches the rest of the path |
| PathMatch.FullMatchWithoutDoubleStar | libarttools/tools.cc:80-99 | without `**`, a full match means equal lengths and every pair of components matching |
| PathMatch.FullMatchLeadingDoubleStar | libarttools/tools.cc:86-92 | a leading `**` matches iff the rest of the pattern matches the path minus some number (zero included) of leading components |
| PathMatch.DoubleStarMatchesAnything | libarttools/tools.cc:86-92 | a lone `**` matches every component sequence, the empty one included |
| PathMatch.FullMatchAtDoubleStar | libarttools/tools.cc:75-100 | with a `**` after a run without one, the run matches the first components pairwise and the rest matches some suffix after them |
| PathMatch.FullMatchSingleDoubleStar | libarttools/tools.cc:103-105 | `a/**/b` (a and b without `**`) matches iff the path is long enough, a matches its first components and b its last ones |
| PathMatch.FullMatchImpliesPrefixCompatible | libarttools/tools.cc:116-120 | every prefix of a fully matching path passes the pruning test, so pruning never drops a match |
| PathMatch.DoubleStarTestCases | libarttools/tools_test.cc:91-102 | `/abc/**/789.txt` matches `/abc/789.txt` and `/abc/aaa/bbb/789.txt` but not `/789.txt` |
| PathMatch.TrailingDoubleStarTestCase | libarttools/tools_test.cc:93 | a trailing `**` takes any remaining components |
| PathMatch.TwoDoubleStarsTestCase | libarttools/tools_test.cc:93-109 | `/abc/**/pqr/**` matches `/abc/aaa/bbb/pqr/ccc/ddd/123.txt` |
| PathMatch.StarSuffixTestCases | libarttools/tools_test.cc:90 | `*.txt` matches "123.txt" and not "456.pdf" |
| PathMatch.SingleStarStaysInComponent | libarttools/tools_test.cc:65 | `/abc/def/ghi/*.txt` does not match a file one directory deeper |
| Escaping.EscapeWithConcat | libarttools/tools.cc:153-155 | the rewrite works on each character separately: escaping distributes over concatenation |
| Escaping.EscapeGlobRewrite | libarttools/tools.cc:154 | `*`, `?`, `[` become `[*]`, `[?]`, `[[]`, and every other character is kept in place |
| Escaping.BracketedMetaMatches | libarttools/tools.cc:154 | a one-member class `[c]` matches exactly the character c |
| Escaping.EscapedSegmentMatchesOnlyItself | libarttools/tools.cc:153-155 | an escaped component without a backslash matches exactly that component |
| Escaping.EscapeWithIsNotDoubleStar | libarttools/tools_test.cc:134 | an escaped component is never the `**` sentinel, even when the literal is "**" |
| Escaping.ParsePathEscape | libarttools/tools_test.cc:131 | escaping a path string escapes each of its components and keeps the separators (for any rewrite that leaves '/' alone, as both escapes do) |
| Escaping.EscapedComponentsMatchOnlyThemselves | libarttools/tools.cc:103-105 | when each escaped component matches exactly itself, the escaped component sequence fully matches exactly the original path |
| Escaping.EscapedPathMatchesOnlyItself | libarttools/tools_test.cc:129-141 | for a path string without backslashes, the escaped pattern fully matches that path and no other |
| Escaping.EscapeGlobMissesBackslash | libarttools/tools.cc:154 | as written, the escape of "a\b" matches "ab" and not "a\b" (see Findings) |
| Escaping.EscapeGlobQuotingBackslashMatchesOnlyItself | libarttools/tools.cc:153-155 | with backslashes quoted as well, every string escapes to a segment glob matching exactly itself |
| Escaping.QuotedPathMatchesOnlyItself | libarttools/tools.cc:153-155 | with backslashes quoted as well, every path string escapes to a pattern fully matching exactly that path, with no exception |
| TreeWalk.SelectedMembership | libarttools/tools.cc:122-125 | a path is collected iff some visited entry at that path is a regular file (symlinks followed) and some pattern fully matches it |
| TreeWalk.VisitsStrictlyUnder | libarttools/tools.cc:111-114 | every entry the iterator yields lies strictly under the directory listed |
| TreeWalk.SelectedStrictlyUnderRoot | libarttools/tools.cc:111-114 | every collected path lies strictly under the root directory |
| TreeWalk.PrunedSubtreeSelectsNothing | libarttools/tools.cc:116-120 | when no pattern partially matches an entry, neither it nor anything under it would be collected |
| TreeWalk.AnyPartialMatch | libarttools/tools.cc:116 | true iff some pattern partially matches the path |
| TreeWalk.AnyFullMatch | libarttools/tools.cc:123 | true iff some pattern fully matches the path |
| TreeWalk.PrunedStep | libarttools/tools.cc:116-120 | skipping an entry and its subtree leaves what remains to be collected unchanged |
| TreeWalk.UnprunedStep | libarttools/tools.cc:121-133 | visiting an entry collects it or not, then continues into its listing if it is entered, then past it |
| TreeWalk.MatchGlobRecursive | libarttools/tools.cc:107-138 | the pruned walk returns exactly the regular files that the unpruned walk would select, in visiting order |
| TreeWalk.Glob | libarttools/tools.cc:142-151 | Glob returns what MatchGlobRecursive selects for the parsed patterns under the parsed root |
| TreeWalk.EscapedGlobSelectsOnlyItself | libarttools/tools_test.cc:129-132 | globbing with one escaped path without backslashes collects that path, and only when it is a visited regular file |
| TreeWalk.QuotedGlobSelectsOnlyItself | libarttools/tools_test.cc:129-132 | with the corrected escape, the same holds for every path string |
| Mounts.MountsWhereMembership | libarttools/tools.cc:172-183 | a record is kept iff it is in the table, is not swap, has an absolute mount point and satisfies the predicate |
| Mounts.MountsWhereSubsequence | libarttools/tools.cc:172-183 | the kept records are a subsequence of the table, in table order |
| Mounts.GetProcMountsMatches | libarttools/tools.cc:165-185 | an unreadable table gives the error "Failed to read fstab from /proc/mounts", and a readable one gives the filtered records |
| Mounts.GetProcMountsAncestorsOfPath | libarttools/tools.cc:187-190 | fails only on an unreadable table; otherwise returns the filter's result with every copy of each kept record, in table order: a record is in it iff it is non-swap, has an absolute mount point and the path starts with that mount point |
| Mounts.GetProcMountsDescendantsOfPath | libarttools/tools.cc:192-195 | fails only on an unreadable table; otherwise returns the filter's result with every copy of each kept record, in table order: a record is in it iff it is non-swap, has an absolute mount point and that mount point starts with the path |
| Mounts.AncestorsAndDescendantsByComponents | libarttools/tools.cc:187-195 | on normalized paths, ancestor mounts are the component prefixes of the path, and descendant mounts the component extensions of it |
| Mounts.AncestorsScenario | libarttools/tools.cc:187-190 | with mounts "/", "/data" and a swap area, the ancestors of "/data/app/foo/bar" are "/" and "/data" |

## Left out

- The directory tree is an input value (`TreeWalk.Entry`). The model does no real I/O:
  - no `stat`, no SELinux, and no logging;
  - an entry whose type cannot be queried is a `Special` entry;
  - a directory whose listing is denied is an unreadable `Directory`, which is yielded but not entered (`skip_permission_denied`);
  - a root directory that cannot be opened is an empty listing.
- Iteration errors other than permission denial are not modelled. In the source (tools.cc:113) such an error ends the whole walk, because of `!ec` in the loop condition; it does not skip only the subtree. The model has only readable and unreadable directories.
- TreeWalk.MatchGlobRecursive: results are component sequences (`Path`), not the joined path strings that `std::filesystem::path` renders.
- Paths.ParsePath simplifies `std::filesystem::path` iteration in three ways:
  - empty segments are dropped, so a trailing '/' gives no empty last component;
  - "//" is not treated as a root name;
  - relative paths are not resolved.
- SegmentGlob.Fnmatch leaves out several parts of the real matcher:
  - backslash quoting inside brackets;
  - POSIX character classes (`[:alpha:]`) and collation;
  - locale and multibyte handling.
  - A trailing lone backslash matches itself, as in bionic's fnmatch; other C libraries may differ.
- `DCHECK(!double_asterisk_visited)` (tools.cc:87) aborts debug builds on two consecutive `**` components. The model computes the release-build result.
- `ReadFstabFromProcMounts` is not part of this model. Its outcome is an input: `None` for a failed read, `Some(records)` otherwise.
- Records carry only the device, the mount point and the fs type.
- The `CHECK` in PathStartsWith (tools.cc:158) is a precondition requiring both strings to be absolute.
- The callers in veridex (`hidden_api_finder.cc`) are not part of this model.
- Escaping.EscapedPathMatchesOnlyItself requires a string without backslashes, because the source's escape is not faithful for backslashes (see Findings).

## Findings

| source | as written | input that shows it | evidently intended | confidence | as-written member | corrected member |
|---|---|---|---|---|---|---|
| libarttools/tools.cc:154 | EscapeGlob brackets only `*`, `?` and `[`; fnmatch with flags 0 reads a backslash as quoting the next character | "a\b": the escaped pattern is "a\b", which matches "ab" and not "a\b" | every string escapes to a glob matching exactly itself (also quote `\` as `\\`) | medium, not executed | Escaping.EscapeGlobMissesBackslash | Escaping.EscapeGlobQuotingBackslashMatchesOnlyItself |
