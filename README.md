# Changed-project detection and dependency ordering, verified

This project models the core of a GitHub Action for multi-project repositories.
Given the project configuration (project id, descriptor `path`, glob `patterns`,
`dependencies`) and the list of files a pull request changed, the action

1. detects the **modified projects**: those with a pattern that matches a changed file;
2. **orders** them so that every project comes after each of its modified
   dependencies, by a depth-first post-order traversal with `visited` / `visiting`
   sets, and fails when the modified projects hold a dependency cycle;
3. computes **`has_nuspec`**: whether some modified project's path ends in `.nuspec`.

The logic exists twice, in `src/detect_changes.py` (Python, `fnmatch` globs) and,
nearly copied, in `run()` of `src/index.ts` (TypeScript, globs rewritten into
regular expressions). The Dafny modules follow that structure:

- `Fnmatch` (`fnmatch.dfy`): Python's `fnmatch.fnmatch` on a POSIX host: `*`, `?`,
  `[...]` classes with `!` and ranges, whole-string match. As in CPython, the pattern is
  first translated into a sequence of expression elements (`Translate`, after
  `fnmatch.translate`), which is then matched against the whole name (`Matches`).
- `TsGlob` (`ts_glob.dfy`): the anchored expression `matchesPattern` builds, `*` as
  `.*`, `?` and the unescaped `.` as `.`, where `.` does not match a line terminator.
- `Projects` (`projects.dfy`): the typed configuration, the outputs, `HasNuspec`.
- `Detection` (`detection.dfy`): the modified set `Detected(projects, files, matches)`,
  parameterised on the test of one file against one pattern; the Python loop
  `DetectChanges`; the test that line 55 of `detect_changes.py` computes as written
  (`AsWrittenMatch`) and the intended one (`IntendedMatch`).
- `Ordering` (`ordering.dfy`): the class `Orderer`, with the three pieces of
  traversal state as fields and `visit` as the recursive method `Visit`, whose loop over
  the dependencies is the mutually recursive `VisitDependencies`, and `OrderProjects`,
  which seeds every modified project. A cycle gives `Cycle(id)` instead of
  `sys.exit` or `throw`. `OrderProjects` is proved to return a dependencies-first
  permutation of the modified set exactly when the modified projects hold no cycle.
  On a cycle it names a project that lies on one.
- `Pipeline`, `PyAction`, `TsAction`: detect, then order, then compute `has_nuspec`,
  and publish either all three outputs or only a failure message. `TsAction` also holds
  the TypeScript detection loop with its `break`.

Python's `main()` and TypeScript's `run()` also read the environment, call the GitHub
API and write the outputs. None of that is modelled. The changed files and the typed
configuration are parameters.

`matches_pattern`'s docstring (src/detect_changes.py:48) and the TypeScript copy
(src/index.ts:66) match whole patterns against a file; line 55 of `detect_changes.py`
does not (see Findings). Both files loop over projects on the outside and stop testing
a project at its first match: Python's `any(...)` short-circuits, and TypeScript uses
`break`. The model states the set each loop returns.

## Model

| member | source | states |
|---|---|---|
| `Fnmatch.FnMatch` | src/detect_changes.py:49 | defines `fnmatch.fnmatch(file, pattern)`: the elements `Translate` builds from the pattern match the whole path; it has no contract of its own, and the lemmas below state what it admits |
| `Fnmatch.StarMatchesAll` | src/detect_changes.py:49 | `*` matches every path, the empty one and ones with `/` included |
| `Fnmatch.LiteralMatchesExactly` | src/detect_changes.py:49 | a pattern with no `*`, `?` or `[` matches exactly the identical path (whole-string match) |
| `Fnmatch.PrefixStar` | src/detect_changes.py:49 | `u*`, where `u` has no wildcard, matches exactly the paths that start with `u`, at any depth |
| `Fnmatch.SingleCharPattern` | src/detect_changes.py:49 | a one-character glob: `*` matches everything, `?` any one-character path, any other character (a lone `[` included) only itself |
| `Fnmatch.ClassWithoutBracket` | src/detect_changes.py:49 | a class with no `]` between its brackets (other than `[!]`) closes at the final `]`: a one-character path matches exactly when the class admits its character |
| `Fnmatch.ClassMatchesOneChar` | src/detect_changes.py:49 | `[seq]`, with no `]` and no `-` in `seq`, admits a one-character path exactly when the character is in `seq`, and `[!seq]` exactly when it is not |
| `Fnmatch.RangeClass` | src/detect_changes.py:49 | `[x-y]` admits exactly the characters from `x` to `y` and `[!x-y]` exactly the others; a descending range admits nothing, so `[!z-a]` admits every character |
| `Fnmatch.EmptyRangeThenBang` | src/detect_changes.py:49 | descending ranges are dropped before the test for `!`, so a class that starts with one and then `!` is negated: `[z-a!x]` admits every character but `x`, and `[z-a!]` every character |
| `Detection.Touches` | src/detect_changes.py:55 | defines the condition of line 55: some changed file and some configured pattern pass the given test; it has no contract of its own |
| `Detection.MatchesPattern` | src/detect_changes.py:47-49 | defines `matches_pattern`: the path fnmatches at least one pattern of the list; it has no contract of its own |
| `Detection.AsWrittenMatch` | src/detect_changes.py:55 | defines the test line 55 applies: `matches_pattern` given one pattern string, whose characters become the glob list; its properties are `AsWrittenMatchIff` and the lemmas after it |
| `Detection.IntendedMatch` | src/detect_changes.py:55 | defines the test line 55 was meant to apply: the whole pattern fnmatches the path; its properties are `IntendedIsMatchesPattern` and the lemmas that use it |
| `Detection.Detected` | src/detect_changes.py:51-57 | the modified set is a subset of the configured ids; it is empty when no file changed; a project with no patterns is never in it |
| `Detection.DetectChanges` | src/detect_changes.py:51-57 | the loop over the configuration returns exactly the projects that some changed file and some pattern pass under the given test |
| `Detection.SameFilesSameResult` | src/detect_changes.py:55 | permuting or repeating the changed files does not change the modified set |
| `Detection.AsWrittenMatchIff` | src/detect_changes.py:47-55 | as written, a pattern admits a file exactly when it holds a `*`, or the file is one character long and that character or a `?` occurs in the pattern |
| `Detection.AsWrittenStarDetectsAll` | src/detect_changes.py:55 | as written, a project with a pattern containing `*` is modified whenever any file changed |
| `Detection.AsWrittenStarMisreports` | src/detect_changes.py:55 | as written, a change to `docs/readme.md` marks the project of pattern `lib/*` modified; with the intended test it does not |
| `Detection.AsWrittenLiteralMisreports` | src/detect_changes.py:55 | as written, changing the very file named by a wildcard-free pattern that is not one character long (such as `lib/lib.csproj`) does not mark that pattern's project; with the intended test it does |
| `Detection.LiteralPatternsDetected` | src/detect_changes.py:55 | with the intended test, a project whose patterns have no wildcard is modified exactly when a changed file equals one of its patterns |
| `Detection.PrefixPatternDetected` | src/detect_changes.py:55 | with the intended test, a project whose one pattern is `u*` is modified exactly when some changed file starts with `u` |
| `Detection.IntendedIsMatchesPattern` | src/detect_changes.py:47-49 | the intended test is `matches_pattern(file, patterns)` applied to the whole pattern list |
| `TsGlob.RegexGlob` | src/index.ts:43-48 | defines the anchored test of one pattern's expression against the path; it has no contract of its own, and the lemmas below state what it admits |
| `TsGlob.MatchesPattern` | src/index.ts:40-50 | defines `matchesPattern`: some pattern of the list passes `RegexGlob`; it has no contract of its own |
| `TsGlob.NoPatternsNoMatch` | src/index.ts:40-41 | `matchesPattern(f, [])` is false |
| `TsGlob.StarMatchesRun` | src/index.ts:43-48 | `*` matches exactly the runs, possibly empty and possibly containing `/`, that hold no line terminator |
| `TsGlob.AnyCharMatchesOne` | src/index.ts:44-47 | `?` and `.` each match exactly one character that is not a line terminator |
| `TsGlob.LiteralMatchesExactly` | src/index.ts:43-48 | a supported pattern with no `*`, `?` or `.` matches only the identical path: the expression is anchored at both ends |
| `TsGlob.DotMatchesAnyChar` | src/index.ts:43-47 | since `.` is not escaped, for supported literal `u` and `v`, `u.v` matches exactly the paths made of `u`, one character that is not a line terminator, and `v` |
| `TsGlob.PrefixStar` | src/index.ts:43-48 | `u*` for a supported literal `u` matches exactly the paths that start with `u` and whose rest holds no line terminator |
| `TsGlob.AgreesWithFnmatch` | src/index.ts:40-50 | on patterns with no `.` or `[` and paths with no line terminator, the TypeScript match and Python's `fnmatch` agree |
| `TsAction.DetectModified` | src/index.ts:63-71 | the nested loop with `break` returns exactly the projects one of whose patterns matches some changed file; the `break` does not change the set |
| `Projects.HasNuspec` | src/detect_changes.py:110 | true exactly when some modified project's path is some stem followed by `.nuspec` (the same test as src/index.ts:101-103) |
| `Ordering.Orderer.constructor` | src/detect_changes.py:61-63 | traversal starts with empty `ordered`, `visited` and `visiting` |
| `Ordering.Orderer.Visit` | src/detect_changes.py:65-78 | keeps `visited` and `visiting` disjoint and `ordered` duplicate-free, holding exactly the visited ids, dependencies first; `visited` only grows; on a normal return `id` is visited, `visiting` is restored and `ordered` has only been extended, with `id` last when it was not visited before; a project already visited returns at once and changes nothing; a project still in `visiting` is reported as the cycle, and it lies on a dependency cycle; every project that becomes visited is reachable from `id` along modified dependencies (the `visit` closure in src/index.ts:78-94 is the same) |
| `Ordering.Orderer.VisitDependencies` | src/detect_changes.py:73-75 | the loop over the dependencies of a project in `visiting` enters only the modified ones; every project it makes visited is reachable from that project; when it ends without a cycle, every modified dependency is visited, the project itself is not, and `visiting` is unchanged; a cycle it meets lies on one (the loop of src/index.ts:86-90 is the same) |
| `Ordering.AppendFinished` | src/detect_changes.py:76-78 | appending a project after all its modified dependencies are finished keeps the output duplicate-free and dependencies-first |
| `Ordering.CycleFromPath` | src/detect_changes.py:69-70 | a project met again on the active path lies on a cycle |
| `Ordering.OrderProjects` | src/detect_changes.py:59-83 | seeding every modified project, in any order, gives either a permutation of the modified set in which each project follows its modified dependencies, or a cycle error naming a modified project on a cycle; success happens exactly when the modified projects hold no cycle (the seeding loop of src/index.ts:96-98 is the same) |
| `Ordering.ChainDescends` | src/detect_changes.py:72-78 | in a dependencies-first list, a walk along followed dependencies moves strictly towards the front |
| `Ordering.OrderedImpliesAcyclic` | src/detect_changes.py:72-78 | if a dependencies-first list holds every modified project, the modified projects hold no cycle |
| `Ordering.DistinctLength` | src/detect_changes.py:78-83 | a duplicate-free list of the members of a set is as long as the set |
| `Ordering.ThreeInChainHasOneOrder` | src/detect_changes.py:72-78 | with `C` depending on `B` and `B` on `A`, all three modified, the only acceptable order is `A, B, C` |
| `Ordering.ThreeInChainWithoutMiddle` | src/detect_changes.py:73-74 | with only `A` and `C` modified, `C`'s unmodified dependency `B` imposes nothing: both `[A, C]` and `[C, A]` are acceptable |
| `Ordering.SelfDependencyIsCycle` | src/detect_changes.py:69-72 | a modified project listed among its own dependencies is on a cycle, so ordering fails |
| `Pipeline.OrderAndPublish` | src/detect_changes.py:105-116 | on success publishes the modified set, a dependencies-first permutation of it and `has_nuspec`; fails with the cycle message naming a project on a cycle, and publishes nothing, exactly when the modified projects hold a cycle |
| `PyAction.Run` | src/detect_changes.py:101-116 | `main()`'s core meets the same report for the projects detected under the given test; the message is `Error: Circular dependency detected involving <id>` |
| `TsAction.Run` | src/index.ts:62-117 | `run()`'s core meets the same report for the projects detected by the TypeScript matcher; a cycle ends in `setFailed("Circular dependency detected involving <id>")` with no outputs set |

## Left out

- Environment and token handling (`get_github_token`, the `INPUT_PROJECTS` lookup, `core.getInput`): process-environment glue.
- Fetching the changed files (`get_changed_files`, `getChangedFiles`): file and network I/O. The changed files are a parameter.
- JSON parsing of the configuration and JSON serialisation of the outputs: library calls. The configuration is a typed `map<string, Project>`, so a configuration with missing fields is not modelled.
- Writing the outputs (`GITHUB_OUTPUT`, `core.setOutput`), the debug prints and `core.debug`: output only. A run's result is a value, either the three outputs or a failure message.
- TsAction.Run: requires every pattern to avoid `^ $ \ + | ( ) [ ] { }`. The general regular-expression engine is not modelled. Neither are the two behaviours those characters bring: the `RegExp` constructor throwing on a malformed expression (which `setFailed` would report), and a lone `]` or `}` being literal.
- TsGlob: JavaScript matches strings as UTF-16 code units and Dafny as Unicode scalar values. Paths with characters outside the Basic Multilingual Plane are not modelled faithfully.
- Fnmatch: the Windows case normalisation of `fnmatch` and its pattern cache are not modelled (POSIX semantics). Classes follow `translate` of Python 3.9 and later: it splits the class text at range hyphens, drops every descending range, and only then tests for `!`, an empty class and a lone `!`. Older versions gave descending ranges to `re`, which rejects them; that is not modelled.
- Fnmatch.Translate: `translate` also merges runs of `*` and wraps each star and the literals after it in an atomic group, for speed. Neither changes which names match, so the model keeps one `AnyRun` element per `*` and no groups.
- Fnmatch.ClassMatchesOneChar: stated for member lists without `-`. Classes with ranges are covered by `RangeClass` and `EmptyRangeThenBang`. No lemma gives a closed-form reading of an arbitrary class text that mixes members and ranges. `FnMatch` itself models every class.
- Iteration order over sets and dictionaries: the loops over the configuration and the seeding loop pick their next element arbitrarily (`:|`). Any order the runtime uses is covered.
- Ordering.OrderProjects: requires the modified ids to be configured. An unknown id would raise in the source, but detection only returns configured ids.
- Python's recursion limit and the interplay between `SystemExit` and `except Exception` in `main()`.

## Findings

| source | as written | input that shows it | evidently intended | confidence | as-written member | corrected member |
|---|---|---|---|---|---|---|
| src/detect_changes.py:55 | `matches_pattern(file, pattern)` passes one pattern string as the pattern list. `matches_pattern` then iterates over the string's characters and uses each as a one-character glob. | `{"lib": patterns ["lib/*"]}` with changed files `["docs/readme.md"]` reports `lib` modified. `{"lib": patterns ["lib/lib.csproj"]}` with changed files `["lib/lib.csproj"]` reports nothing. | Each whole pattern is matched against the file, as in `matches_pattern(file, config['patterns'])` and as `index.ts` does. | high; not executed | `Detection.AsWrittenStarMisreports` | `Detection.LiteralPatternsDetected` |

The as-written and corrected tests are `Detection.AsWrittenMatch` and
`Detection.IntendedMatch`. `Detection.DetectChanges` and `PyAction.Run` take the test
as a parameter, so both readings are modelled. `Detection.AsWrittenLiteralMisreports`
proves the second input of the table, for every wildcard-free pattern that is not one
character long.
