/**
 Change detection: the set of projects that at least one changed file touches.

 `Detected` is the specification, parameterised on the test `matches(file, pattern)`
 applied to one changed file and one entry of a project's pattern list. The loop
 of `detect_changes` (detect_changes.py) is `DetectChanges`; the loop of `run()`
 in index.ts is `TsAction.DetectModified`. For detect_changes.py the test is
 `AsWrittenMatch`, what line 55 computes, and `IntendedMatch` is the corrected
 test.
 */
module Detection {
  import opened Projects
  import Fnmatch

  /** Some changed file and some pattern pass `matches`. */
  predicate Touches(files: seq<string>, patterns: seq<string>, matches: (string, string) -> bool)
  {
    exists i, j | 0 <= i < |files| && 0 <= j < |patterns| :: matches(files[i], patterns[j])
  }

  /** The modified set: the projects touched by a changed file. */
  function Detected(projects: ProjectMap, files: seq<string>, matches: (string, string) -> bool): (r: set<ProjectId>)
    ensures r <= projects.Keys
    ensures files == [] ==> r == {}
    ensures forall id :: id in projects && projects[id].patterns == [] ==> id !in r
  {
    set id | id in projects && Touches(files, projects[id].patterns, matches)
  }

  /** The loop of `detect_changes` over the configuration's entries. */
  method DetectChanges(projects: ProjectMap, changedFiles: seq<string>, matches: (string, string) -> bool)
    returns (modified: set<ProjectId>)
    ensures modified == Detected(projects, changedFiles, matches)
  {
    modified := {};
    var pending := projects.Keys;
    while pending != {}
      invariant pending <= projects.Keys
      invariant forall id :: id in modified <==>
        id in projects && id !in pending && Touches(changedFiles, projects[id].patterns, matches)
      decreases pending
    {
      var id :| id in pending;
      if Touches(changedFiles, projects[id].patterns, matches) {
        modified := modified + {id};
      }
      pending := pending - {id};
    }
  }

  /** Only which files occur matters: reordering or repeating `changedFiles` changes nothing. */
  lemma SameFilesSameResult(projects: ProjectMap, f1: seq<string>, f2: seq<string>, matches: (string, string) -> bool)
    requires forall x :: x in f1 <==> x in f2
    ensures Detected(projects, f1, matches) == Detected(projects, f2, matches)
  {
    forall id | id in projects
      ensures Touches(f1, projects[id].patterns, matches) <==> Touches(f2, projects[id].patterns, matches)
    {
      TouchesSameFiles(f1, f2, projects[id].patterns, matches);
      TouchesSameFiles(f2, f1, projects[id].patterns, matches);
    }
  }

  lemma TouchesSameFiles(f1: seq<string>, f2: seq<string>, patterns: seq<string>, matches: (string, string) -> bool)
    requires forall x :: x in f1 ==> x in f2
    ensures Touches(f1, patterns, matches) ==> Touches(f2, patterns, matches)
  {
    if Touches(f1, patterns, matches) {
      var i, j :| 0 <= i < |f1| && 0 <= j < |patterns| && matches(f1[i], patterns[j]);
      assert f1[i] in f2;
      var i2 :| 0 <= i2 < |f2| && f2[i2] == f1[i];
    }
  }

  /** `matches_pattern`: the path fnmatches one of the patterns. */
  predicate MatchesPattern(filePath: string, patterns: seq<string>)
  {
    exists k | 0 <= k < |patterns| :: Fnmatch.FnMatch(filePath, patterns[k])
  }

  /** Iterating a Python string yields its one-character strings. */
  function Chars(s: string): seq<string>
  {
    seq(|s|, i requires 0 <= i < |s| => [s[i]])
  }

  /** The test of detect_changes.py line 55: `matches_pattern` receives one pattern string,
      so every character of the pattern is used as a glob of its own. */
  predicate AsWrittenMatch(filePath: string, pattern: string)
  {
    MatchesPattern(filePath, Chars(pattern))
  }

  /** The test line 55 was meant to apply: the whole pattern is one glob. */
  predicate IntendedMatch(filePath: string, pattern: string)
  {
    Fnmatch.FnMatch(filePath, pattern)
  }

  /** As written, a pattern admits a file exactly when it holds a `*`, or the file is one
      character long and that character, or a `?`, occurs in the pattern. */
  lemma AsWrittenMatchIff(filePath: string, pattern: string)
    ensures AsWrittenMatch(filePath, pattern)
        <==> ('*' in pattern || (|filePath| == 1 && (filePath[0] in pattern || '?' in pattern)))
  {
    var cs := Chars(pattern);
    forall k | 0 <= k < |pattern|
      ensures Fnmatch.FnMatch(filePath, cs[k])
          <==> (pattern[k] == '*' || (|filePath| == 1 && (pattern[k] == '?' || filePath[0] == pattern[k])))
    {
      Fnmatch.SingleCharPattern(filePath, pattern[k]);
    }
    if '*' in pattern {
      var k :| 0 <= k < |pattern| && pattern[k] == '*';
      assert Fnmatch.FnMatch(filePath, cs[k]);
    } else if |filePath| == 1 && filePath[0] in pattern {
      var k :| 0 <= k < |pattern| && pattern[k] == filePath[0];
      assert Fnmatch.FnMatch(filePath, cs[k]);
    } else if |filePath| == 1 && '?' in pattern {
      var k :| 0 <= k < |pattern| && pattern[k] == '?';
      assert Fnmatch.FnMatch(filePath, cs[k]);
    }
  }

  /** As written, one pattern with a `*` marks its project modified whenever any file changed. */
  lemma AsWrittenStarDetectsAll(projects: ProjectMap, files: seq<string>, id: ProjectId, j: nat)
    requires id in projects && files != []
    requires j < |projects[id].patterns| && '*' in projects[id].patterns[j]
    ensures id in Detected(projects, files, AsWrittenMatch)
  {
    AsWrittenMatchIff(files[0], projects[id].patterns[j]);
    assert AsWrittenMatch(files[0], projects[id].patterns[j]);
  }

  /** The modified set of a one-project configuration with one changed file and one pattern. */
  lemma DetectedSingle(id: ProjectId, path: string, pattern: string, file: string, matches: (string, string) -> bool)
    ensures Detected(map[id := Project(path, [pattern], [])], [file], matches)
         == if matches(file, pattern) then {id} else {}
  {
    assert Touches([file], [pattern], matches) <==> matches(file, pattern) by {
      if Touches([file], [pattern], matches) {
        var i, j :| 0 <= i < 1 && 0 <= j < 1 && matches([file][i], [pattern][j]);
      }
      if matches(file, pattern) {
        assert matches([file][0], [pattern][0]);
      }
    }
  }

  /** As written, a change outside `lib/` marks the project whose one pattern is `lib/`
      followed by a star; the intended test does not. */
  lemma AsWrittenStarMisreports()
    ensures Detected(map["lib" := Project("lib/lib.nuspec", ["lib/*"], [])], ["docs/readme.md"], AsWrittenMatch) == {"lib"}
    ensures Detected(map["lib" := Project("lib/lib.nuspec", ["lib/*"], [])], ["docs/readme.md"], IntendedMatch) == {}
  {
    DetectedSingle("lib", "lib/lib.nuspec", "lib/*", "docs/readme.md", AsWrittenMatch);
    DetectedSingle("lib", "lib/lib.nuspec", "lib/*", "docs/readme.md", IntendedMatch);
    AsWrittenMatchIff("docs/readme.md", "lib/*");
    assert "lib/*"[4] == '*';
    assert !Fnmatch.FnMatch("docs/readme.md", "lib/*");
  }

  /** As written, changing the very file that a wildcard-free pattern of more than one
      character names does not mark its project; the intended test does. */
  lemma AsWrittenLiteralMisreports(id: ProjectId, path: string, pattern: string)
    requires Fnmatch.NoWildcards(pattern) && |pattern| != 1
    ensures Detected(map[id := Project(path, [pattern], [])], [pattern], AsWrittenMatch) == {}
    ensures Detected(map[id := Project(path, [pattern], [])], [pattern], IntendedMatch) == {id}
  {
    DetectedSingle(id, path, pattern, pattern, AsWrittenMatch);
    DetectedSingle(id, path, pattern, pattern, IntendedMatch);
    AsWrittenMatchIff(pattern, pattern);
    Fnmatch.LiteralMatchesExactly(pattern, pattern);
  }

  /** With the intended test, a project whose patterns hold no wildcard is modified exactly
      when one of the changed files is one of its patterns. */
  lemma LiteralPatternsDetected(projects: ProjectMap, files: seq<string>, id: ProjectId)
    requires id in projects
    requires forall j :: 0 <= j < |projects[id].patterns| ==> Fnmatch.NoWildcards(projects[id].patterns[j])
    ensures id in Detected(projects, files, IntendedMatch)
        <==> exists i :: 0 <= i < |files| && files[i] in projects[id].patterns
  {
    var pats := projects[id].patterns;
    forall i, j | 0 <= i < |files| && 0 <= j < |pats|
      ensures IntendedMatch(files[i], pats[j]) <==> files[i] == pats[j]
    {
      Fnmatch.LiteralMatchesExactly(files[i], pats[j]);
    }
  }

  /** With the intended test, a project whose one pattern is `u*` (no wildcard in `u`) is
      modified exactly when some changed file lies under `u`, at any depth. */
  lemma PrefixPatternDetected(projects: ProjectMap, files: seq<string>, id: ProjectId, u: string)
    requires id in projects && projects[id].patterns == [u + "*"] && Fnmatch.NoWildcards(u)
    ensures id in Detected(projects, files, IntendedMatch)
        <==> exists i :: 0 <= i < |files| && |u| <= |files[i]| && files[i][..|u|] == u
  {
    forall i | 0 <= i < |files|
      ensures IntendedMatch(files[i], u + "*") <==> (|u| <= |files[i]| && files[i][..|u|] == u)
    {
      Fnmatch.PrefixStar(files[i], u);
    }
    if Touches(files, [u + "*"], IntendedMatch) {
      var i, j :| 0 <= i < |files| && 0 <= j < 1 && IntendedMatch(files[i], [u + "*"][j]);
      assert IntendedMatch(files[i], u + "*");
    }
    if exists i :: 0 <= i < |files| && |u| <= |files[i]| && files[i][..|u|] == u {
      var i :| 0 <= i < |files| && |u| <= |files[i]| && files[i][..|u|] == u;
      assert IntendedMatch(files[i], [u + "*"][0]);
    }
  }

  /** The corrected line 55 is `any(matches_pattern(file, config['patterns']) for file in ...)`. */
  lemma IntendedIsMatchesPattern(files: seq<string>, patterns: seq<string>)
    ensures Touches(files, patterns, IntendedMatch)
        <==> exists i :: 0 <= i < |files| && MatchesPattern(files[i], patterns)
  {
    if exists i :: 0 <= i < |files| && MatchesPattern(files[i], patterns) {
      var i :| 0 <= i < |files| && MatchesPattern(files[i], patterns);
      var k :| 0 <= k < |patterns| && Fnmatch.FnMatch(files[i], patterns[k]);
      assert IntendedMatch(files[i], patterns[k]);
    }
  }
}
