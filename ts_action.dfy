/**
 The core of `run()` in index.ts: the detection loop, the ordering, `hasNuspec`,
 and the `catch` that turns a thrown cycle error into `setFailed` with no outputs.
 */
module TsAction {
  import opened Projects
  import opened Detection
  import opened Pipeline
  import TsGlob

  /** The message of the error `visit` throws for a cycle, which `setFailed` reports. */
  const CyclePrefix: string := "Circular dependency detected involving "

  /** Every configured pattern stays inside the modelled subset of regular expressions. */
  predicate PatternsSupported(projects: ProjectMap)
  {
    forall id, k :: id in projects && 0 <= k < |projects[id].patterns| ==> TsGlob.Supported(projects[id].patterns[k])
  }

  /** The detection loop: for each project, scan the changed files and stop at the first match. */
  method DetectModified(projects: ProjectMap, changedFiles: seq<string>) returns (modified: set<ProjectId>)
    requires PatternsSupported(projects)
    ensures modified == Detected(projects, changedFiles, TsGlob.RegexGlob)
  {
    modified := {};
    var pending := projects.Keys;
    while pending != {}
      invariant pending <= projects.Keys
      invariant forall id :: id in modified <==>
        id in projects && id !in pending && Touches(changedFiles, projects[id].patterns, TsGlob.RegexGlob)
      decreases pending
    {
      var id :| id in pending;
      var config := projects[id];
      var j := 0;
      while j < |changedFiles|
        invariant 0 <= j <= |changedFiles|
        invariant id !in modified
        invariant forall i :: 0 <= i < j ==> !TsGlob.MatchesPattern(changedFiles[i], config.patterns)
        invariant forall x :: x in modified <==>
          x in projects && x !in pending && Touches(changedFiles, projects[x].patterns, TsGlob.RegexGlob)
      {
        if TsGlob.MatchesPattern(changedFiles[j], config.patterns) {
          modified := modified + {id};
          break;
        }
        j := j + 1;
      }
      pending := pending - {id};
    }
  }

  method Run(projects: ProjectMap, changedFiles: seq<string>) returns (r: RunResult)
    requires PatternsSupported(projects)
    ensures Reports(projects, Detected(projects, changedFiles, TsGlob.RegexGlob), CyclePrefix, r)
  {
    var modified := DetectModified(projects, changedFiles);
    r := OrderAndPublish(projects, modified, CyclePrefix);
  }
}
