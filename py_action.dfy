/**
 The core of `main()` in detect_changes.py: detect the modified projects, order
 them, compute `has_nuspec`. The test applied to one changed file and one pattern
 is a parameter: `Detection.AsWrittenMatch` is what line 55 computes,
 `Detection.IntendedMatch` the corrected test.
 */
module PyAction {
  import opened Projects
  import opened Detection
  import opened Pipeline

  /** The message `sys.exit` reports for a cycle. */
  const CyclePrefix: string := "Error: Circular dependency detected involving "

  method Run(projects: ProjectMap, changedFiles: seq<string>, matches: (string, string) -> bool) returns (r: RunResult)
    ensures Reports(projects, Detected(projects, changedFiles, matches), CyclePrefix, r)
  {
    var modified := DetectChanges(projects, changedFiles, matches);
    r := OrderAndPublish(projects, modified, CyclePrefix);
  }
}
