/**
 The project configuration the action receives, as a typed map from project id
 to its record, and the outputs it produces.
 */
module Projects {

  type ProjectId = string

  /** One entry of the configuration: the descriptor path, the glob patterns that
      select its files, and the ids of the projects it depends on. */
  datatype Project = Project(path: string, patterns: seq<string>, dependencies: seq<ProjectId>)

  type ProjectMap = map<ProjectId, Project>

  /** What a successful run publishes: `modified_packages`, `ordered_changes`, `has_nuspec`. */
  datatype Outputs = Outputs(modifiedPackages: set<ProjectId>, orderedChanges: seq<ProjectId>, hasNuspec: bool)

  /** A run either publishes its outputs or fails with a message and publishes nothing. */
  datatype RunResult = Succeeded(outputs: Outputs) | Failed(message: string)

  const NuspecSuffix: string := ".nuspec"

  predicate EndsWith(s: string, suffix: string)
  {
    |suffix| <= |s| && s[|s| - |suffix|..] == suffix
  }

  /** `has_nuspec`: some modified project's path ends with `.nuspec`. */
  function HasNuspec(projects: ProjectMap, modified: set<ProjectId>): (r: bool)
    requires modified <= projects.Keys
    ensures r <==> exists id, stem :: id in modified && projects[id].path == stem + NuspecSuffix
  {
    var r := exists id | id in modified :: EndsWith(projects[id].path, NuspecSuffix);
    assert r ==> exists id, stem :: id in modified && projects[id].path == stem + NuspecSuffix by {
      if r {
        var id :| id in modified && EndsWith(projects[id].path, NuspecSuffix);
        var p := projects[id].path;
        assert p == p[..|p| - |NuspecSuffix|] + NuspecSuffix;
      }
    }
    r
  }
}
