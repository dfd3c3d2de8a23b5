/**
 What both entry points do once the modified set is known: order it, compute
 `has_nuspec`, and publish the three outputs, or fail with the cycle message and
 publish nothing.
 */
module Pipeline {
  import opened Projects
  import opened Ordering

  /** `r` is what a run over `modified` must report: on success the modified set, a
      dependencies-first permutation of it and the `.nuspec` flag; a failure exactly
      when the modified projects hold a cycle, with a message naming a project on one. */
  ghost predicate Reports(projects: ProjectMap, modified: set<ProjectId>, cyclePrefix: string, r: RunResult)
    requires modified <= projects.Keys
  {
    && (r.Succeeded? ==>
          && r.outputs.modifiedPackages == modified
          && IsPermutationOf(r.outputs.orderedChanges, modified)
          && DependenciesFirst(projects, r.outputs.orderedChanges)
          && (r.outputs.hasNuspec <==> exists id, stem :: id in modified && projects[id].path == stem + NuspecSuffix))
    && (r.Failed? <==> !Acyclic(projects, modified))
    && (r.Failed? ==> exists id :: id in modified && OnCycle(projects, modified, id) && r.message == cyclePrefix + id)
  }

  method OrderAndPublish(projects: ProjectMap, modified: set<ProjectId>, cyclePrefix: string) returns (r: RunResult)
    requires modified <= projects.Keys
    ensures Reports(projects, modified, cyclePrefix, r)
  {
    var order := OrderProjects(projects, modified);
    if order.Cycle? {
      return Failed(cyclePrefix + order.id);
    }
    var hasNuspec := HasNuspec(projects, modified);
    r := Succeeded(Outputs(modified, order.order, hasNuspec));
  }
}
