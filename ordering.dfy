/**
 Dependency ordering: `order_projects` with its nested `visit` (detect_changes.py),
 and its near copy, the `visit` closure and seeding loop of `run()` (index.ts).

 The traversal state is an `Orderer`: the finished projects (`visited`), the ones on
 the active path (`visiting`) and the output list (`ordered`). Exiting the process
 (Python) or throwing (TypeScript) on a cycle becomes the `CycleAt` status.
 */
module Ordering {
  import opened Projects

  datatype Status = Finished | CycleAt(id: ProjectId)

  datatype Outcome = Ordered(order: seq<ProjectId>) | Cycle(id: ProjectId)

  predicate NoDuplicates(s: seq<ProjectId>)
  {
    forall i, j :: 0 <= i < j < |s| ==> s[i] != s[j]
  }

  /** `d` is a dependency of `p` that the traversal follows: both are modified. */
  ghost predicate Edge(projects: ProjectMap, modified: set<ProjectId>, p: ProjectId, d: ProjectId)
  {
    p in modified && d in modified && p in projects && d in projects[p].dependencies
  }

  /** A walk along followed dependencies. */
  ghost predicate IsChain(projects: ProjectMap, modified: set<ProjectId>, c: seq<ProjectId>)
  {
    (forall k :: 0 <= k < |c| ==> c[k] in modified) &&
    (forall k :: 0 < k < |c| ==> Edge(projects, modified, c[k - 1], c[k]))
  }

  /** A walk of at least one step that returns to where it started. */
  ghost predicate IsCycle(projects: ProjectMap, modified: set<ProjectId>, c: seq<ProjectId>)
  {
    2 <= |c| && c[0] == c[|c| - 1] && IsChain(projects, modified, c)
  }

  /** `b` is reached from `a` along followed dependencies (in zero steps or more). */
  ghost predicate Reaches(projects: ProjectMap, modified: set<ProjectId>, a: ProjectId, b: ProjectId)
  {
    exists c :: IsChain(projects, modified, c) && 0 < |c| && c[0] == a && c[|c| - 1] == b
  }

  ghost predicate OnCycle(projects: ProjectMap, modified: set<ProjectId>, id: ProjectId)
  {
    exists c :: IsCycle(projects, modified, c) && c[0] == id
  }

  ghost predicate Acyclic(projects: ProjectMap, modified: set<ProjectId>)
  {
    forall c :: !IsCycle(projects, modified, c)
  }

  /** Every project of `s` comes after each of its dependencies that occurs in `s`. */
  ghost predicate DependenciesFirst(projects: ProjectMap, s: seq<ProjectId>)
  {
    forall i, j :: 0 <= i < |s| && 0 <= j < |s| && s[i] in projects && s[j] in projects[s[i]].dependencies ==> j < i
  }

  /** `s` lists every project of `modified` exactly once and nothing else. */
  ghost predicate IsPermutationOf(s: seq<ProjectId>, modified: set<ProjectId>)
  {
    NoDuplicates(s) && (forall x :: x in s <==> x in modified) && |s| == |modified|
  }

  /** The followed dependencies of every project of `s` are in `done`. */
  ghost predicate Closed(projects: ProjectMap, modified: set<ProjectId>, s: seq<ProjectId>, done: set<ProjectId>)
  {
    forall i, d :: 0 <= i < |s| && s[i] in projects && d in projects[s[i]].dependencies && d in modified ==> d in done
  }

  ghost function Elements(s: seq<ProjectId>): set<ProjectId>
  {
    set x | x in s
  }

  class Orderer {
    const projects: ProjectMap
    const modified: set<ProjectId>
    var visited: set<ProjectId>
    var visiting: set<ProjectId>
    var ordered: seq<ProjectId>

    ghost predicate Valid()
      reads this
    {
      && modified <= projects.Keys
      && visited <= modified && visiting <= modified
      && visited !! visiting
      && NoDuplicates(ordered)
      && (forall x :: x in ordered <==> x in visited)
      && DependenciesFirst(projects, ordered)
      && Closed(projects, modified, ordered, visited)
    }

    constructor (projects: ProjectMap, modified: set<ProjectId>)
      requires modified <= projects.Keys
      ensures Valid()
      ensures this.projects == projects && this.modified == modified
      ensures visited == {} && visiting == {} && ordered == []
    {
      this.projects := projects;
      this.modified := modified;
      visited, visiting, ordered := {}, {}, [];
    }

    /** `visit(id)`, reached along the dependency walk `path` (the projects in `visiting`). */
    method Visit(id: ProjectId, ghost path: seq<ProjectId>) returns (status: Status)
      requires Valid()
      requires id in modified
      requires visiting == Elements(path)
      requires IsChain(projects, modified, path + [id])
      modifies this
      decreases |modified - visiting|, 1
      ensures Valid()
      ensures old(visited) <= visited
      ensures status.Finished? ==> id in visited && visiting == old(visiting)
      ensures status.Finished? ==> old(ordered) <= ordered
      ensures status.Finished? && old(id !in visited) ==> ordered[|ordered| - 1] == id
      ensures status.CycleAt? ==> OnCycle(projects, modified, status.id)
      ensures old(id in visited) ==> status == Finished && visited == old(visited) && ordered == old(ordered)
      ensures old(id in visiting) ==> status == CycleAt(id)
      ensures forall x :: x in visited && x !in old(visited) ==> Reaches(projects, modified, id, x)
    {
      if id in visited {
        return Finished;
      }
      if id in visiting {
        ghost var k :| 0 <= k < |path| && path[k] == id;
        CycleFromPath(projects, modified, path + [id], k);
        return CycleAt(id);
      }
      assert |modified - (visiting + {id})| + 1 == |modified - visiting| by {
        assert modified - (visiting + {id}) == (modified - visiting) - {id};
      }
      visiting := visiting + {id};
      status := VisitDependencies(id, path);
      if status.CycleAt? {
        return;
      }
      visiting := visiting - {id};
      assert IsChain(projects, modified, [id]);
      AppendFinished(projects, modified, ordered, visited, id);
      visited := visited + {id};
      ordered := ordered + [id];
    }

    /** The loop of `visit(id)` over the dependencies of `id`, entering the modified ones. */
    method VisitDependencies(id: ProjectId, ghost path: seq<ProjectId>) returns (status: Status)
      requires Valid()
      requires id in modified && id in visiting && id !in visited
      requires visiting == Elements(path + [id])
      requires IsChain(projects, modified, path + [id])
      modifies this
      decreases |modified - visiting| + 1, 0
      ensures Valid()
      ensures old(visited) <= visited
      ensures status.Finished? ==> id !in visited && visiting == old(visiting) && old(ordered) <= ordered
      ensures status.Finished? ==> forall d :: d in projects[id].dependencies && d in modified ==> d in visited
      ensures status.CycleAt? ==> OnCycle(projects, modified, status.id)
      ensures forall x :: x in visited && x !in old(visited) ==> Reaches(projects, modified, id, x)
    {
      var deps := projects[id].dependencies;
      for n := 0 to |deps|
        invariant Valid()
        invariant visiting == old(visiting)
        invariant id !in visited && old(visited) <= visited
        invariant old(ordered) <= ordered
        invariant forall m :: 0 <= m < n && deps[m] in modified ==> deps[m] in visited
        invariant forall x :: x in visited && x !in old(visited) ==> Reaches(projects, modified, id, x)
      {
        if deps[n] in modified {
          ChainExtend(projects, modified, path + [id], deps[n]);
          ghost var before := visited;
          status := Visit(deps[n], path + [id]);
          forall x | x in visited && x !in before
            ensures Reaches(projects, modified, id, x)
          {
            ReachesThrough(projects, modified, id, deps[n], x);
          }
          if status.CycleAt? {
            return;
          }
        }
      }
      return Finished;
    }
  }

  /** Appending a project whose followed dependencies are all finished keeps the output
      duplicate-free, dependencies-first and closed. */
  lemma AppendFinished(projects: ProjectMap, modified: set<ProjectId>, s: seq<ProjectId>, done: set<ProjectId>, id: ProjectId)
    requires modified <= projects.Keys && done <= modified && id in modified && id !in done
    requires NoDuplicates(s) && (forall x :: x in s <==> x in done)
    requires DependenciesFirst(projects, s) && Closed(projects, modified, s, done)
    requires forall d :: d in projects[id].dependencies && d in modified ==> d in done
    ensures NoDuplicates(s + [id]) && (forall x :: x in s + [id] <==> x in done + {id})
    ensures DependenciesFirst(projects, s + [id]) && Closed(projects, modified, s + [id], done + {id})
  {
    var t := s + [id];
    forall i, j | 0 <= i < |t| && 0 <= j < |t| && t[i] in projects && t[j] in projects[t[i]].dependencies
      ensures j < i
    {
      if j == |s| {
        assert false;
      }
    }
  }

  /** Extending a walk by a followed dependency of its last project. */
  lemma ChainExtend(projects: ProjectMap, modified: set<ProjectId>, c: seq<ProjectId>, d: ProjectId)
    requires 0 < |c| && IsChain(projects, modified, c)
    requires d in modified && c[|c| - 1] in projects && d in projects[c[|c| - 1]].dependencies
    ensures IsChain(projects, modified, c + [d])
  {
  }

  /** A followed dependency of `a` passes on what it reaches to `a`. */
  lemma ReachesThrough(projects: ProjectMap, modified: set<ProjectId>, a: ProjectId, d: ProjectId, x: ProjectId)
    requires Edge(projects, modified, a, d) && Reaches(projects, modified, d, x)
    ensures Reaches(projects, modified, a, x)
  {
    var c :| IsChain(projects, modified, c) && 0 < |c| && c[0] == d && c[|c| - 1] == x;
    var c2 := [a] + c;
    assert forall k :: 0 < k < |c2| ==> c2[k] == c[k - 1];
    assert IsChain(projects, modified, c2);
  }

  /** A walk that returns to its `k`-th project holds a cycle through it. */
  lemma CycleFromPath(projects: ProjectMap, modified: set<ProjectId>, c: seq<ProjectId>, k: nat)
    requires IsChain(projects, modified, c)
    requires k < |c| - 1 && c[k] == c[|c| - 1]
    ensures OnCycle(projects, modified, c[k])
  {
    var cyc := c[k..];
    assert forall m :: 0 <= m < |cyc| ==> cyc[m] == c[k + m];
    assert IsCycle(projects, modified, cyc);
  }

  /** Along a walk, each project sits strictly later in a dependencies-first list than the
      next one: so a walk of one step or more ends strictly earlier than it starts. */
  lemma {:induction false} ChainDescends(projects: ProjectMap, modified: set<ProjectId>, s: seq<ProjectId>,
                                         c: seq<ProjectId>, i: nat, j: nat)
    requires modified <= projects.Keys && DependenciesFirst(projects, s)
    requires forall x :: x in modified ==> x in s
    requires 2 <= |c| && IsChain(projects, modified, c)
    requires i < |s| && s[i] == c[0] && j < |s| && s[j] == c[|c| - 1]
    ensures j < i
    decreases |c|
  {
    assert c[1] in s;
    var i1 :| 0 <= i1 < |s| && s[i1] == c[1];
    assert Edge(projects, modified, c[0], c[1]);
    if |c| > 2 {
      var tail := c[1..];
      assert forall m :: 0 < m < |tail| ==> tail[m - 1] == c[m] && tail[m] == c[m + 1];
      ChainDescends(projects, modified, s, tail, i1, j);
    }
  }

  /** A dependencies-first list of all modified projects rules out any cycle among them. */
  lemma OrderedImpliesAcyclic(projects: ProjectMap, modified: set<ProjectId>, s: seq<ProjectId>)
    requires modified <= projects.Keys && DependenciesFirst(projects, s)
    requires forall x :: x in modified ==> x in s
    ensures Acyclic(projects, modified)
  {
    forall c | IsCycle(projects, modified, c)
      ensures false
    {
      assert c[0] in s;
      var i :| 0 <= i < |s| && s[i] == c[0];
      ChainDescends(projects, modified, s, c, i, i);
    }
  }

  /** A list without duplicates whose elements are exactly `m` has `|m|` entries. */
  lemma {:induction false} DistinctLength(s: seq<ProjectId>, m: set<ProjectId>)
    requires NoDuplicates(s) && forall x :: x in s <==> x in m
    ensures |s| == |m|
    decreases |s|
  {
    if |s| > 0 {
      var last := s[|s| - 1];
      var front := s[..|s| - 1];
      assert forall x :: x in front <==> x in m - {last} by {
        forall x ensures x in front <==> x in m - {last} {
          if x in front {
            var k :| 0 <= k < |front| && front[k] == x;
            assert s[k] == x;
          }
          if x in s && x != last {
            var k :| 0 <= k < |s| && s[k] == x;
            assert k < |s| - 1 && front[k] == x;
          }
        }
      }
      DistinctLength(front, m - {last});
    } else {
      assert forall x :: x !in m;
      assert m == {};
    }
  }

  /** `order_projects`: every modified project is seeded once, in an arbitrary order. */
  method OrderProjects(projects: ProjectMap, modified: set<ProjectId>) returns (r: Outcome)
    requires modified <= projects.Keys
    ensures r.Ordered? ==> IsPermutationOf(r.order, modified)
    ensures r.Ordered? ==> DependenciesFirst(projects, r.order)
    ensures r.Cycle? ==> r.id in modified && OnCycle(projects, modified, r.id)
    ensures r.Ordered? <==> Acyclic(projects, modified)
  {
    var orderer := new Orderer(projects, modified);
    var pending := modified;
    while pending != {}
      invariant orderer.Valid() && orderer.visiting == {}
      invariant orderer.projects == projects && orderer.modified == modified
      invariant pending <= modified
      invariant modified - pending <= orderer.visited
      decreases pending
    {
      var id :| id in pending;
      assert Elements([]) == {};
      var st := orderer.Visit(id, []);
      if st.CycleAt? {
        ghost var c :| IsCycle(projects, modified, c) && c[0] == st.id;
        assert !Acyclic(projects, modified);
        return Cycle(st.id);
      }
      pending := pending - {id};
    }
    assert orderer.visited == modified;
    DistinctLength(orderer.ordered, modified);
    OrderedImpliesAcyclic(projects, modified, orderer.ordered);
    r := Ordered(orderer.ordered);
  }

  /** Three projects where `C` depends on `B` and `B` on `A`. */
  function ThreeInChain(): ProjectMap
  {
    map["A" := Project("a/a.csproj", ["a/*"], []),
        "B" := Project("b/b.csproj", ["b/*"], ["A"]),
        "C" := Project("c/c.csproj", ["c/*"], ["B"])]
  }

  /** When all three are modified, the one acceptable order is `A`, `B`, `C`. */
  lemma ThreeInChainHasOneOrder(s: seq<ProjectId>)
    requires IsPermutationOf(s, {"A", "B", "C"})
    requires DependenciesFirst(ThreeInChain(), s)
    ensures s == ["A", "B", "C"]
  {
    var p := ThreeInChain();
    assert "A" in s && "B" in s && "C" in s;
    var a :| 0 <= a < |s| && s[a] == "A";
    var b :| 0 <= b < |s| && s[b] == "B";
    var c :| 0 <= c < |s| && s[c] == "C";
    assert s[b] in p && s[a] in p[s[b]].dependencies;
    assert s[c] in p && s[b] in p[s[c]].dependencies;
    assert |s| == 3;
    assert a == 0 && b == 1 && c == 2;
  }

  /** When only `A` and `C` are modified, `C`'s dependency `B` is not followed, and both
      orders are acceptable. */
  lemma ThreeInChainWithoutMiddle()
    ensures DependenciesFirst(ThreeInChain(), ["A", "C"])
    ensures DependenciesFirst(ThreeInChain(), ["C", "A"])
    ensures Acyclic(ThreeInChain(), {"A", "C"})
  {
    OrderedImpliesAcyclic(ThreeInChain(), {"A", "C"}, ["A", "C"]);
  }

  /** A project listed among its own dependencies is a cycle: ordering it fails, naming it. */
  lemma SelfDependencyIsCycle(projects: ProjectMap, modified: set<ProjectId>, x: ProjectId)
    requires x in modified && x in projects && x in projects[x].dependencies
    ensures OnCycle(projects, modified, x) && !Acyclic(projects, modified)
  {
    assert IsCycle(projects, modified, [x, x]);
  }
}
