/** Detection of reference cycles between projects (core/project/cross_project.py:706-756), over the
    graph that the stored references induce. */
module CrossProject {
  import opened Wrappers

  type Project = string

  /** The existing projects; each lists its parsed references in order, None where parsing failed. */
  type Graph = map<Project, seq<Option<Project>>>

  predicate Refers(g: Graph, from: Project, to: Project)
  {
    from in g && Some(to) in g[from] && from != to
  }

  /** Cycles found from project, which the path has just reached; visited holds the rest of the path. */
  function Cycles(g: Graph, project: Project, visited: set<Project>, path: seq<Project>): seq<seq<Project>>
    requires project !in visited
    decreases |g.Keys - visited|, 1, 0
  {
    if project !in g then [] else CyclesVia(g, project, g[project], visited, path)
  }

  function CyclesVia(g: Graph, project: Project, refs: seq<Option<Project>>, visited: set<Project>, path: seq<Project>)
    : seq<seq<Project>>
    requires project in g && project !in visited
    decreases |g.Keys - visited|, 0, |refs|
  {
    if refs == [] then [] else
      CyclesAt(g, project, refs[0], visited, path) + CyclesVia(g, project, refs[1..], visited, path)
  }

  function CyclesAt(g: Graph, project: Project, ref: Option<Project>, visited: set<Project>, path: seq<Project>)
    : seq<seq<Project>>
    requires project in g && project !in visited
    decreases |g.Keys - visited|, 0, 0
  {
    if ref.None? || ref.value == project then []
    else if ref.value in visited then [path + [ref.value]]
    else
      FewerUnvisited(g, project, visited);
      Cycles(g, ref.value, visited + {project}, path + [ref.value])
  }

  lemma FewerUnvisited(g: Graph, project: Project, visited: set<Project>)
    requires project in g && project !in visited
    ensures |g.Keys - (visited + {project})| < |g.Keys - visited|
  {
    var before, after := g.Keys - visited, g.Keys - (visited + {project});
    assert before == after + {project};
  }

  /** Terminates on every graph: each recursion has fewer existing projects left to visit. */
  method DetectCycles(g: Graph, project: Project, visited: set<Project>, path: seq<Project>)
    returns (cycles: seq<seq<Project>>)
    requires project !in visited
    ensures cycles == Cycles(g, project, visited, path)
    decreases |g.Keys - visited|
  {
    if project !in g {
      return [];
    }
    var refs := g[project];
    cycles := [];
    for i := 0 to |refs|
      invariant cycles + CyclesVia(g, project, refs[i..], visited, path) == CyclesVia(g, project, refs, visited, path)
    {
      ghost var before := cycles;
      assert refs[i..][1..] == refs[i + 1..];
      if refs[i].None? || refs[i].value == project {
        continue;
      }
      var dep := refs[i].value;
      var currentPath := path + [dep];
      if dep in visited {
        cycles := cycles + [currentPath];
      } else {
        FewerUnvisited(g, project, visited);
        var sub := DetectCycles(g, dep, visited + {project}, currentPath);
        cycles := cycles + sub;
      }
      ConcatAssociates(before, CyclesAt(g, project, refs[i], visited, path),
                       CyclesVia(g, project, refs[i + 1..], visited, path));
    }
  }

  method Detect(g: Graph, start: Project) returns (cycles: seq<seq<Project>>)
    ensures forall c :: c in cycles <==> Lasso(g, start, c)
    ensures cycles != [] <==> exists w :: IsWalk(g, w) && w[0] == start && !Distinct(w)
  {
    cycles := DetectCycles(g, start, {}, [start]);
    forall c ensures c in cycles <==> Lasso(g, start, c) {
      CyclesAreExactlyTheLassos(g, start, c);
    }
    SomeCycleIff(g, start);
  }

  // ----- what the cycles are -------------------------------------------------------------

  ghost predicate Distinct(w: seq<Project>)
  {
    forall i, j | 0 <= i < j < |w| :: w[i] != w[j]
  }

  /** A non-empty path along references between different projects. */
  ghost predicate IsWalk(g: Graph, w: seq<Project>)
  {
    w != [] && forall i | 0 <= i < |w| - 1 :: Refers(g, w[i], w[i + 1])
  }

  /** A walk from start whose projects are distinct, except that the last one repeats an earlier one. */
  ghost predicate Lasso(g: Graph, start: Project, w: seq<Project>)
  {
    && |w| >= 2 && w[0] == start && IsWalk(g, w)
    && Distinct(w[..|w| - 1])
    && w[|w| - 1] in w[..|w| - 1]
  }

  function Members(w: seq<Project>): set<Project>
  {
    set q | q in w
  }

  /** The search stands at the end of a path of distinct projects. */
  ghost predicate OnPath(g: Graph, project: Project, visited: set<Project>, path: seq<Project>)
  {
    && IsWalk(g, path) && Distinct(path)
    && path[|path| - 1] == project
    && visited == Members(path[..|path| - 1])
  }

  lemma OnPathNotVisited(g: Graph, project: Project, visited: set<Project>, path: seq<Project>)
    requires OnPath(g, project, visited, path)
    ensures project !in visited
    ensures forall q :: q in path <==> q in visited || q == project
  {
    var n := |path|;
    assert path == path[..n - 1] + [project];
    var front := path[..n - 1];
    forall q | q in front ensures q != project {
      var i :| 0 <= i < |front| && front[i] == q;
      assert path[i] != path[n - 1];
    }
  }

  lemma ExtendPath(g: Graph, project: Project, visited: set<Project>, path: seq<Project>, dep: Project)
    requires OnPath(g, project, visited, path) && Refers(g, project, dep) && dep !in visited
    ensures OnPath(g, dep, visited + {project}, path + [dep])
  {
    OnPathNotVisited(g, project, visited, path);
    var next := path + [dep];
    assert next[..|next| - 1] == path;
  }

  /** Walks that go on from path through the reference at hand. */
  ghost predicate Through(path: seq<Project>, ref: Option<Project>, c: seq<Project>)
  {
    |path| < |c| && path == c[..|path|] && Some(c[|path|]) == ref
  }

  lemma WalkGoesOn(g: Graph, path: seq<Project>, c: seq<Project>)
    requires path != [] && IsWalk(g, c) && |path| < |c| && path == c[..|path|]
    ensures Refers(g, path[|path| - 1], c[|path|])
  {
    var n := |path|;
    assert c[n - 1] == path[n - 1];
    assert Refers(g, c[n - 1], c[n]);
  }

  /** Only the last project of a lasso occurs before. */
  lemma RepeatIsTheEnd(g: Graph, start: Project, c: seq<Project>, k: nat, n: nat)
    requires Lasso(g, start, c) && k < n < |c| && c[k] == c[n]
    ensures n == |c| - 1
  {
    var front := c[..|c| - 1];
    assert forall m | 0 <= m < |front| :: front[m] == c[m];
  }

  lemma EndRepeats(g: Graph, start: Project, c: seq<Project>)
    returns (k: nat)
    requires Lasso(g, start, c)
    ensures k < |c| - 1 && c[k] == c[|c| - 1]
  {
    var front := c[..|c| - 1];
    k :| 0 <= k < |front| && front[k] == c[|c| - 1];
  }

  lemma {:induction false} CyclesOnPath(
      g: Graph, project: Project, visited: set<Project>, path: seq<Project>, c: seq<Project>)
    requires project !in visited && OnPath(g, project, visited, path)
    ensures c in Cycles(g, project, visited, path) <==> path < c && Lasso(g, path[0], c)
    decreases |g.Keys - visited|, 1, 0
  {
    if project in g {
      CyclesViaOnPath(g, project, g[project], visited, path, c);
      if path < c && IsWalk(g, c) {
        WalkGoesOn(g, path, c);
        assert c[..|path|] == path;
        assert Through(path, Some(c[|path|]), c);
      }
    } else if path < c && IsWalk(g, c) {
      WalkGoesOn(g, path, c);
    }
  }

  lemma {:induction false} CyclesViaOnPath(
      g: Graph, project: Project, refs: seq<Option<Project>>, visited: set<Project>, path: seq<Project>,
      c: seq<Project>)
    requires project in g && project !in visited && OnPath(g, project, visited, path)
    requires forall r | r in refs :: r in g[project]
    ensures c in CyclesVia(g, project, refs, visited, path)
       <==> Lasso(g, path[0], c) && exists r | r in refs :: Through(path, r, c)
    decreases |g.Keys - visited|, 0, |refs|
  {
    if refs != [] {
      assert refs == [refs[0]] + refs[1..];
      CyclesAtOnPath(g, project, refs[0], visited, path, c);
      CyclesViaOnPath(g, project, refs[1..], visited, path, c);
      assert forall r :: r in refs <==> r == refs[0] || r in refs[1..];
    }
  }

  lemma {:induction false} CyclesAtOnPath(
      g: Graph, project: Project, ref: Option<Project>, visited: set<Project>, path: seq<Project>, c: seq<Project>)
    requires project in g && project !in visited && OnPath(g, project, visited, path)
    requires ref in g[project]
    ensures c in CyclesAt(g, project, ref, visited, path) <==> Lasso(g, path[0], c) && Through(path, ref, c)
    decreases |g.Keys - visited|, 0, 0
  {
    OnPathNotVisited(g, project, visited, path);
    var n := |path|;
    if ref.None? {
    } else if ref.value == project {
      if IsWalk(g, c) && Through(path, ref, c) {
        WalkGoesOn(g, path, c);
      }
    } else if ref.value in visited {
      ClosingReference(g, project, visited, path, ref.value, c);
    } else {
      FewerUnvisited(g, project, visited);
      ExtendPath(g, project, visited, path, ref.value);
      CyclesOnPath(g, ref.value, visited + {project}, path + [ref.value], c);
      OpenReference(g, project, visited, path, ref.value, c);
    }
  }

  /** A reference back into the path closes the only lasso that goes on through it. */
  lemma ClosingReference(
      g: Graph, project: Project, visited: set<Project>, path: seq<Project>, dep: Project, c: seq<Project>)
    requires OnPath(g, project, visited, path) && Refers(g, project, dep) && dep in visited
    ensures c == path + [dep] <==> Lasso(g, path[0], c) && Through(path, Some(dep), c)
  {
    OnPathNotVisited(g, project, visited, path);
    var n := |path|;
    if c == path + [dep] {
      assert c[..|c| - 1] == path;
      assert c[..n] == path;
    }
    if Lasso(g, path[0], c) && Through(path, Some(dep), c) {
      var k :| 0 <= k < n && path[k] == dep;
      assert c[k] == path[k];
      RepeatIsTheEnd(g, path[0], c, k, n);
      assert c == c[..n] + [c[n]];
    }
  }

  /** A reference to a new project is never the end of a lasso. */
  lemma OpenReference(
      g: Graph, project: Project, visited: set<Project>, path: seq<Project>, dep: Project, c: seq<Project>)
    requires OnPath(g, project, visited, path) && Refers(g, project, dep) && dep !in visited
    ensures path + [dep] < c && Lasso(g, path[0], c) <==> Lasso(g, path[0], c) && Through(path, Some(dep), c)
  {
    OnPathNotVisited(g, project, visited, path);
    var n := |path|;
    if path + [dep] < c {
      assert c[n] == (path + [dep])[n] == dep;
      assert c[..n] == path;
    }
    if Lasso(g, path[0], c) && Through(path, Some(dep), c) {
      var k := EndRepeats(g, path[0], c);
      assert k < n ==> c[k] == path[k] && path[k] in path;
      assert path + [dep] == c[..n + 1];
    }
  }

  /** The result lists, without regard to repetition, exactly the lassos from the start. */
  lemma CyclesAreExactlyTheLassos(g: Graph, start: Project, c: seq<Project>)
    ensures c in Cycles(g, start, {}, [start]) <==> Lasso(g, start, c)
  {
    assert [start][..0] == [];
    assert OnPath(g, start, {}, [start]);
    CyclesOnPath(g, start, {}, [start], c);
    if Lasso(g, start, c) {
      assert c[..1] == [start];
    }
  }

  // ----- each of them once --------------------------------------------------------------------

  ghost predicate NoRepeatedReference(refs: seq<Option<Project>>)
  {
    forall i, j | 0 <= i < j < |refs| :: refs[i] != refs[j]
  }

  lemma {:induction false} OnceOnPath(
      g: Graph, project: Project, visited: set<Project>, path: seq<Project>, c: seq<Project>)
    requires project !in visited && OnPath(g, project, visited, path)
    requires forall p | p in g :: NoRepeatedReference(g[p])
    ensures multiset(Cycles(g, project, visited, path))[c] <= 1
    decreases |g.Keys - visited|, 1, 0
  {
    if project in g {
      OnceVia(g, project, g[project], visited, path, c);
    }
  }

  lemma {:induction false} OnceVia(
      g: Graph, project: Project, refs: seq<Option<Project>>, visited: set<Project>, path: seq<Project>,
      c: seq<Project>)
    requires project in g && project !in visited && OnPath(g, project, visited, path)
    requires (forall r | r in refs :: r in g[project]) && NoRepeatedReference(refs)
    requires forall p | p in g :: NoRepeatedReference(g[p])
    ensures multiset(CyclesVia(g, project, refs, visited, path))[c] <= 1
    decreases |g.Keys - visited|, 0, |refs|
  {
    if refs != [] {
      var rest := refs[1..];
      assert refs == [refs[0]] + rest;
      OnceAt(g, project, refs[0], visited, path, c);
      OnceVia(g, project, rest, visited, path, c);
      CyclesAtOnPath(g, project, refs[0], visited, path, c);
      CyclesViaOnPath(g, project, rest, visited, path, c);
      var here, later := CyclesAt(g, project, refs[0], visited, path), CyclesVia(g, project, rest, visited, path);
      assert multiset(here + later)[c] == multiset(here)[c] + multiset(later)[c];
      assert forall j | 0 <= j < |rest| :: rest[j] == refs[j + 1] != refs[0];
      assert c !in here ==> multiset(here)[c] == 0;
      assert c !in later ==> multiset(later)[c] == 0;
    }
  }

  lemma {:induction false} OnceAt(
      g: Graph, project: Project, ref: Option<Project>, visited: set<Project>, path: seq<Project>, c: seq<Project>)
    requires project in g && project !in visited && OnPath(g, project, visited, path)
    requires ref in g[project]
    requires forall p | p in g :: NoRepeatedReference(g[p])
    ensures multiset(CyclesAt(g, project, ref, visited, path))[c] <= 1
    decreases |g.Keys - visited|, 0, 0
  {
    if ref.Some? && ref.value != project && ref.value !in visited {
      OnPathNotVisited(g, project, visited, path);
      FewerUnvisited(g, project, visited);
      ExtendPath(g, project, visited, path, ref.value);
      OnceOnPath(g, ref.value, visited + {project}, path + [ref.value], c);
    }
  }

  /** If no project lists a reference twice, every lasso is reported exactly once. */
  lemma EachLassoIsReportedOnce(g: Graph, start: Project, c: seq<Project>)
    requires forall p | p in g :: NoRepeatedReference(g[p])
    ensures multiset(Cycles(g, start, {}, [start]))[c] == if Lasso(g, start, c) then 1 else 0
  {
    assert [start][..0] == [];
    assert OnPath(g, start, {}, [start]);
    OnceOnPath(g, start, {}, [start], c);
    CyclesAreExactlyTheLassos(g, start, c);
    assert c in Cycles(g, start, {}, [start]) <==> multiset(Cycles(g, start, {}, [start]))[c] > 0;
  }

  /** Any walk that comes back to a project starts with a lasso. */
  lemma {:induction false} FirstReturn(g: Graph, w: seq<Project>) returns (c: seq<Project>)
    requires IsWalk(g, w) && !Distinct(w)
    ensures Lasso(g, w[0], c) && c <= w
  {
    var n := |w| - 1;
    var shorter := w[..n];
    if n > 0 && !Distinct(shorter) {
      c := FirstReturn(g, shorter);
    } else {
      var i, j :| 0 <= i < j < |w| && w[i] == w[j];
      assert forall m | 0 <= m < n :: shorter[m] == w[m];
      assert shorter[i] == w[n];
      c := w;
    }
  }

  /** A cycle is reported exactly when some walk from the start returns to a project,
      that is when a cycle through at least two projects is reachable. */
  lemma SomeCycleIff(g: Graph, start: Project)
    ensures Cycles(g, start, {}, [start]) != [] <==> exists w :: IsWalk(g, w) && w[0] == start && !Distinct(w)
  {
    if exists w :: IsWalk(g, w) && w[0] == start && !Distinct(w) {
      var w :| IsWalk(g, w) && w[0] == start && !Distinct(w);
      var c := FirstReturn(g, w);
      CyclesAreExactlyTheLassos(g, start, c);
    }
    if Cycles(g, start, {}, [start]) != [] {
      var c := Cycles(g, start, {}, [start])[0];
      assert c in Cycles(g, start, {}, [start]);
      CyclesAreExactlyTheLassos(g, start, c);
      var k := EndRepeats(g, start, c);
      assert !Distinct(c);
    }
  }
}
