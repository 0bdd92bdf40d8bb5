/** The job graph and its construction from the configured job list
    (pkg/graph/graph.go, `NewJobGraph` and `BuildGraph`). */
module JobGraph {
  import opened Wrappers
  import opened Jobs

  /** A dependency edge: it runs from the dependency to the job that declares it. */
  datatype Edge = Edge(from: string, to: string)

  /** The dependency graph. A node is keyed by its job's name, which stands for the
      job's numeric identifier (a hash of the name, assumed collision free here). */
  datatype Graph = Graph(nodes: map<string, Job>, edges: set<Edge>)

  /** Every error the graph package can return. */
  datatype GraphError =
    | DependencyNotFound(dep: string)
    | TargetNotFound(target: string)
    | Unorderable
    | FailedDependencies(deps: set<string>)
    | CallbackError(message: string)

  /** Edges join existing nodes and every node holds the job it is keyed by. */
  predicate Valid(g: Graph)
  {
    && (forall e :: e in g.edges ==> e.from in g.nodes && e.to in g.nodes)
    && (forall n :: n in g.nodes ==> g.nodes[n].name == n)
  }

  /** Every dependency name a job list declares, job by job and, within a job, in
      declaration order. */
  function AllDeps(jobs: seq<Job>): seq<string>
  {
    if jobs == [] then [] else jobs[0].deps + AllDeps(jobs[1..])
  }

  lemma {:induction false} AllDepsMembers(jobs: seq<Job>)
    ensures forall d :: d in AllDeps(jobs) <==> exists j :: j in jobs && d in j.deps
  {
    if jobs != [] {
      AllDepsMembers(jobs[1..]);
      assert forall j :: j in jobs <==> j == jobs[0] || j in jobs[1..];
    }
  }

  /** The edges a job list declares: one from each named dependency to its job. */
  function DeclaredEdges(jobs: seq<Job>): set<Edge>
  {
    if jobs == [] then {}
    else (set d | d in jobs[0].deps :: Edge(d, jobs[0].name)) + DeclaredEdges(jobs[1..])
  }

  lemma {:induction false} DeclaredEdgesMembers(jobs: seq<Job>)
    ensures forall e :: e in DeclaredEdges(jobs) <==> exists j :: j in jobs && j.name == e.to && e.from in j.deps
  {
    if jobs != [] {
      DeclaredEdgesMembers(jobs[1..]);
      assert forall j :: j in jobs <==> j == jobs[0] || j in jobs[1..];
    }
  }

  /** The first element of `s` that is not in `known`, if any. */
  function FirstUndeclared(s: seq<string>, known: set<string>): (r: Option<string>)
    ensures r.None? <==> forall i :: 0 <= i < |s| ==> s[i] in known
    ensures r.Some? ==> exists i :: 0 <= i < |s| && s[i] == r.value && r.value !in known
                                   && forall k :: 0 <= k < i ==> s[k] in known
  {
    if s == [] then None
    else if s[0] !in known then Some(s[0])
    else
      var r := FirstUndeclared(s[1..], known);
      assert r.Some? ==> exists i :: 0 <= i < |s| && s[i] == r.value && r.value !in known
                                     && forall k :: 0 <= k < i ==> s[k] in known by {
        if r.Some? {
          var i :| 0 <= i < |s[1..]| && s[1..][i] == r.value && r.value !in known
                   && forall k :: 0 <= k < i ==> s[1..][k] in known;
          assert s[i + 1] == r.value;
        }
      }
      r
  }

  lemma {:induction false} FirstUndeclaredAppend(a: seq<string>, b: seq<string>, known: set<string>)
    ensures FirstUndeclared(a + b, known)
            == if FirstUndeclared(a, known).Some? then FirstUndeclared(a, known)
               else FirstUndeclared(b, known)
    decreases |a|
  {
    if a == [] {
      assert a + b == b;
    } else {
      assert (a + b)[0] == a[0];
      assert (a + b)[1..] == a[1..] + b;
      FirstUndeclaredAppend(a[1..], b, known);
    }
  }

  /** The jobs map of `BuildGraph`: every configured name maps to a job of that
      name (which one is fixed by `LastByNameWins`). */
  function LastByName(jobs: seq<Job>): (m: map<string, Job>)
    ensures m.Keys == Names(jobs)
    ensures forall n :: n in m ==> m[n].name == n && m[n] in jobs
  {
    if jobs == [] then map[]
    else
      var front := jobs[..|jobs| - 1];
      var last := jobs[|jobs| - 1];
      var m := LastByName(front);
      assert forall j :: j in front ==> j in jobs;
      assert Names(jobs) == Names(front) + {last.name} by {
        assert jobs == front + [last];
        assert forall j :: j in jobs ==> j in front || j == last;
      }
      m[last.name := last]
  }

  /** Later writes to a Go map replace earlier ones: a name maps to the LAST job
      carrying it. */
  lemma {:induction false} LastByNameWins(jobs: seq<Job>, i: nat)
    requires i < |jobs|
    requires forall k :: i < k < |jobs| ==> jobs[k].name != jobs[i].name
    ensures jobs[i].name in LastByName(jobs)
    ensures LastByName(jobs)[jobs[i].name] == jobs[i]
  {
    assert jobs[i] in jobs;
    if i < |jobs| - 1 {
      var front := jobs[..|jobs| - 1];
      assert front[i] == jobs[i];
      LastByNameWins(front, i);
    }
  }

  /** Adds a node for `j` unless one is already keyed by its name. */
  function AddNode(g: Graph, j: Job): Graph
  {
    if j.name in g.nodes then g else g.(nodes := g.nodes[j.name := j])
  }

  /** The inner loop of `BuildGraph`: for every dependency name, look the job up,
      add its node if missing, and add the edge dependency -> job. */
  function AddDeps(byName: map<string, Job>, g: Graph, name: string, deps: seq<string>): Result<Graph, GraphError>
    decreases |deps|
  {
    if deps == [] then Success(g)
    else if deps[0] !in byName then Failure(DependencyNotFound(deps[0]))
    else
      var d := byName[deps[0]];
      var g1 := AddNode(g, d);
      AddDeps(byName, g1.(edges := g1.edges + {Edge(d.name, name)}), name, deps[1..])
  }

  /** The outer loop of `BuildGraph`, over the remaining jobs. */
  function Build(byName: map<string, Job>, g: Graph, jobs: seq<Job>): Result<Graph, GraphError>
    decreases |jobs|
  {
    if jobs == [] then Success(g)
    else
      match AddDeps(byName, AddNode(g, jobs[0]), jobs[0].name, jobs[0].deps)
      case Failure(e) => Failure(e)
      case Success(g1) => Build(byName, g1, jobs[1..])
  }

  /** Every node holds a job of `all` keyed by its own name, and edges join nodes. */
  ghost predicate Holds(g: Graph, all: seq<Job>)
  {
    && Valid(g)
    && (forall n :: n in g.nodes ==> g.nodes[n] in all)
  }

  /** `byName` maps names to jobs of `all` carrying that name. */
  ghost predicate Lookup(byName: map<string, Job>, all: seq<Job>)
  {
    forall n :: n in byName ==> byName[n].name == n && byName[n] in all
  }

  lemma {:induction false} AddDepsSpec(byName: map<string, Job>, all: seq<Job>, g: Graph, name: string, deps: seq<string>)
    requires Lookup(byName, all)
    requires Holds(g, all) && name in g.nodes
    ensures var r := AddDeps(byName, g, name, deps);
            && (r.Failure? <==> FirstUndeclared(deps, byName.Keys).Some?)
            && (r.Failure? ==> r.error == DependencyNotFound(FirstUndeclared(deps, byName.Keys).value))
            && (r.Success? ==>
                  && Holds(r.value, all)
                  && r.value.nodes.Keys == g.nodes.Keys + (set d | d in deps)
                  && r.value.edges == g.edges + (set d | d in deps :: Edge(d, name)))
    decreases |deps|
  {
    if deps == [] {
    } else if deps[0] !in byName {
    } else {
      var d := byName[deps[0]];
      var g1 := AddNode(g, d);
      var g2 := g1.(edges := g1.edges + {Edge(d.name, name)});
      assert Holds(g2, all);
      AddDepsSpec(byName, all, g2, name, deps[1..]);
      assert forall x :: x in deps <==> x == deps[0] || x in deps[1..];
    }
  }

  lemma NamesCons(jobs: seq<Job>)
    requires jobs != []
    ensures Names(jobs) == {jobs[0].name} + Names(jobs[1..])
  {
    assert forall x :: x in jobs <==> x == jobs[0] || x in jobs[1..];
  }

  /** The names of all declared dependencies, as a set. */
  function DepNames(jobs: seq<Job>): set<string>
  {
    set d | d in AllDeps(jobs)
  }

  lemma DepNamesCons(jobs: seq<Job>)
    requires jobs != []
    ensures DepNames(jobs) == (set d | d in jobs[0].deps) + DepNames(jobs[1..])
  {
    assert AllDeps(jobs) == jobs[0].deps + AllDeps(jobs[1..]);
  }

  lemma {:induction false} BuildFails(byName: map<string, Job>, all: seq<Job>, g: Graph, jobs: seq<Job>)
    requires Lookup(byName, all)
    requires Holds(g, all)
    requires forall j :: j in jobs ==> j in all
    ensures var r := Build(byName, g, jobs);
            && (r.Failure? <==> FirstUndeclared(AllDeps(jobs), byName.Keys).Some?)
            && (r.Failure? ==> r.error == DependencyNotFound(FirstUndeclared(AllDeps(jobs), byName.Keys).value))
            && (r.Success? ==> Holds(r.value, all))
    decreases |jobs|
  {
    if jobs != [] {
      var j := jobs[0];
      var g0 := AddNode(g, j);
      assert Holds(g0, all) by { assert j in all; }
      AddDepsSpec(byName, all, g0, j.name, j.deps);
      assert AllDeps(jobs) == j.deps + AllDeps(jobs[1..]);
      FirstUndeclaredAppend(j.deps, AllDeps(jobs[1..]), byName.Keys);
      var a := AddDeps(byName, g0, j.name, j.deps);
      if a.Success? {
        assert forall x :: x in jobs[1..] ==> x in jobs;
        BuildFails(byName, all, a.value, jobs[1..]);
      }
    }
  }

  lemma {:induction false} BuildNodes(byName: map<string, Job>, all: seq<Job>, g: Graph, jobs: seq<Job>)
    requires Lookup(byName, all)
    requires Holds(g, all)
    requires forall j :: j in jobs ==> j in all
    requires Build(byName, g, jobs).Success?
    ensures forall n :: n in Build(byName, g, jobs).value.nodes
                        <==> n in g.nodes || n in Names(jobs) || n in DepNames(jobs)
    decreases |jobs|
  {
    if jobs != [] {
      var j := jobs[0];
      var g0 := AddNode(g, j);
      assert Holds(g0, all) by { assert j in all; }
      AddDepsSpec(byName, all, g0, j.name, j.deps);
      var a := AddDeps(byName, g0, j.name, j.deps);
      assert forall x :: x in jobs[1..] ==> x in jobs;
      BuildNodes(byName, all, a.value, jobs[1..]);
      NamesCons(jobs);
      DepNamesCons(jobs);
      assert Build(byName, g, jobs) == Build(byName, a.value, jobs[1..]);
    }
  }

  lemma {:induction false} BuildEdges(byName: map<string, Job>, all: seq<Job>, g: Graph, jobs: seq<Job>)
    requires Lookup(byName, all)
    requires Holds(g, all)
    requires forall j :: j in jobs ==> j in all
    requires Build(byName, g, jobs).Success?
    ensures Build(byName, g, jobs).value.edges == g.edges + DeclaredEdges(jobs)
    decreases |jobs|
  {
    if jobs != [] {
      var j := jobs[0];
      var g0 := AddNode(g, j);
      assert Holds(g0, all) by { assert j in all; }
      AddDepsSpec(byName, all, g0, j.name, j.deps);
      var a := AddDeps(byName, g0, j.name, j.deps);
      assert forall x :: x in jobs[1..] ==> x in jobs;
      BuildEdges(byName, all, a.value, jobs[1..]);
    }
  }

  /** The first undeclared dependency exists exactly when some job names a
      dependency that is not a configured job. */
  lemma AllDeclared(jobs: seq<Job>)
    ensures FirstUndeclared(AllDeps(jobs), Names(jobs)).None?
            <==> forall j, d :: j in jobs && d in j.deps ==> d in Names(jobs)
  {
    AllDepsMembers(jobs);
    var s := AllDeps(jobs);
    if FirstUndeclared(s, Names(jobs)).None? {
      forall j, d | j in jobs && d in j.deps ensures d in Names(jobs) {
        assert d in s;
      }
    } else {
      var i :| 0 <= i < |s| && s[i] !in Names(jobs);
      assert s[i] in s;
    }
  }

  /** `NewJobGraph`/`BuildGraph`: one node per distinct job name, one edge per
      declared dependency pointing from the dependency to its dependent, or
      `DependencyNotFound` naming the first undeclared dependency in job order and
      then declaration order. Cycles are not rejected here. */
  function BuildGraph(jobs: seq<Job>): (r: Result<Graph, GraphError>)
    ensures r.Success? <==> forall j, d :: j in jobs && d in j.deps ==> d in Names(jobs)
    ensures r.Failure? ==> exists d :: FirstUndeclared(AllDeps(jobs), Names(jobs)) == Some(d)
                                       && r.error == DependencyNotFound(d)
    ensures r.Success? ==> && Valid(r.value)
                           && r.value.nodes.Keys == Names(jobs)
                           && r.value.edges == DeclaredEdges(jobs)
                           && forall n :: n in r.value.nodes ==> r.value.nodes[n] in jobs
  {
    var byName := LastByName(jobs);
    var empty := Graph(map[], {});
    var r := Build(byName, empty, jobs);
    BuildFails(byName, jobs, empty, jobs);
    AllDeclared(jobs);
    assert r.Success? ==> r.value.nodes.Keys == Names(jobs) && r.value.edges == DeclaredEdges(jobs) by {
      if r.Success? {
        BuildNodes(byName, jobs, empty, jobs);
        BuildEdges(byName, jobs, empty, jobs);
        AllDepsMembers(jobs);
        forall n | n in DepNames(jobs) ensures n in Names(jobs) {
          assert n in AllDeps(jobs);
          var i :| 0 <= i < |AllDeps(jobs)| && AllDeps(jobs)[i] == n;
        }
      }
    }
    r
  }

  /** With distinct names, the node for each job's name holds exactly that job. */
  lemma NodeHoldsItsJob(jobs: seq<Job>, i: nat)
    requires UniqueNames(jobs) && i < |jobs|
    requires BuildGraph(jobs).Success?
    ensures jobs[i].name in BuildGraph(jobs).value.nodes
    ensures BuildGraph(jobs).value.nodes[jobs[i].name] == jobs[i]
  {
    var g := BuildGraph(jobs).value;
    var n := jobs[i].name;
    assert n in Names(jobs);
    var k :| 0 <= k < |jobs| && jobs[k] == g.nodes[n];
  }

  /** An edge of the built graph runs from `d` to `j` exactly when job `j` declares
      `d` as a dependency: never from a job to its dependency. */
  lemma EdgeDirection(jobs: seq<Job>, e: Edge)
    requires BuildGraph(jobs).Success?
    ensures e in BuildGraph(jobs).value.edges <==> exists j :: j in jobs && j.name == e.to && e.from in j.deps
  {
    DeclaredEdgesMembers(jobs);
  }
}
