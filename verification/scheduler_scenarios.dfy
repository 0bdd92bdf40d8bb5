/** Small runs of the scheduler on two jobs, `B` depending on `A`. */
module SchedulerScenarios {
  import opened Wrappers
  import opened Jobs
  import opened JobGraph
  import opened GraphOrder
  import opened Scheduler

  const JobA := Job("A", [], false, "")
  const JobB := Job("B", ["A"], false, "")

  /** The graph of `A <- B`. */
  const Chain := Graph(map["A" := JobA, "B" := JobB], {Edge("A", "B")})

  /** `BuildGraph` turns the job list `[A, B]` into `Chain`. */
  lemma ChainBuilt()
    ensures BuildGraph([JobA, JobB]) == Success(Chain)
  {
    var jobs := [JobA, JobB];
    var r := BuildGraph(jobs);
    assert Names(jobs) == {"A", "B"} by {
      assert JobA in jobs && JobB in jobs;
    }
    assert r.Success? by {
      forall j, d | j in jobs && d in j.deps ensures d in Names(jobs) {
        assert j == JobA || j == JobB;
      }
    }
    assert r.value.nodes == Chain.nodes by {
      assert r.value.nodes["A"] in jobs && r.value.nodes["B"] in jobs;
    }
    forall e ensures e in r.value.edges <==> e == Edge("A", "B") {
      EdgeDirection(jobs, e);
      if e == Edge("A", "B") {
        assert JobB in jobs;
      }
    }
    assert r.value.edges == Chain.edges;
  }

  lemma ChainOrderable()
    ensures Valid(Chain) && Orderable(Chain)
  {
    assert IsTopoOrder(Chain, ["A", "B"]);
  }

  /** Both jobs reach `B`; only `A` reaches `A`. */
  lemma ChainReach(n: string)
    ensures n in Chain.nodes && Reaches(Chain, n, "B") <==> n == "A" || n == "B"
    ensures n in Chain.nodes && Reaches(Chain, n, "A") <==> n == "A"
  {
    assert IsPath(Chain, ["A", "B"]);
    assert IsPath(Chain, ["B"]);
    assert IsPath(Chain, ["A"]);
    if Reaches(Chain, "B", "A") {
      SinkReachesOnlyItself(Chain, "B", "A");
    }
  }

  /** A job with no dependents reaches nothing but itself. */
  lemma SinkReachesOnlyItself(g: Graph, a: string, b: string)
    requires forall e :: e in g.edges ==> e.from != a
    requires Reaches(g, a, b)
    ensures a == b
  {
    var p :| IsPath(g, p) && p[0] == a && p[|p| - 1] == b;
    if |p| > 1 {
      FirstEdge(g, p);
      assert false;
    }
  }

  lemma FirstEdge(g: Graph, p: seq<string>)
    requires IsPath(g, p) && |p| > 1
    ensures Edge(p[0], p[1]) in g.edges
  {
  }

  /** The settled run where A's callback fails with "boom". */
  lemma ChainFailingRun(cb: Callback, m: map<string, Outcome>)
    requires cb(JobA) == Some("boom")
    requires Settled(Chain, cb, m) && m.Keys == {"A", "B"}
    ensures m == map["A" := CallbackFailed("boom"), "B" := DependenciesFailed({"A"})]
  {
    assert m["A"] == Step(Chain, cb, "A", m);
    assert FailedDeps(Chain, "A", m) == {};
    assert m["B"] == Step(Chain, cb, "B", m);
    assert "A" in FailedDeps(Chain, "B", m);
    assert FailedDeps(Chain, "B", m) == {"A"};
  }

  /** The settled run where no callback fails. */
  lemma ChainSucceedingRun(cb: Callback, m: map<string, Outcome>)
    requires cb(JobA) == None && cb(JobB) == None
    requires Settled(Chain, cb, m) && m.Keys == {"A", "B"}
    ensures m == map["A" := Succeeded, "B" := Succeeded]
  {
    assert m["A"] == Step(Chain, cb, "A", m);
    assert FailedDeps(Chain, "A", m) == {};
    assert m["B"] == Step(Chain, cb, "B", m);
    assert FailedDeps(Chain, "B", m) == {};
  }

  lemma FailingErrors(errors: multiset<GraphError>, m: map<string, Outcome>)
    requires m == map["A" := CallbackFailed("boom"), "B" := DependenciesFailed({"A"})]
    requires forall e :: errors[e] == |set n | n in m && m[n].Error() == Some(e)|
    ensures errors == multiset{CallbackError("boom"), FailedDependencies({"A"})}
  {
    var expected := multiset{CallbackError("boom"), FailedDependencies({"A"})};
    forall e ensures errors[e] == expected[e] {
      var hits := set n | n in m && m[n].Error() == Some(e);
      if e == CallbackError("boom") {
        assert hits == {"A"};
      } else if e == FailedDependencies({"A"}) {
        assert hits == {"B"};
      } else {
        assert hits == {};
      }
    }
  }

  /** A fails and B depends on A: A keeps the callback's error, B is marked with A
      as its failed dependency without running, and two errors come back. */
  method FailedDependencyChain() returns (r: Resolution)
    ensures r.outcomes == map["A" := CallbackFailed("boom"), "B" := DependenciesFailed({"A"})]
    ensures r.errors == multiset{CallbackError("boom"), FailedDependencies({"A"})}
  {
    var cb: Callback := (j: Job) => if j.name == "A" then Some("boom") else None;
    ChainOrderable();
    r := ResolveTarget(Chain, "B", cb);
    assert r.outcomes.Keys == {"A", "B"} by {
      forall n ensures n in r.outcomes <==> n == "A" || n == "B" {
        ChainReach(n);
      }
    }
    ChainFailingRun(cb, r.outcomes);
    FailingErrors(r.errors, r.outcomes);
  }

  /** Both jobs succeed: both run, and no error comes back. */
  method SuccessfulChain() returns (r: Resolution)
    ensures r.outcomes == map["A" := Succeeded, "B" := Succeeded]
    ensures r.errors == multiset{}
  {
    var cb: Callback := (j: Job) => None;
    ChainOrderable();
    r := ResolveTarget(Chain, "B", cb);
    assert r.outcomes.Keys == {"A", "B"} by {
      forall n ensures n in r.outcomes <==> n == "A" || n == "B" {
        ChainReach(n);
      }
    }
    ChainSucceedingRun(cb, r.outcomes);
  }

  /** Targeting A alone schedules only A: B has no path to A. */
  method DependencyOnly() returns (r: Resolution)
    ensures r.outcomes.Keys == {"A"}
  {
    ChainOrderable();
    r := ResolveTarget(Chain, "A", (j: Job) => None);
    forall n ensures n in r.outcomes <==> n == "A" {
      ChainReach(n);
    }
  }

  /** A target with no matching job: exactly one error and no job runs. */
  method MissingTarget() returns (r: Resolution)
    ensures r.errors == multiset{TargetNotFound("deploy")}
    ensures r.outcomes == map[]
  {
    ChainOrderable();
    r := ResolveTarget(Chain, "deploy", (j: Job) => Some("never"));
  }

  const CycleA := Job("A", ["B"], false, "")
  const CycleB := Job("B", ["A"], false, "")

  /** The graph of `A <-> B`. */
  const Cycle := Graph(map["A" := CycleA, "B" := CycleB], {Edge("B", "A"), Edge("A", "B")})

  /** `BuildGraph` accepts the job list `[A, B]` with A and B depending on each
      other, and turns it into `Cycle`. */
  lemma CycleBuilt()
    ensures BuildGraph([CycleA, CycleB]) == Success(Cycle)
  {
    var jobs := [CycleA, CycleB];
    var r := BuildGraph(jobs);
    assert Names(jobs) == {"A", "B"} by {
      assert CycleA in jobs && CycleB in jobs;
    }
    assert r.Success? by {
      forall j, d | j in jobs && d in j.deps ensures d in Names(jobs) {
        assert j == CycleA || j == CycleB;
      }
    }
    assert r.value.nodes == Cycle.nodes by {
      assert r.value.nodes["A"] in jobs && r.value.nodes["B"] in jobs;
    }
    forall e ensures e in r.value.edges <==> e == Edge("B", "A") || e == Edge("A", "B") {
      EdgeDirection(jobs, e);
      if e == Edge("B", "A") {
        assert CycleA in jobs;
      }
      if e == Edge("A", "B") {
        assert CycleB in jobs;
      }
    }
    assert r.value.edges == Cycle.edges;
  }

  /** A and B depend on each other: the graph still builds, but resolving either
      job reports that the graph cannot be ordered and runs nothing. */
  method MutualDependency() returns (r: Resolution)
    ensures BuildGraph([CycleA, CycleB]).Success?
    ensures r == Resolution(multiset{Unorderable}, map[])
  {
    CycleBuilt();
    var g := BuildGraph([CycleA, CycleB]).value;
    assert IsPath(g, ["A", "B", "A"]);
    CycleUnorderable(g, ["A", "B", "A"]);
    r := ResolveTarget(g, "A", (j: Job) => None);
  }
}
