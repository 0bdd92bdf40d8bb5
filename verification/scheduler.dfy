/** The dependency-aware scheduler (`WaitForDeps` and `ResolveTarget` in
    pkg/graph/graph.go) as a sequential simulation: goroutines only enforce that a
    job starts after its direct dependencies finished, so running the selected jobs
    one by one in topological order yields the same outcomes. */
module Scheduler {
  import opened Wrappers
  import opened Jobs
  import opened JobGraph
  import opened GraphOrder

  /** The execution callback as an oracle: nil error (`None`) or an error message. */
  type Callback = Job -> Option<string>

  /** How a scheduled job ended: `job.Error` after its task returned. */
  datatype Outcome =
    | Succeeded
    | CallbackFailed(message: string)
    | DependenciesFailed(deps: set<string>)
  {
    /** The job's final error is non-nil. */
    predicate Failed()
    {
      !Succeeded?
    }

    /** The callback ran for this job. */
    predicate Invoked()
    {
      !DependenciesFailed?
    }

    /** The error the job's task returns. */
    function Error(): Option<GraphError>
    {
      match this
      case Succeeded => None
      case CallbackFailed(msg) => Some(CallbackError(msg))
      case DependenciesFailed(deps) => Some(FailedDependencies(deps))
    }
  }

  /** What `ResolveTarget` leaves behind: the returned errors (a multiset, since
      concurrent tasks append them in no fixed order) and the outcome of every job
      it scheduled. */
  datatype Resolution = Resolution(errors: multiset<GraphError>, outcomes: map<string, Outcome>)

  /** The direct dependencies of `n` that have an outcome and failed. */
  function FailedDeps(g: Graph, n: string, m: map<string, Outcome>): set<string>
  {
    set e | e in g.edges && e.to == n && e.from in m && m[e.from].Failed() :: e.from
  }

  /** Some direct dependency of `n` ended with an error. */
  ghost predicate HasFailedDep(g: Graph, m: map<string, Outcome>, n: string)
  {
    exists p :: p in m && Edge(p, n) in g.edges && m[p].Failed()
  }

  /** One task of `WaitForDeps`: with failed dependencies the job is marked
      "Failed dependencies" and the callback is skipped; otherwise the callback's
      result is the job's outcome (a service job's callback runs in the background,
      but its goroutine still waits for it, so its result is recorded the same way). */
  function Step(g: Graph, cb: Callback, n: string, m: map<string, Outcome>): Outcome
    requires n in g.nodes
  {
    var failed := FailedDeps(g, n, m);
    if failed != {} then DependenciesFailed(failed)
    else
      match cb(g.nodes[n])
      case None => Succeeded
      case Some(msg) => CallbackFailed(msg)
  }

  /** Every recorded outcome is what its task computes from the recorded outcomes of
      its direct dependencies. */
  ghost predicate Settled(g: Graph, cb: Callback, m: map<string, Outcome>)
  {
    && (forall n :: n in m ==> n in g.nodes)
    && (forall n {:trigger Step(g, cb, n, m)} :: n in m ==> m[n] == Step(g, cb, n, m))
  }

  /** Runs the jobs of `s` that belong to `sel`, in the order of `s`. */
  function Simulate(g: Graph, cb: Callback, sel: set<string>, s: seq<string>): map<string, Outcome>
    requires forall i :: 0 <= i < |s| ==> s[i] in g.nodes
  {
    if s == [] then map[]
    else
      var m := Simulate(g, cb, sel, s[..|s| - 1]);
      var n := s[|s| - 1];
      if n in sel then m[n := Step(g, cb, n, m)] else m
  }

  /** The errors of the jobs of `s` that have an outcome, in the order of `s`. */
  function Collect(s: seq<string>, m: map<string, Outcome>): multiset<GraphError>
  {
    if s == [] then multiset{}
    else
      var rest := Collect(s[..|s| - 1], m);
      var n := s[|s| - 1];
      if n in m && m[n].Error().Some? then rest + multiset{m[n].Error().value} else rest
  }

  /** Every selected job of `s` comes after all its direct dependencies, which are
      selected too. */
  ghost predicate PredsEarlier(g: Graph, sel: set<string>, s: seq<string>)
  {
    forall i, e :: 0 <= i < |s| && s[i] in sel && e in g.edges && e.to == s[i]
                   ==> e.from in sel && e.from in s[..i]
  }

  /** Outcomes computed from maps that agree on the direct dependencies of `n` agree. */
  lemma StepAgrees(g: Graph, cb: Callback, n: string, m1: map<string, Outcome>, m2: map<string, Outcome>)
    requires n in g.nodes
    requires forall e :: e in g.edges && e.to == n ==>
                (e.from in m1 <==> e.from in m2) && (e.from in m1 ==> m1[e.from] == m2[e.from])
    ensures FailedDeps(g, n, m1) == FailedDeps(g, n, m2)
    ensures Step(g, cb, n, m1) == Step(g, cb, n, m2)
  {
  }

  lemma {:induction false} SimulateSettled(g: Graph, cb: Callback, sel: set<string>, s: seq<string>)
    requires Valid(g) && Distinct(s)
    requires forall i :: 0 <= i < |s| ==> s[i] in g.nodes
    requires PredsEarlier(g, sel, s)
    ensures forall n :: n in Simulate(g, cb, sel, s) <==> n in sel && n in s
    ensures Settled(g, cb, Simulate(g, cb, sel, s))
  {
    if s != [] {
      var s' := s[..|s| - 1];
      var x := s[|s| - 1];
      assert forall i :: 0 <= i < |s'| ==> s'[..i] == s[..i];
      SimulateSettled(g, cb, sel, s');
      var m' := Simulate(g, cb, sel, s');
      var m := Simulate(g, cb, sel, s);
      assert s == s' + [x];
      assert x !in s';
      if x in sel {
        assert m == m'[x := Step(g, cb, x, m')];
        forall y | y in m ensures m[y] == Step(g, cb, y, m) {
          if y == x {
            assert s'== s[..|s| - 1];
            StepAgrees(g, cb, x, m', m);
          } else {
            var i :| 0 <= i < |s'| && s'[i] == y;
            assert s[i] == y;
            StepAgrees(g, cb, y, m', m);
          }
        }
      }
    }
  }

  lemma {:induction false} CollectCounts(s: seq<string>, m: map<string, Outcome>, e: GraphError)
    requires Distinct(s)
    ensures Collect(s, m)[e] == |set n | n in s && n in m && m[n].Error() == Some(e)|
  {
    if s != [] {
      var s' := s[..|s| - 1];
      var x := s[|s| - 1];
      CollectCounts(s', m, e);
      assert s == s' + [x];
      var a := set n | n in s' && n in m && m[n].Error() == Some(e);
      var b := set n | n in s && n in m && m[n].Error() == Some(e);
      if x in m && m[x].Error() == Some(e) {
        assert b == a + {x};
        assert x !in a;
      } else {
        assert b == a;
      }
    }
  }

  lemma {:induction false} CollectSize(s: seq<string>, m: map<string, Outcome>)
    requires Distinct(s)
    ensures |Collect(s, m)| == |set n | n in s && n in m && m[n].Failed()|
  {
    if s != [] {
      var s' := s[..|s| - 1];
      var x := s[|s| - 1];
      CollectSize(s', m);
      assert s == s' + [x];
      var a := set n | n in s' && n in m && m[n].Failed();
      var b := set n | n in s && n in m && m[n].Failed();
      if x in m && m[x].Failed() {
        assert b == a + {x};
        assert x !in a;
      } else {
        assert b == a;
      }
    }
  }

  /** A topological order lists the dependencies of every job of a
      dependency-closed set before the job. */
  lemma TopoPredsEarlier(g: Graph, o: seq<string>, sel: set<string>)
    requires Valid(g) && IsTopoOrder(g, o) && PredClosed(g, sel)
    ensures PredsEarlier(g, sel, o)
  {
    forall i, e | 0 <= i < |o| && o[i] in sel && e in g.edges && e.to == o[i]
      ensures e.from in sel && e.from in o[..i]
    {
      assert e.from in g.nodes;
      var j :| 0 <= j < |o| && o[j] == e.from;
      assert j < i;
      assert o[..i][j] == e.from;
    }
  }

  /** The body of `ResolveTarget` once the target exists and the sort succeeded:
      run every job with a path to the target, in the sorted order, and collect the
      errors. */
  function Schedule(g: Graph, target: string, cb: Callback, sorted: seq<string>): (r: Resolution)
    requires Valid(g) && target in g.nodes && IsTopoOrder(g, sorted)
    ensures r.outcomes.Keys == Ancestors(g, target)
    ensures Settled(g, cb, r.outcomes)
    ensures forall e :: r.errors[e] == |set n | n in r.outcomes && r.outcomes[n].Error() == Some(e)|
    ensures |r.errors| == |set n | n in r.outcomes && r.outcomes[n].Failed()|
  {
    var sel := Ancestors(g, target);
    TopoPredsEarlier(g, sorted, sel);
    SimulateSettled(g, cb, sel, sorted);
    var m := Simulate(g, cb, sel, sorted);
    assert m.Keys == sel by {
      forall n | n in sel ensures n in sorted {
        assert n in g.nodes;
      }
    }
    assert forall n :: n in m ==> n in sorted;
    forall e ensures Collect(sorted, m)[e] == |set n | n in m && m[n].Error() == Some(e)| {
      CollectCounts(sorted, m, e);
      assert (set n | n in sorted && n in m && m[n].Error() == Some(e))
             == (set n | n in m && m[n].Error() == Some(e));
    }
    CollectSize(sorted, m);
    assert (set n | n in sorted && n in m && m[n].Failed()) == (set n | n in m && m[n].Failed());
    Resolution(Collect(sorted, m), m)
  }

  /** The failure-propagation rule, read off a settled outcome map: a job fails
      exactly when its callback fails or a direct dependency failed, its callback
      runs exactly when no direct dependency failed, and "Failed dependencies" lists
      exactly the failed direct dependencies. */
  lemma SettledMeaning(g: Graph, cb: Callback, m: map<string, Outcome>, n: string)
    requires Settled(g, cb, m) && n in m
    ensures m[n].Failed() <==> cb(g.nodes[n]).Some? || HasFailedDep(g, m, n)
    ensures m[n].Invoked() <==> !HasFailedDep(g, m, n)
    ensures m[n].DependenciesFailed? ==> m[n].deps == FailedDeps(g, n, m)
    ensures m[n].Invoked() ==> m[n].Error() == (match cb(g.nodes[n])
                                                 case None => None
                                                 case Some(msg) => Some(CallbackError(msg)))
  {
    assert m[n] == Step(g, cb, n, m);
    if HasFailedDep(g, m, n) {
      var p :| p in m && Edge(p, n) in g.edges && m[p].Failed();
      assert p in FailedDeps(g, n, m);
    }
    if FailedDeps(g, n, m) != {} {
      var p :| p in FailedDeps(g, n, m);
      var e :| e in g.edges && e.to == n && e.from in m && m[e.from].Failed() && e.from == p;
      assert Edge(p, n) == e;
    }
  }

  lemma PredsAgree(g: Graph, m1: map<string, Outcome>, m2: map<string, Outcome>, o: seq<string>, k: nat)
    requires Valid(g) && IsTopoOrder(g, o) && 0 < k <= |o|
    requires m1.Keys == m2.Keys
    requires forall i :: 0 <= i < k - 1 && o[i] in m1 ==> m1[o[i]] == m2[o[i]]
    ensures forall e :: e in g.edges && e.to == o[k - 1] ==>
              (e.from in m1 <==> e.from in m2) && (e.from in m1 ==> m1[e.from] == m2[e.from])
  {
    forall e | e in g.edges && e.to == o[k - 1]
      ensures (e.from in m1 <==> e.from in m2) && (e.from in m1 ==> m1[e.from] == m2[e.from])
    {
      assert e.from in g.nodes;
      var j :| 0 <= j < |o| && o[j] == e.from;
      assert j < k - 1;
    }
  }

  lemma {:induction false} SettledAgreeUpTo(g: Graph, cb: Callback, m1: map<string, Outcome>, m2: map<string, Outcome>,
                                            o: seq<string>, k: nat)
    requires Valid(g) && IsTopoOrder(g, o) && k <= |o|
    requires m1.Keys == m2.Keys
    requires Settled(g, cb, m1) && Settled(g, cb, m2)
    ensures forall i :: 0 <= i < k && o[i] in m1 ==> m1[o[i]] == m2[o[i]]
  {
    if k > 0 {
      SettledAgreeUpTo(g, cb, m1, m2, o, k - 1);
      var x := o[k - 1];
      assert x in m1 ==> m1[x] == m2[x] by {
        if x in m1 {
          PredsAgree(g, m1, m2, o, k);
          StepAgrees(g, cb, x, m1, m2);
          assert m1[x] == Step(g, cb, x, m1);
          assert m2[x] == Step(g, cb, x, m2);
        }
      }
      forall i | 0 <= i < k && o[i] in m1 ensures m1[o[i]] == m2[o[i]] {
        if i == k - 1 {
          assert o[i] == x;
        }
      }
    }
  }

  /** On a graph with a topological order, the failure-propagation rule fixes every
      outcome: two settled maps over the same dependency-closed set of jobs are
      equal. So the outcome of a run depends only on the graph and the callback,
      not on the order in which the sort or the goroutines happened to run jobs. */
  lemma SettledUnique(g: Graph, cb: Callback, m1: map<string, Outcome>, m2: map<string, Outcome>)
    requires Valid(g) && Orderable(g)
    requires m1.Keys == m2.Keys
    requires Settled(g, cb, m1) && Settled(g, cb, m2)
    ensures m1 == m2
  {
    var o :| IsTopoOrder(g, o);
    SettledAgreeUpTo(g, cb, m1, m2, o, |o|);
    assert m1.Keys <= g.nodes.Keys;
    forall n | n in m1 ensures m1[n] == m2[n] {
      var i :| 0 <= i < |o| && o[i] == n;
    }
  }

  /** Whatever topological order the sort returns, the run ends the same way:
      the same outcome for every job and the same errors. */
  lemma ScheduleIgnoresOrder(g: Graph, target: string, cb: Callback, o1: seq<string>, o2: seq<string>)
    requires Valid(g) && target in g.nodes && IsTopoOrder(g, o1) && IsTopoOrder(g, o2)
    ensures Schedule(g, target, cb, o1) == Schedule(g, target, cb, o2)
  {
    var r1 := Schedule(g, target, cb, o1);
    var r2 := Schedule(g, target, cb, o2);
    SettledUnique(g, cb, r1.outcomes, r2.outcomes);
    assert forall e :: r1.errors[e] == r2.errors[e];
    assert r1.errors == r2.errors;
  }

  /** `ResolveTarget`: an unknown target or a graph the sort cannot order yields
      exactly one error and runs nothing; otherwise exactly the jobs with a path to
      the target run, each by the failure-propagation rule, and every failed job
      contributes its error once. */
  method ResolveTarget(g: Graph, target: string, cb: Callback) returns (r: Resolution)
    requires Valid(g)
    ensures target !in g.nodes ==> r == Resolution(multiset{TargetNotFound(target)}, map[])
    ensures target in g.nodes && !Orderable(g) ==> r == Resolution(multiset{Unorderable}, map[])
    ensures target in g.nodes && Orderable(g) ==>
              && (forall n :: n in r.outcomes <==> n in g.nodes && Reaches(g, n, target))
              && PredClosed(g, r.outcomes.Keys)
              && Settled(g, cb, r.outcomes)
              && (forall n :: n in r.outcomes ==>
                    && (r.outcomes[n].Failed() <==> cb(g.nodes[n]).Some? || HasFailedDep(g, r.outcomes, n))
                    && (r.outcomes[n].Invoked() <==> !HasFailedDep(g, r.outcomes, n))
                    && (r.outcomes[n].DependenciesFailed? ==> r.outcomes[n].deps == FailedDeps(g, n, r.outcomes)))
              && (forall e :: r.errors[e] == |set n | n in r.outcomes && r.outcomes[n].Error() == Some(e)|)
              && |r.errors| == |set n | n in r.outcomes && r.outcomes[n].Failed()|
              && (r.errors == multiset{} <==> forall n :: n in r.outcomes ==> r.outcomes[n] == Succeeded)
  {
    if target !in g.nodes {
      return Resolution(multiset{TargetNotFound(target)}, map[]);
    }
    var sorted := TopoSort(g);
    if sorted.Failure? {
      return Resolution(multiset{Unorderable}, map[]);
    }
    r := Schedule(g, target, cb, sorted.value);
    forall n | n in r.outcomes
      ensures && (r.outcomes[n].Failed() <==> cb(g.nodes[n]).Some? || HasFailedDep(g, r.outcomes, n))
              && (r.outcomes[n].Invoked() <==> !HasFailedDep(g, r.outcomes, n))
              && (r.outcomes[n].DependenciesFailed? ==> r.outcomes[n].deps == FailedDeps(g, n, r.outcomes))
    {
      SettledMeaning(g, cb, r.outcomes, n);
    }
    var failed := set n | n in r.outcomes && r.outcomes[n].Failed();
    if r.errors == multiset{} {
      assert failed == {};
      forall n | n in r.outcomes ensures r.outcomes[n] == Succeeded {
        assert n !in failed;
      }
    } else {
      assert failed != {};
    }
  }
}
