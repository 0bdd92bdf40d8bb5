/** Reachability and topological ordering of the job graph: the two services the
    scheduler takes from its graph library (`topo.PathExistsIn` and `topo.Sort`
    in pkg/graph/graph.go), given here as definitions with their proofs. */
module GraphOrder {
  import opened Wrappers
  import opened JobGraph

  /** No name occurs twice. */
  predicate Distinct(s: seq<string>)
  {
    forall i, j :: 0 <= i < j < |s| ==> s[i] != s[j]
  }

  /** `p` is a walk along edges, starting at a node. */
  ghost predicate IsPath(g: Graph, p: seq<string>)
  {
    && |p| >= 1
    && p[0] in g.nodes
    && forall i :: 0 <= i < |p| - 1 ==> Edge(p[i], p[i + 1]) in g.edges
  }

  /** Reflexive-transitive reachability: a path from `a` to `b` exists. */
  ghost predicate Reaches(g: Graph, a: string, b: string)
  {
    exists p :: IsPath(g, p) && p[0] == a && p[|p| - 1] == b
  }

  /** Every direct dependency of a member of `s` is itself a member. */
  predicate PredClosed(g: Graph, s: set<string>)
  {
    forall e :: e in g.edges && e.to in s ==> e.from in s
  }

  /** Grows `seen` by direct dependencies until nothing new is added. */
  function AncestorsFrom(g: Graph, seen: set<string>): (r: set<string>)
    requires Valid(g) && seen <= g.nodes.Keys
    ensures seen <= r <= g.nodes.Keys
    ensures PredClosed(g, r)
    decreases |g.nodes.Keys - seen|
  {
    var next := seen + (set e | e in g.edges && e.to in seen :: e.from);
    if next == seen then seen
    else
      var x :| x in next && x !in seen;
      SubsetSize(g.nodes.Keys - next, g.nodes.Keys - seen - {x});
      AncestorsFrom(g, next)
  }

  lemma {:induction false} SubsetSize<T>(a: set<T>, b: set<T>)
    requires a <= b
    ensures |a| <= |b|
  {
    if a != {} {
      var y :| y in a;
      SubsetSize(a - {y}, b - {y});
    }
  }

  /** A path to `t` extends backwards along an edge. */
  lemma ReachesBack(g: Graph, x: string, y: string, t: string)
    requires x in g.nodes && Edge(x, y) in g.edges && Reaches(g, y, t)
    ensures Reaches(g, x, t)
  {
    var p :| IsPath(g, p) && p[0] == y && p[|p| - 1] == t;
    var q := [x] + p;
    assert IsPath(g, q) by {
      forall i | 0 <= i < |q| - 1 ensures Edge(q[i], q[i + 1]) in g.edges {
        if i > 0 { assert q[i] == p[i - 1] && q[i + 1] == p[i]; }
      }
    }
  }

  lemma {:induction false} AncestorsFromSound(g: Graph, seen: set<string>, t: string)
    requires Valid(g) && seen <= g.nodes.Keys
    requires forall x :: x in seen ==> Reaches(g, x, t)
    ensures forall x :: x in AncestorsFrom(g, seen) ==> Reaches(g, x, t)
    decreases |g.nodes.Keys - seen|
  {
    var next := seen + (set e | e in g.edges && e.to in seen :: e.from);
    if next != seen {
      forall x | x in next ensures Reaches(g, x, t) {
        if x !in seen {
          var e :| e in g.edges && e.to in seen && e.from == x;
          ReachesBack(g, x, e.to, t);
        }
      }
      var x :| x in next && x !in seen;
      SubsetSize(g.nodes.Keys - next, g.nodes.Keys - seen - {x});
      AncestorsFromSound(g, next, t);
    }
  }

  /** A dependency-closed set holding `t` holds every node with a path to `t`. */
  lemma {:induction false} ClosedHoldsAncestors(g: Graph, s: set<string>, p: seq<string>)
    requires Valid(g) && PredClosed(g, s)
    requires IsPath(g, p) && p[|p| - 1] in s
    ensures p[0] in s
    decreases |p|
  {
    if |p| > 1 {
      assert IsPath(g, p[1..]) by {
        assert Edge(p[0], p[1]) in g.edges;
        forall i | 0 <= i < |p[1..]| - 1 ensures Edge(p[1..][i], p[1..][i + 1]) in g.edges {
          assert p[1..][i] == p[i + 1] && p[1..][i + 1] == p[i + 2];
        }
      }
      ClosedHoldsAncestors(g, s, p[1..]);
      assert Edge(p[0], p[1]) in g.edges;
    }
  }

  /** The nodes `ResolveTarget` schedules: those with a path to the target, the
      target included. */
  function Ancestors(g: Graph, target: string): (r: set<string>)
    requires Valid(g) && target in g.nodes
    ensures target in r && r <= g.nodes.Keys
    ensures PredClosed(g, r)
    ensures forall n :: n in r <==> n in g.nodes && Reaches(g, n, target)
  {
    var r := AncestorsFrom(g, {target});
    assert Reaches(g, target, target) by {
      assert IsPath(g, [target]);
    }
    AncestorsFromSound(g, {target}, target);
    forall n | n in g.nodes && Reaches(g, n, target) ensures n in r {
      var p :| IsPath(g, p) && p[0] == n && p[|p| - 1] == target;
      ClosedHoldsAncestors(g, r, p);
    }
    r
  }

  /** `o` lists every node once, and no edge runs from a node to one at or before
      it: each job comes after all of its dependencies. */
  predicate IsTopoOrder(g: Graph, o: seq<string>)
  {
    && Distinct(o)
    && (forall i :: 0 <= i < |o| ==> o[i] in g.nodes)
    && (forall n :: n in g.nodes ==> n in o)
    && NoBackEdge(g, o)
  }

  /** No edge runs from a node of `o` to one at or before it. */
  predicate NoBackEdge(g: Graph, o: seq<string>)
  {
    forall i, j :: 0 <= i <= j < |o| ==> Edge(o[j], o[i]) !in g.edges
  }

  /** Some topological order of the graph exists. */
  ghost predicate Orderable(g: Graph)
  {
    exists o :: IsTopoOrder(g, o)
  }

  /** A non-empty set of nodes each of which has a direct dependency inside the
      set: what is left when no further node can be ordered. */
  ghost predicate CyclicCore(g: Graph, s: set<string>)
  {
    && s != {}
    && s <= g.nodes.Keys
    && s <= Successors(g, s)
  }

  /** The nodes with a direct dependency in `s`. */
  function Successors(g: Graph, s: set<string>): set<string>
  {
    set e | e in g.edges && e.from in s :: e.to
  }

  lemma {:induction false} CorePrefixFree(g: Graph, s: set<string>, o: seq<string>, k: nat)
    requires s <= Successors(g, s) && NoBackEdge(g, o) && k <= |o|
    requires forall n :: n in s ==> n in o
    ensures forall i :: 0 <= i < k ==> o[i] !in s
  {
    if k > 0 {
      CorePrefixFree(g, s, o, k - 1);
      if o[k - 1] in s {
        assert false;
      }
    }
  }

  /** A cyclic core rules out every topological order. */
  lemma CoreUnorderable(g: Graph, s: set<string>)
    requires CyclicCore(g, s)
    ensures !Orderable(g)
  {
    if o :| IsTopoOrder(g, o) {
      CorePrefixFree(g, s, o, |o|);
      assert false;
    }
  }

  /** A dependency cycle (a path of at least one edge returning to its start)
      leaves the graph without a topological order. */
  lemma CycleUnorderable(g: Graph, p: seq<string>)
    requires Valid(g)
    requires IsPath(g, p) && |p| >= 2 && p[0] == p[|p| - 1]
    ensures !Orderable(g)
  {
    var s := set i | 1 <= i < |p| :: p[i];
    forall n | n in s ensures n in Successors(g, s) {
      var i :| 1 <= i < |p| && p[i] == n;
      if i == 1 {
        assert p[|p| - 2] in s by {
          if |p| == 2 { assert p[|p| - 2] == p[|p| - 1]; }
        }
        assert Edge(p[0], p[1]) in g.edges;
        assert Edge(p[0], p[1]).from in s;
      } else {
        assert Edge(p[i - 1], p[i]) in g.edges;
        assert p[i - 1] in s;
      }
    }
    assert p[1] in s;
    CoreUnorderable(g, s);
  }

  /** No ready node has a dependency still waiting in `rest`. */
  predicate Ready(g: Graph, n: string, rest: set<string>)
  {
    forall e :: e in g.edges && e.to == n ==> e.from !in rest
  }

  /** The nodes of `rest` whose dependencies have all left `rest`. */
  function ReadyIn(g: Graph, rest: set<string>): set<string>
  {
    set n | n in rest && Ready(g, n, rest)
  }

  /** When no node of a non-empty `rest` is ready, `rest` is a cyclic core. */
  lemma StuckIsCore(g: Graph, rest: set<string>)
    requires rest != {} && rest <= g.nodes.Keys
    requires ReadyIn(g, rest) == {}
    ensures CyclicCore(g, rest) && !Orderable(g)
  {
    forall n | n in rest ensures n in Successors(g, rest) {
      assert n !in ReadyIn(g, rest);
      var e :| e in g.edges && e.to == n && e.from in rest;
    }
    CoreUnorderable(g, rest);
  }

  /** `topo.Sort`: a topological order of the whole graph, or the set of nodes
      that could not be ordered. It fails exactly when no topological order exists. */
  method TopoSort(g: Graph) returns (r: Result<seq<string>, set<string>>)
    requires Valid(g)
    ensures r.Success? ==> IsTopoOrder(g, r.value)
    ensures r.Failure? ==> CyclicCore(g, r.error)
    ensures r.Failure? <==> !Orderable(g)
  {
    var order: seq<string> := [];
    var rest := g.nodes.Keys;
    ghost var pos: map<string, nat> := map[];
    while rest != {}
      invariant rest <= g.nodes.Keys
      invariant Distinct(order)
      invariant forall i :: 0 <= i < |order| ==> order[i] in g.nodes && order[i] !in rest
      invariant forall n :: n in pos ==> pos[n] < |order| && order[pos[n]] == n
      invariant forall n :: n in g.nodes ==> n in pos || n in rest
      invariant NoBackEdge(g, order)
      invariant forall i, e :: 0 <= i < |order| && e in g.edges && e.to == order[i] ==> e.from !in rest
      decreases |rest|
    {
      var ready := ReadyIn(g, rest);
      if ready == {} {
        StuckIsCore(g, rest);
        return Failure(rest);
      }
      var n :| n in ready;
      pos := pos[n := |order|];
      order := order + [n];
      rest := rest - {n};
    }
    assert forall n :: n in g.nodes ==> n in order by {
      forall n | n in g.nodes ensures n in order {
        assert order[pos[n]] == n;
      }
    }
    assert IsTopoOrder(g, order);
    return Success(order);
  }
}
