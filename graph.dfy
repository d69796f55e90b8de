/** The task dependency graph: tasks are nodes, and an edge (t, d) in the
    `task_dependencies` relation says that task t depends on (has as a
    prerequisite) task d. The relation is a set, so no pair occurs twice.
    This module holds the graph-theoretic vocabulary (paths, reachability,
    acyclicity) and the facts about it that the rule layer relies on. */
module Graph {

  type TaskId = int

  /** (task_id, depends_on_id): the first task depends on the second. */
  type Edge = (TaskId, TaskId)

  /** The prerequisites of `t`: the targets of its outgoing edges. */
  function Dependencies(edges: set<Edge>, t: TaskId): (ds: set<TaskId>)
    ensures forall d :: d in ds <==> (t, d) in edges
  {
    set e | e in edges && e.0 == t :: e.1
  }

  /** The dependents of `t`: the tasks with an edge into `t`. */
  function Dependents(edges: set<Edge>, t: TaskId): (ds: set<TaskId>)
    ensures forall d :: d in ds <==> (d, t) in edges
  {
    set e | e in edges && e.1 == t :: e.0
  }

  /** Every task that occurs in some edge. */
  function Nodes(edges: set<Edge>): (ns: set<TaskId>)
    ensures forall a, b :: (a, b) in edges ==> a in ns && b in ns
  {
    (set e | e in edges :: e.0) + (set e | e in edges :: e.1)
  }

  /** Every edge except those leaving `t`. */
  function WithoutDependencies(edges: set<Edge>, t: TaskId): (r: set<Edge>)
    ensures r <= edges
    ensures forall e :: e in r <==> e in edges && e.0 != t
  {
    set e | e in edges && e.0 != t
  }

  /** The edges that make `t` depend on each of `ds`. */
  function EdgesFrom(t: TaskId, ds: set<TaskId>): (r: set<Edge>)
    ensures forall u, d :: (u, d) in r <==> u == t && d in ds
  {
    set d | d in ds :: (t, d)
  }

  /** The ids listed in `ids`, as a set. */
  function Elements(ids: seq<TaskId>): (s: set<TaskId>)
    ensures forall d :: d in s <==> d in ids
  {
    set d | d in ids
  }

  /** The edge set after `t`'s prerequisites are replaced by `ds`. */
  function ReplaceDependencies(edges: set<Edge>, t: TaskId, ds: set<TaskId>): set<Edge>
  {
    WithoutDependencies(edges, t) + EdgesFrom(t, ds)
  }

  /** A non-empty sequence of tasks, each depending on the next. */
  ghost predicate IsPath(edges: set<Edge>, p: seq<TaskId>)
  {
    |p| >= 1 && forall i :: 0 <= i < |p| - 1 ==> (p[i], p[i + 1]) in edges
  }

  ghost predicate PathFromTo(edges: set<Edge>, p: seq<TaskId>, a: TaskId, b: TaskId)
  {
    IsPath(edges, p) && p[0] == a && p[|p| - 1] == b
  }

  /** `b` can be reached from `a` by following zero or more dependency edges. */
  ghost predicate Reachable(edges: set<Edge>, a: TaskId, b: TaskId)
  {
    exists p :: PathFromTo(edges, p, a, b)
  }

  /** No edge closes a cycle: the prerequisite of an edge never leads back to its task. */
  ghost predicate Acyclic(edges: set<Edge>)
  {
    forall e :: e in edges ==> !Reachable(edges, e.1, e.0)
  }

  /** The textbook notion: a path of at least one edge that returns to where it started. */
  ghost predicate HasCycle(edges: set<Edge>)
  {
    exists p :: |p| >= 2 && IsPath(edges, p) && p[0] == p[|p| - 1]
  }

  /** Every prerequisite of a member of `s` is in `s`. */
  ghost predicate ClosedUnder(edges: set<Edge>, s: set<TaskId>)
  {
    forall x :: x in s ==> Dependencies(edges, x) <= s
  }

  /** A set that is not empty has a member to pick. */
  lemma NonEmptyHasMember(s: set<TaskId>)
    ensures s == {} || exists x :: x in s
  {
    if !(exists x :: x in s) {
      assert s == {};
    }
  }

  lemma {:induction false} SubsetCardinality(small: set<TaskId>, big: set<TaskId>)
    requires small <= big
    ensures |small| <= |big|
    decreases small
  {
    if small != {} {
      NonEmptyHasMember(small);
      var x :| x in small;
      SubsetCardinality(small - {x}, big - {x});
    }
  }

  // ---------------------------------------------------------------- paths

  lemma ReachableRefl(edges: set<Edge>, a: TaskId)
    ensures Reachable(edges, a, a)
  {
    assert PathFromTo(edges, [a], a, a);
  }

  lemma ReachableStep(edges: set<Edge>, a: TaskId, b: TaskId, c: TaskId)
    requires (a, b) in edges && Reachable(edges, b, c)
    ensures Reachable(edges, a, c)
  {
    var p :| PathFromTo(edges, p, b, c);
    var q := [a] + p;
    forall i | 0 <= i < |q| - 1
      ensures (q[i], q[i + 1]) in edges
    {
      if i > 0 {
        assert q[i] == p[i - 1] && q[i + 1] == p[i];
      }
    }
    assert PathFromTo(edges, q, a, c);
  }

  lemma ReachableTrans(edges: set<Edge>, a: TaskId, b: TaskId, c: TaskId)
    requires Reachable(edges, a, b) && Reachable(edges, b, c)
    ensures Reachable(edges, a, c)
  {
    var p :| PathFromTo(edges, p, a, b);
    var q :| PathFromTo(edges, q, b, c);
    var r := p + q[1..];
    forall i | 0 <= i < |r| - 1
      ensures (r[i], r[i + 1]) in edges
    {
      if i < |p| - 1 {
        assert r[i] == p[i] && r[i + 1] == p[i + 1];
      } else {
        var j := i - |p| + 1;
        assert r[i] == q[j] && r[i + 1] == q[j + 1];
      }
    }
    assert PathFromTo(edges, r, a, c);
  }

  /** Adding edges never removes a path. */
  lemma ReachableMono(small: set<Edge>, big: set<Edge>, a: TaskId, b: TaskId)
    requires small <= big && Reachable(small, a, b)
    ensures Reachable(big, a, b)
  {
    var p :| PathFromTo(small, p, a, b);
    assert PathFromTo(big, p, a, b);
  }

  /** Removing edges keeps a graph acyclic. */
  lemma AcyclicSubset(big: set<Edge>, small: set<Edge>)
    requires small <= big && Acyclic(big)
    ensures Acyclic(small)
  {
    forall e | e in small
      ensures !Reachable(small, e.1, e.0)
    {
      if Reachable(small, e.1, e.0) {
        ReachableMono(small, big, e.1, e.0);
      }
    }
  }

  /** Acyclic agrees with the textbook definition of a cycle-free graph. */
  lemma AcyclicIffNoCycle(edges: set<Edge>)
    ensures Acyclic(edges) <==> !HasCycle(edges)
  {
    if HasCycle(edges) {
      var p :| |p| >= 2 && IsPath(edges, p) && p[0] == p[|p| - 1];
      var q := p[1..];
      assert PathFromTo(edges, q, p[1], p[0]) by {
        forall i | 0 <= i < |q| - 1
          ensures (q[i], q[i + 1]) in edges
        {
          assert q[i] == p[i + 1] && q[i + 1] == p[i + 2];
        }
      }
      assert (p[0], p[1]) in edges;
    }
    if !Acyclic(edges) {
      var e :| e in edges && Reachable(edges, e.1, e.0);
      var q :| PathFromTo(edges, q, e.1, e.0);
      var p := [e.0] + q;
      forall i | 0 <= i < |p| - 1
        ensures (p[i], p[i + 1]) in edges
      {
        if i > 0 {
          assert p[i] == q[i - 1] && p[i + 1] == q[i];
        }
      }
      assert |p| >= 2 && IsPath(edges, p) && p[0] == p[|p| - 1];
    }
  }

  /** In particular no task of an acyclic graph depends on itself. */
  lemma AcyclicNoSelfDependency(edges: set<Edge>, t: TaskId)
    requires Acyclic(edges)
    ensures (t, t) !in edges
  {
    ReachableRefl(edges, t);
  }

  /** A path that starts inside a set closed under prerequisites stays inside it. */
  lemma {:induction false} PathStaysInClosedSet(edges: set<Edge>, s: set<TaskId>, p: seq<TaskId>)
    requires IsPath(edges, p) && p[0] in s && ClosedUnder(edges, s)
    ensures p[|p| - 1] in s
    decreases |p|
  {
    if |p| > 1 {
      assert (p[0], p[1]) in edges;
      assert p[1] in Dependencies(edges, p[0]);
      var q := p[1..];
      assert IsPath(edges, q) by {
        forall i | 0 <= i < |q| - 1
          ensures (q[i], q[i + 1]) in edges
        {
          assert q[i] == p[i + 1] && q[i + 1] == p[i + 2];
        }
      }
      PathStaysInClosedSet(edges, s, q);
    }
  }

  /** A closed set holding `a` but not `b` is a certificate that `b` is unreachable from `a`. */
  lemma ClosedSetSeparates(edges: set<Edge>, s: set<TaskId>, a: TaskId, b: TaskId)
    requires ClosedUnder(edges, s) && a in s && b !in s
    ensures !Reachable(edges, a, b)
  {
    if Reachable(edges, a, b) {
      var p :| PathFromTo(edges, p, a, b);
      PathStaysInClosedSet(edges, s, p);
    }
  }

  // ------------------------------------------- replacing a task's prerequisites

  /** `big` is `small` plus edges leaving `t` only. */
  ghost predicate OnlyAddsEdgesFrom(small: set<Edge>, big: set<Edge>, t: TaskId)
  {
    small <= big && forall e :: e in big && e.0 != t ==> e in small
  }

  /** A path of `big` that meets `t` has a prefix to `t` that uses only `small`. */
  lemma {:induction false} PrefixToTask(small: set<Edge>, big: set<Edge>, t: TaskId, p: seq<TaskId>)
    requires OnlyAddsEdgesFrom(small, big, t)
    requires IsPath(big, p) && t in p
    ensures Reachable(small, p[0], t)
    decreases |p|
  {
    if p[0] == t {
      ReachableRefl(small, t);
    } else {
      var q := p[1..];
      assert t in q by {
        var k :| 0 <= k < |p| && p[k] == t;
        assert q[k - 1] == t;
      }
      assert IsPath(big, q) by {
        forall i | 0 <= i < |q| - 1
          ensures (q[i], q[i + 1]) in big
        {
          assert q[i] == p[i + 1] && q[i + 1] == p[i + 2];
        }
      }
      PrefixToTask(small, big, t, q);
      assert (p[0], p[1]) in small;
      ReachableStep(small, p[0], p[1], t);
    }
  }

  /** A path of `big` that never visits `t` is a path of `small`. */
  lemma PathAvoidingTask(small: set<Edge>, big: set<Edge>, t: TaskId, p: seq<TaskId>)
    requires OnlyAddsEdgesFrom(small, big, t)
    requires IsPath(big, p) && t !in p
    ensures IsPath(small, p)
  {
    forall i | 0 <= i < |p| - 1
      ensures (p[i], p[i + 1]) in small
    {
      assert p[i] in p;
    }
  }

  /** A path of `ReplaceDependencies(edges, t, ds)` that visits `t` but ends elsewhere
      leaves `t` for the last time through one of the new prerequisites `d`, and goes on
      from `d` without any edge leaving `t`. */
  lemma {:induction false} LastExit(edges: set<Edge>, t: TaskId, ds: set<TaskId>, p: seq<TaskId>)
    returns (d: TaskId)
    requires IsPath(ReplaceDependencies(edges, t, ds), p) && t in p && p[|p| - 1] != t
    ensures d in ds && Reachable(WithoutDependencies(edges, t), d, p[|p| - 1])
    decreases |p|
  {
    var small, big := WithoutDependencies(edges, t), ReplaceDependencies(edges, t, ds);
    var q := p[1..];
    assert IsPath(big, q) by {
      forall i | 0 <= i < |q| - 1
        ensures (q[i], q[i + 1]) in big
      {
        assert q[i] == p[i + 1] && q[i + 1] == p[i + 2];
      }
    }
    assert p[0] == t || t in q by {
      var k :| 0 <= k < |p| && p[k] == t;
      if k > 0 {
        assert q[k - 1] == t;
      }
    }
    if t in q {
      d := LastExit(edges, t, ds, q);
    } else {
      assert (t, p[1]) in big;
      d := p[1];
      PathAvoidingTask(small, big, t, q);
      assert PathFromTo(small, q, d, p[|p| - 1]);
    }
  }

  /** The cycle check for a new prerequisite of `t` gives the same answer whether or not
      `t`'s current outgoing edges are in the graph: a path back to `t` stops at `t`. */
  lemma ReachTaskIgnoresItsDependencies(edges: set<Edge>, t: TaskId, d: TaskId)
    ensures Reachable(edges, d, t) <==> Reachable(WithoutDependencies(edges, t), d, t)
  {
    var small := WithoutDependencies(edges, t);
    if Reachable(edges, d, t) {
      var p :| PathFromTo(edges, p, d, t);
      assert p[|p| - 1] in p;
      PrefixToTask(small, edges, t, p);
    }
    if Reachable(small, d, t) {
      ReachableMono(small, edges, d, t);
    }
  }

  /** Replacing `t`'s prerequisites by `ds` keeps an acyclic graph acyclic exactly when no
      member of `ds` reaches `t` in the current graph. Each candidate may therefore be
      checked on its own, against the graph that still holds `t`'s old edges. */
  lemma ReplaceDependenciesAcyclic(edges: set<Edge>, t: TaskId, ds: set<TaskId>)
    requires Acyclic(edges)
    ensures Acyclic(ReplaceDependencies(edges, t, ds)) <==>
            forall d :: d in ds ==> !Reachable(edges, d, t)
  {
    var small, big := WithoutDependencies(edges, t), ReplaceDependencies(edges, t, ds);
    assert OnlyAddsEdgesFrom(small, big, t);
    if forall d :: d in ds ==> !Reachable(edges, d, t) {
      AcyclicSubset(edges, small);
      forall e | e in big
        ensures !Reachable(big, e.1, e.0)
      {
        if Reachable(big, e.1, e.0) {
          var p :| PathFromTo(big, p, e.1, e.0);
          assert p[|p| - 1] in p;
          if t in p {
            PrefixToTask(small, big, t, p);
            if e.0 == t {
              ReachableMono(small, edges, e.1, t);
            } else {
              var d := LastExit(edges, t, ds, p);
              ReachableStep(small, e.0, e.1, t);
              ReachableTrans(small, d, e.0, t);
              ReachableMono(small, edges, d, t);
            }
          } else {
            PathAvoidingTask(small, big, t, p);
            assert PathFromTo(small, p, e.1, e.0);
          }
        }
      }
    } else {
      var d :| d in ds && Reachable(edges, d, t);
      ReachTaskIgnoresItsDependencies(edges, t, d);
      ReachableMono(small, big, d, t);
      assert (t, d) in big;
    }
  }

  /** A path between two different tasks ends with an edge into its target. */
  lemma PathEntersTarget(edges: set<Edge>, p: seq<TaskId>, a: TaskId, b: TaskId)
    requires PathFromTo(edges, p, a, b) && a != b
    ensures b in Nodes(edges)
  {
    assert (p[|p| - 2], p[|p| - 1]) in edges;
  }

  /** A task that no edge touches yet can be given any prerequisites other
      than itself without creating a cycle: nothing leads back to it. */
  lemma NewTaskDependenciesAcyclic(edges: set<Edge>, t: TaskId, ds: set<TaskId>)
    requires Acyclic(edges) && t !in Nodes(edges) && t !in ds
    ensures Acyclic(edges + EdgesFrom(t, ds))
  {
    assert WithoutDependencies(edges, t) == edges;
    forall d | d in ds
      ensures !Reachable(edges, d, t)
    {
      if Reachable(edges, d, t) {
        var p :| PathFromTo(edges, p, d, t);
        PathEntersTarget(edges, p, d, t);
      }
    }
    ReplaceDependenciesAcyclic(edges, t, ds);
  }

  /** Adding the single edge t -> d keeps an acyclic graph acyclic exactly when `t` is
      not reachable from `d` (counting d == t as reachable). */
  lemma AddDependencyAcyclic(edges: set<Edge>, t: TaskId, d: TaskId)
    requires Acyclic(edges)
    ensures Acyclic(edges + {(t, d)}) <==> !Reachable(edges, d, t)
  {
    var ds := Dependencies(edges, t) + {d};
    assert edges + {(t, d)} == ReplaceDependencies(edges, t, ds);
    ReplaceDependenciesAcyclic(edges, t, ds);
    forall d' | d' in Dependencies(edges, t)
      ensures !Reachable(edges, d', t)
    {
      assert (t, d') in edges;
    }
  }

  /** Nothing reaches another task in a graph without edges. */
  lemma NoEdgesNoPaths(a: TaskId, b: TaskId)
    requires a != b
    ensures !Reachable({}, a, b)
  {
    if Reachable({}, a, b) {
      var p :| PathFromTo({}, p, a, b);
      PathEntersTarget({}, p, a, b);
    }
  }
}
