/** The cycle check run before a prerequisite is attached to a task
    (tasks.py, `would_create_circular_dependency`): a depth-first search
    from the proposed prerequisite, along dependency edges, looking for the
    task itself. One `visited` set is shared by all recursive calls; here
    it is threaded through them as an in/out parameter. */
module CycleCheck {
  import opened Graph

  /** The tasks added to `visited` between `before` and `after` have all
      their prerequisites in `after`: they were fully explored. */
  ghost predicate ExploredBetween(edges: set<Edge>, before: set<TaskId>, after: set<TaskId>)
  {
    forall x :: x in after && x !in before ==> Dependencies(edges, x) <= after
  }

  /** `has_path_to_task`: is `task` reachable from `current`, without
      expanding anything already in `visited`? The ghost result `expanded`
      counts the calls that got past the visited check. */
  method HasPathToTask(edges: set<Edge>, task: TaskId, current: TaskId, visited: set<TaskId>)
    returns (found: bool, visited': set<TaskId>, ghost expanded: nat)
    requires task !in visited
    ensures visited <= visited' <= visited + Nodes(edges) + {current}
    ensures found ==> Reachable(edges, current, task)
    ensures !found ==> current in visited' && task !in visited'
    ensures !found ==> ExploredBetween(edges, visited, visited')
    ensures expanded == |visited' - visited| <= |Nodes(edges) + {current} - visited|
    decreases Nodes(edges) + {current} - visited
  {
    if current == task {
      ReachableRefl(edges, task);
      return true, visited, 0;
    }
    if current in visited {
      return false, visited, 0;
    }
    visited' := visited + {current};
    expanded := 1;
    var pending := Dependencies(edges, current);
    while pending != {}
      invariant visited + {current} <= visited' <= visited + Nodes(edges) + {current}
      invariant task !in visited'
      invariant pending <= Dependencies(edges, current)
      invariant Dependencies(edges, current) - pending <= visited'
      invariant ExploredBetween(edges, visited + {current}, visited')
      invariant expanded == |visited' - visited|
      decreases pending
    {
      NonEmptyHasMember(pending);
      var dep :| dep in pending;
      pending := pending - {dep};
      assert dep in Nodes(edges);
      ghost var before := visited';
      ghost var more;
      found, visited', more := HasPathToTask(edges, task, dep, visited');
      assert visited' - visited == (before - visited) + (visited' - before);
      assert (before - visited) * (visited' - before) == {};
      expanded := expanded + more;
      if found {
        ReachableStep(edges, current, dep, task);
        SubsetCardinality(visited' - visited, Nodes(edges) + {current} - visited);
        return;
      }
    }
    found := false;
    SubsetCardinality(visited' - visited, Nodes(edges) + {current} - visited);
  }

  /** `would_create_circular_dependency(task, new_dependency)`: true exactly
      when `task` can be reached from `newDependency` along dependency
      edges, `newDependency == task` included. */
  method WouldCreateCircularDependency(edges: set<Edge>, task: TaskId, newDependency: TaskId)
    returns (circular: bool)
    ensures circular <==> Reachable(edges, newDependency, task)
  {
    var visited;
    ghost var expanded;
    circular, visited, expanded := HasPathToTask(edges, task, newDependency, {});
    if !circular {
      ClosedSetSeparates(edges, visited, newDependency, task);
    }
  }
}
