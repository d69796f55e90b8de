/** The rules the task routes (tasks.py) enforce on the dependency graph,
    with the web plumbing stripped away: each handler receives the already
    parsed ids, the already parsed form fields and the messages of the
    field checks (title length, importance, date formats), and either
    changes the database or reports its errors and changes nothing. */
module TaskRoutes {
  import opened Graph
  import opened Models
  import CycleCheck

  /** The reasons a handler refuses a request. */
  datatype Error =
    | NotFound                                      // get_or_404
    | InvalidField(message: string)                 // title, importance or date checks
    | SelfDependency                                // 'Task cannot depend on itself'
    | InvalidDependency(id: TaskId)                 // missing, or of another project
    | CircularDependency(id: TaskId)                // would close a cycle
    | HasDependents(dependents: set<TaskId>)        // delete while others depend on it
    | DependenciesUnmet                             // complete with an unfinished prerequisite
    | CompletedDependentsExist(dependents: set<TaskId>) // un-complete under completed dependents

  datatype Result<T> = Ok(value: T) | Err(errors: seq<Error>)

  /** The submitted form fields, already parsed; absent dates are `None`. */
  datatype Form = Form(
    title: string,
    description: string,
    importance: string,
    startDate: Option<Instant>,
    expectedCompletion: Option<Instant>)

  function FieldErrors(messages: seq<string>): (errors: seq<Error>)
    ensures |errors| == |messages|
    ensures forall i :: 0 <= i < |messages| ==> errors[i] == InvalidField(messages[i])
  {
    if messages == [] then [] else [InvalidField(messages[0])] + FieldErrors(messages[1..])
  }

  /** The errors of a sequence of per-id checks, in order, skipping the ids that passed. */
  function Collect(checks: seq<Option<Error>>): seq<Error>
  {
    if checks == [] then []
    else
      var last := checks[|checks| - 1];
      Collect(checks[..|checks| - 1]) + (if last.Some? then [last.value] else [])
  }

  lemma {:induction false} CollectEmpty(checks: seq<Option<Error>>)
    ensures Collect(checks) == [] <==> forall i :: 0 <= i < |checks| ==> checks[i].None?
    decreases |checks|
  {
    if checks != [] {
      CollectEmpty(checks[..|checks| - 1]);
    }
  }

  lemma {:induction false} CollectMembers(checks: seq<Option<Error>>, e: Error)
    ensures e in Collect(checks) <==> exists i :: 0 <= i < |checks| && checks[i] == Some(e)
    decreases |checks|
  {
    if checks != [] {
      var init := checks[..|checks| - 1];
      CollectMembers(init, e);
      if exists i :: 0 <= i < |init| && init[i] == Some(e) {
        var i :| 0 <= i < |init| && init[i] == Some(e);
        assert checks[i] == Some(e);
      }
    }
  }

  lemma CollectAppend(checks: seq<Option<Error>>, c: Option<Error>)
    ensures Collect(checks + [c]) == Collect(checks) + (if c.Some? then [c.value] else [])
  {
    assert (checks + [c])[..|checks|] == checks;
  }

  // ------------------------------------------------------------------ create

  /** The check `create_task` applies to one submitted prerequisite. */
  function CreateCheck(tasks: map<TaskId, Task>, project: ProjectId, d: TaskId): Option<Error>
  {
    if d !in tasks || tasks[d].project != project then Some(InvalidDependency(d)) else None
  }

  function CreateChecks(tasks: map<TaskId, Task>, project: ProjectId, ids: seq<TaskId>): (cs: seq<Option<Error>>)
    ensures |cs| == |ids|
    ensures forall i :: 0 <= i < |ids| ==> cs[i] == CreateCheck(tasks, project, ids[i])
  {
    seq(|ids|, i requires 0 <= i < |ids| => CreateCheck(tasks, project, ids[i]))
  }

  /** The row `create_task` inserts: incomplete, no completion time, start date defaulting to now. */
  function NewTask(project: ProjectId, form: Form, now: Instant): Task
  {
    Task(project,
         Details(form.title, form.description, form.importance,
                 if form.startDate.Some? then form.startDate.value else now,
                 form.expectedCompletion),
         false, None)
  }

  /** Creation accepts the prerequisites exactly when each is a task of the new task's project. */
  lemma CreateChecksPass(tasks: map<TaskId, Task>, project: ProjectId, ids: seq<TaskId>)
    ensures Collect(CreateChecks(tasks, project, ids)) == [] <==>
            forall d :: d in ids ==> d in tasks && tasks[d].project == project
  {
    CollectEmpty(CreateChecks(tasks, project, ids));
  }

  /** The prerequisite loop of `create_task`: the errors for the ids that are
      not tasks of `project`, in order, and the list of those that are. */
  method CheckCreateDependencies(tasks: map<TaskId, Task>, project: ProjectId, dependencyIds: seq<TaskId>)
    returns (errors: seq<Error>, dependencies: seq<TaskId>)
    ensures errors == Collect(CreateChecks(tasks, project, dependencyIds))
    ensures forall d :: d in dependencies <==> d in dependencyIds && d in tasks && tasks[d].project == project
  {
    errors, dependencies := [], [];
    for i := 0 to |dependencyIds|
      invariant errors == Collect(CreateChecks(tasks, project, dependencyIds[..i]))
      invariant forall d :: d in dependencies <==> d in dependencyIds[..i] && d in tasks && tasks[d].project == project
    {
      var depId := dependencyIds[i];
      assert dependencyIds[..i + 1] == dependencyIds[..i] + [depId];
      assert CreateChecks(tasks, project, dependencyIds[..i + 1]) ==
             CreateChecks(tasks, project, dependencyIds[..i]) + [CreateCheck(tasks, project, depId)];
      CollectAppend(CreateChecks(tasks, project, dependencyIds[..i]), CreateCheck(tasks, project, depId));
      if depId !in tasks || tasks[depId].project != project {
        errors := errors + [InvalidDependency(depId)];
      } else {
        dependencies := dependencies + [depId];
      }
    }
    assert dependencyIds[..|dependencyIds|] == dependencyIds;
  }

  /** `create_task` (the POST branch). */
  method CreateTask(db: Database, projectId: ProjectId, form: Form, fieldErrors: seq<string>,
                    dependencyIds: seq<TaskId>, now: Instant)
    returns (r: Result<TaskId>)
    requires db.Valid()
    modifies db
    ensures db.Valid()
    ensures r.Err? ==> unchanged(db)
    ensures projectId !in old(db.projects) ==> r == Err([NotFound])
    ensures projectId in old(db.projects) ==>
      (r.Ok? <==> fieldErrors == [] &&
                  forall d :: d in dependencyIds ==> d in old(db.tasks) && old(db.tasks)[d].project == projectId)
    ensures projectId in old(db.projects) && r.Err? ==>
      r.errors == FieldErrors(fieldErrors) + Collect(CreateChecks(old(db.tasks), projectId, dependencyIds))
    ensures r.Ok? ==>
      && r.value == old(db.nextId) && r.value !in old(db.tasks)
      && db.tasks == old(db.tasks)[r.value := NewTask(projectId, form, now)]
      && db.dependencies == old(db.dependencies) + EdgesFrom(r.value, Elements(dependencyIds))
      && Dependencies(db.dependencies, r.value) == Elements(dependencyIds)
      && Dependents(db.dependencies, r.value) == {}
      && GetTaskCount(db.tasks, projectId) == GetTaskCount(old(db.tasks), projectId) + 1
      && db.projects == old(db.projects) && db.nextId == old(db.nextId) + 1
  {
    if projectId !in db.projects {
      return Err([NotFound]);
    }
    var dependencyErrors, dependencies := CheckCreateDependencies(db.tasks, projectId, dependencyIds);
    var errors := FieldErrors(fieldErrors) + dependencyErrors;
    CreateChecksPass(db.tasks, projectId, dependencyIds);
    if errors != [] {
      return Err(errors);
    }
    assert dependencyErrors == [];
    assert forall d :: d in dependencies <==> d in dependencyIds;

    var id := db.nextId;
    ghost var before := db.dependencies;
    TaskCountAfterInsert(db.tasks, id, NewTask(projectId, form, now), projectId);
    db.tasks := db.tasks[id := NewTask(projectId, form, now)];
    db.nextId := db.nextId + 1;
    db.AppendDependencies(id, dependencies);
    assert Elements(dependencies) == Elements(dependencyIds);
    assert id !in Nodes(before) && id !in Elements(dependencyIds);
    NewTaskDependenciesAcyclic(before, id, Elements(dependencyIds));
    r := Ok(id);
  }

  // -------------------------------------------------------------------- edit

  /** The checks `edit_task` applies to one submitted prerequisite `d` of task `t`,
      in the order `edit_task` applies them (tasks.py:142-154): itself, then existence
      and project, then the cycle check. */
  ghost function EditCheck(tasks: map<TaskId, Task>, edges: set<Edge>, t: TaskId, d: TaskId): Option<Error>
    requires t in tasks
  {
    if d == t then Some(SelfDependency)
    else if d !in tasks || tasks[d].project != tasks[t].project then Some(InvalidDependency(d))
    else if Reachable(edges, d, t) then Some(CircularDependency(d))
    else None
  }

  ghost function EditChecks(tasks: map<TaskId, Task>, edges: set<Edge>, t: TaskId, ids: seq<TaskId>)
    : (cs: seq<Option<Error>>)
    requires t in tasks
    ensures |cs| == |ids|
    ensures forall i :: 0 <= i < |ids| ==> cs[i] == EditCheck(tasks, edges, t, ids[i])
  {
    seq(|ids|, i requires 0 <= i < |ids| => EditCheck(tasks, edges, t, ids[i]))
  }

  /** The descriptive fields after an edit: the start date is kept when none was submitted. */
  function EditedDetails(current: Details, form: Form): Details
  {
    Details(form.title, form.description, form.importance,
            if form.startDate.Some? then form.startDate.value else current.startDate,
            form.expectedCompletion)
  }

  /** The prerequisite list an edit accepts leaves the graph acyclic and inside the project. */
  lemma EditAcceptedKeepsGraphSound(tasks: map<TaskId, Task>, edges: set<Edge>, t: TaskId, ids: seq<TaskId>)
    requires t in tasks && Acyclic(edges)
    requires Collect(EditChecks(tasks, edges, t, ids)) == []
    ensures Acyclic(ReplaceDependencies(edges, t, Elements(ids)))
    ensures forall d :: d in ids ==> d != t && d in tasks && tasks[d].project == tasks[t].project
  {
    CollectEmpty(EditChecks(tasks, edges, t, ids));
    forall d | d in Elements(ids)
      ensures !Reachable(edges, d, t)
    {
      var i :| 0 <= i < |ids| && ids[i] == d;
      assert EditCheck(tasks, edges, t, ids[i]).None?;
    }
    ReplaceDependenciesAcyclic(edges, t, Elements(ids));
  }

  /** Checking each prerequisite on its own, against the graph that still
      holds the task's old edges, is exact: for ids that name other tasks of
      the same project, the edit is accepted if and only if the replaced
      graph is acyclic. */
  lemma EditChecksExact(tasks: map<TaskId, Task>, edges: set<Edge>, t: TaskId, ids: seq<TaskId>)
    requires t in tasks && Acyclic(edges)
    requires forall d :: d in ids ==> d != t && d in tasks && tasks[d].project == tasks[t].project
    ensures Collect(EditChecks(tasks, edges, t, ids)) == [] <==>
            Acyclic(ReplaceDependencies(edges, t, Elements(ids)))
  {
    CollectEmpty(EditChecks(tasks, edges, t, ids));
    ReplaceDependenciesAcyclic(edges, t, Elements(ids));
    if forall d :: d in Elements(ids) ==> !Reachable(edges, d, t) {
      forall i | 0 <= i < |ids|
        ensures EditCheck(tasks, edges, t, ids[i]).None?
      {
        assert ids[i] in Elements(ids);
      }
    }
  }

  /** A task submitted as its own prerequisite always makes the edit fail with SelfDependency. */
  lemma EditRejectsSelfDependency(tasks: map<TaskId, Task>, edges: set<Edge>, t: TaskId, ids: seq<TaskId>)
    requires t in tasks && t in ids
    ensures SelfDependency in Collect(EditChecks(tasks, edges, t, ids))
  {
    var i :| 0 <= i < |ids| && ids[i] == t;
    CollectMembers(EditChecks(tasks, edges, t, ids), SelfDependency);
    assert EditChecks(tasks, edges, t, ids)[i] == Some(SelfDependency);
  }

  /** The prerequisite loop of `edit_task`: the errors for the rejected ids,
      in order, and the list of the accepted ones. The cycle check runs
      against `edges` as they stand, the task's old prerequisites included. */
  method CheckEditDependencies(tasks: map<TaskId, Task>, edges: set<Edge>, taskId: TaskId, dependencyIds: seq<TaskId>)
    returns (errors: seq<Error>, dependencies: seq<TaskId>)
    requires taskId in tasks
    ensures errors == Collect(EditChecks(tasks, edges, taskId, dependencyIds))
    ensures forall d :: d in dependencies <==> d in dependencyIds && EditCheck(tasks, edges, taskId, d).None?
  {
    errors, dependencies := [], [];
    for i := 0 to |dependencyIds|
      invariant errors == Collect(EditChecks(tasks, edges, taskId, dependencyIds[..i]))
      invariant forall d :: d in dependencies <==> d in dependencyIds[..i] && EditCheck(tasks, edges, taskId, d).None?
    {
      var depId := dependencyIds[i];
      assert dependencyIds[..i + 1] == dependencyIds[..i] + [depId];
      assert EditChecks(tasks, edges, taskId, dependencyIds[..i + 1]) ==
             EditChecks(tasks, edges, taskId, dependencyIds[..i]) + [EditCheck(tasks, edges, taskId, depId)];
      CollectAppend(EditChecks(tasks, edges, taskId, dependencyIds[..i]), EditCheck(tasks, edges, taskId, depId));
      if depId == taskId {
        errors := errors + [SelfDependency];
        continue;
      }
      if depId !in tasks || tasks[depId].project != tasks[taskId].project {
        errors := errors + [InvalidDependency(depId)];
      } else {
        var circular := CycleCheck.WouldCreateCircularDependency(edges, taskId, depId);
        if circular {
          errors := errors + [CircularDependency(depId)];
        } else {
          dependencies := dependencies + [depId];
        }
      }
    }
    assert dependencyIds[..|dependencyIds|] == dependencyIds;
  }

  /** The edit never looks at completion flags: a completed task (1) may be
      given an incomplete prerequisite (2), after which a completed task has
      an unfinished prerequisite. */
  lemma EditIgnoresCompletion()
    ensures
      var details := Details("", "", "", 0, None);
      var tasks := map[1 := Task(7, details, true, Some(0)), 2 := Task(7, details, false, None)];
      && CompletionFollowsDependencies(tasks, {})
      && Collect(EditChecks(tasks, {}, 1, [2])) == []
      && !CompletionFollowsDependencies(tasks, ReplaceDependencies({}, 1, Elements([2])))
  {
    var details := Details("", "", "", 0, None);
    var tasks := map[1 := Task(7, details, true, Some(0)), 2 := Task(7, details, false, None)];
    NoEdgesNoPaths(2, 1);
    CollectEmpty(EditChecks(tasks, {}, 1, [2]));
    assert (1, 2) in ReplaceDependencies({}, 1, Elements([2]));
  }

  /** `edit_task` (the POST branch). */
  method EditTask(db: Database, taskId: TaskId, form: Form, fieldErrors: seq<string>,
                  dependencyIds: seq<TaskId>)
    returns (r: Result<()>)
    requires db.Valid()
    modifies db
    ensures db.Valid()
    ensures r.Err? ==> unchanged(db)
    ensures taskId !in old(db.tasks) ==> r == Err([NotFound])
    ensures taskId in old(db.tasks) ==>
      (r.Ok? <==> fieldErrors == [] && Collect(EditChecks(old(db.tasks), old(db.dependencies), taskId, dependencyIds)) == [])
    ensures taskId in old(db.tasks) && r.Err? ==>
      r.errors == FieldErrors(fieldErrors) + Collect(EditChecks(old(db.tasks), old(db.dependencies), taskId, dependencyIds))
    ensures r.Ok? ==>
      && db.tasks == old(db.tasks)[taskId := old(db.tasks)[taskId].(details := EditedDetails(old(db.tasks)[taskId].details, form))]
      && db.dependencies == ReplaceDependencies(old(db.dependencies), taskId, Elements(dependencyIds))
      && Dependencies(db.dependencies, taskId) == Elements(dependencyIds)
      && db.projects == old(db.projects) && db.nextId == old(db.nextId)
  {
    if taskId !in db.tasks {
      return Err([NotFound]);
    }
    var task := db.tasks[taskId];
    var dependencyErrors, dependencies := CheckEditDependencies(db.tasks, db.dependencies, taskId, dependencyIds);
    var errors := FieldErrors(fieldErrors) + dependencyErrors;
    if errors != [] {
      return Err(errors);
    }
    EditAcceptedKeepsGraphSound(db.tasks, db.dependencies, taskId, dependencyIds);
    CollectEmpty(EditChecks(db.tasks, db.dependencies, taskId, dependencyIds));
    assert dependencyErrors == [];
    forall d | d in dependencyIds
      ensures d in dependencies
    {
      var i :| 0 <= i < |dependencyIds| && dependencyIds[i] == d;
      assert EditChecks(db.tasks, db.dependencies, taskId, dependencyIds)[i].None?;
    }
    assert forall d :: d in dependencies <==> d in dependencyIds;
    assert Elements(dependencies) == Elements(dependencyIds);

    db.tasks := db.tasks[taskId := task.(details := EditedDetails(task.details, form))];
    db.dependencies := WithoutDependencies(db.dependencies, taskId);
    db.AppendDependencies(taskId, dependencies);
    r := Ok(());
  }

  // ------------------------------------------------------------------ delete

  /** `delete_task`: refused while any task depends on this one; otherwise the
      task and its own dependency rows go, and nothing else changes. */
  method DeleteTask(db: Database, taskId: TaskId) returns (r: Result<()>)
    requires db.Valid()
    modifies db
    ensures db.Valid()
    ensures r.Err? ==> unchanged(db)
    ensures taskId !in old(db.tasks) ==> r == Err([NotFound])
    ensures taskId in old(db.tasks) && Dependents(old(db.dependencies), taskId) != {} ==>
      r == Err([HasDependents(Dependents(old(db.dependencies), taskId))])
    ensures r.Ok? <==> taskId in old(db.tasks) && Dependents(old(db.dependencies), taskId) == {}
    ensures r.Ok? ==>
      && db.tasks == old(db.tasks) - {taskId}
      && db.dependencies == WithoutDependencies(old(db.dependencies), taskId)
      && taskId !in Nodes(db.dependencies)
      && GetTaskCount(db.tasks, old(db.tasks)[taskId].project) ==
         GetTaskCount(old(db.tasks), old(db.tasks)[taskId].project) - 1
      && db.projects == old(db.projects) && db.nextId == old(db.nextId)
  {
    if taskId !in db.tasks {
      return Err([NotFound]);
    }
    var dependents := Dependents(db.dependencies, taskId);
    if dependents != {} {
      return Err([HasDependents(dependents)]);
    }
    TaskCountAfterRemove(db.tasks, taskId, db.tasks[taskId].project);
    AcyclicSubset(db.dependencies, WithoutDependencies(db.dependencies, taskId));
    db.tasks := db.tasks - {taskId};
    db.dependencies := WithoutDependencies(db.dependencies, taskId);
    r := Ok(());
  }

  // ---------------------------------------------------------------- complete

  /** `complete_task`: marking complete needs every prerequisite complete and
      stamps the time (again, if the task was already complete); marking
      incomplete is refused while a completed task depends on this one, and
      clears the time. A refusal changes nothing. */
  method CompleteTask(db: Database, taskId: TaskId, isCompleted: bool, now: Instant)
    returns (r: Result<()>)
    requires db.Valid()
    modifies db
    ensures db.Valid()
    ensures r.Err? ==> unchanged(db)
    ensures taskId !in old(db.tasks) ==> r == Err([NotFound])
    ensures taskId in old(db.tasks) && isCompleted ==>
      r == if old(CanBeCompleted(db.tasks, db.dependencies, taskId)) then Ok(()) else Err([DependenciesUnmet])
    ensures taskId in old(db.tasks) && !isCompleted ==>
      var blocking := old(CompletedDependents(db.tasks, db.dependencies, taskId));
      r == if blocking == {} then Ok(()) else Err([CompletedDependentsExist(blocking)])
    ensures r.Ok? ==>
      && db.tasks == old(db.tasks)[taskId := old(db.tasks)[taskId].(
           isCompleted := isCompleted,
           completedAt := if isCompleted then Some(now) else None)]
      && db.dependencies == old(db.dependencies)
      && db.projects == old(db.projects) && db.nextId == old(db.nextId)
    ensures old(CompletionFollowsDependencies(db.tasks, db.dependencies)) ==>
      CompletionFollowsDependencies(db.tasks, db.dependencies)
  {
    if taskId !in db.tasks {
      return Err([NotFound]);
    }
    var task := db.tasks[taskId];
    if isCompleted {
      if !CanBeCompleted(db.tasks, db.dependencies, taskId) {
        return Err([DependenciesUnmet]);
      }
      db.tasks := db.tasks[taskId := task.(isCompleted := true, completedAt := Some(now))];
    } else {
      var dependentCompleted := CompletedDependents(db.tasks, db.dependencies, taskId);
      if dependentCompleted != {} {
        return Err([CompletedDependentsExist(dependentCompleted)]);
      }
      db.tasks := db.tasks[taskId := task.(isCompleted := false, completedAt := None)];
    }
    r := Ok(());
  }

  /** Making a task depend on one of its own dependents is refused with
      exactly one error, naming that dependent. */
  lemma EditOntoDependentRefused(tasks: map<TaskId, Task>, edges: set<Edge>, t: TaskId, d: TaskId)
    requires t in tasks && d in tasks && t != d && tasks[d].project == tasks[t].project
    requires (d, t) in edges
    ensures Collect(EditChecks(tasks, edges, t, [d])) == [CircularDependency(d)]
  {
    ReachableRefl(edges, t);
    ReachableStep(edges, d, t, t);
    assert EditChecks(tasks, edges, t, [d]) == [] + [Some(CircularDependency(d))];
    CollectAppend([], Some(CircularDependency(d)));
  }

  // ---------------------------------------------------------------- scenario

  /** Two tasks of a fresh project, C created with A as its one prerequisite. */
  method CreateChain() returns (db: Database, a: TaskId, c: TaskId)
    ensures fresh(db) && db.Valid()
    ensures a in db.tasks && c in db.tasks && a != c && db.tasks[a].project == db.tasks[c].project
    ensures !db.tasks[a].isCompleted && !db.tasks[c].isCompleted
    ensures Dependencies(db.dependencies, c) == {a} && Dependencies(db.dependencies, a) == {}
  {
    db := new Database({1});
    var form := Form("Task", "", "medium", None, None);
    var ra := CreateTask(db, 1, form, [], [], 0);
    a := ra.value;
    assert Dependencies(db.dependencies, a) == {};
    ghost var edgesBefore := db.dependencies;
    var rc := CreateTask(db, 1, form, [], [a], 0);
    c := rc.value;
    assert Elements([a]) == {a};
    assert db.dependencies == edgesBefore + EdgesFrom(c, {a});
    assert Dependencies(db.dependencies, a) == {};
    assert Dependencies(db.dependencies, c) == {a};
  }

  /** Once C depends on A, editing A to depend on C is refused and changes nothing. */
  method CycleRefused(db: Database, a: TaskId, c: TaskId, form: Form) returns (e: Result<()>)
    requires db.Valid() && a in db.tasks && c in db.tasks && a != c
    requires db.tasks[a].project == db.tasks[c].project && (c, a) in db.dependencies
    modifies db
    ensures e == Err([CircularDependency(c)]) && unchanged(db)
  {
    EditOntoDependentRefused(db.tasks, db.dependencies, a, c);
    e := EditTask(db, a, form, [], [c]);
  }

  /** When C depends on A alone and A on nothing, C cannot be completed
      before A, and can be once A is. */
  method CompleteInOrder(db: Database, a: TaskId, c: TaskId)
    returns (r1: Result<()>, r2: Result<()>, r3: Result<()>)
    requires db.Valid() && a in db.tasks && c in db.tasks && a != c
    requires !db.tasks[a].isCompleted
    requires Dependencies(db.dependencies, c) == {a} && Dependencies(db.dependencies, a) == {}
    modifies db
    ensures r1 == Err([DependenciesUnmet]) && r2 == Ok(()) && r3 == Ok(())
    ensures a in db.tasks && c in db.tasks && db.tasks[a].isCompleted && db.tasks[c].isCompleted
    ensures db.Valid() && db.tasks.Keys == old(db.tasks.Keys)
    ensures db.dependencies == old(db.dependencies) && db.projects == old(db.projects) && db.nextId == old(db.nextId)
  {
    r1 := CompleteTask(db, c, true, 1);
    r2 := CompleteTask(db, a, true, 2);
    r3 := CompleteTask(db, c, true, 3);
  }
}
