/** The persistent state behind the task tracker (models.py): tasks, each
    owned by a project and carrying a completion flag and a completion
    time, and the `task_dependencies` relation between them. The database
    session is one object whose fields the operations update in place. */
module Models {
  import opened Graph

  datatype Option<T> = None | Some(value: T)

  type ProjectId = int

  /** A point in time. Reading the clock is the caller's business: every
      operation that stamps a time receives it as `now`. */
  type Instant = nat

  /** The descriptive columns of a task; no rule of the dependency graph looks at them. */
  datatype Details = Details(
    title: string,
    description: string,
    importance: string,
    startDate: Instant,
    expectedCompletion: Option<Instant>)

  datatype Task = Task(
    project: ProjectId,
    details: Details,
    isCompleted: bool,
    completedAt: Option<Instant>)

  /** `Task.can_be_completed`: every prerequisite of `id` is completed. */
  function CanBeCompleted(tasks: map<TaskId, Task>, edges: set<Edge>, id: TaskId): (ok: bool)
    ensures Dependencies(edges, id) == {} ==> ok
    ensures ok <==> forall d :: (id, d) in edges ==> d in tasks && tasks[d].isCompleted
  {
    forall d | d in Dependencies(edges, id) :: d in tasks && tasks[d].isCompleted
  }

  /** The completed tasks that depend on `id`. */
  function CompletedDependents(tasks: map<TaskId, Task>, edges: set<Edge>, id: TaskId): (ds: set<TaskId>)
    ensures forall d :: d in ds <==> (d, id) in edges && d in tasks && tasks[d].isCompleted
  {
    set d | d in Dependents(edges, id) && d in tasks && tasks[d].isCompleted
  }

  /** The ids of the tasks of `project`. */
  function ProjectTasks(tasks: map<TaskId, Task>, project: ProjectId): (ids: set<TaskId>)
    ensures ids <= tasks.Keys
    ensures forall id :: id in ids <==> id in tasks && tasks[id].project == project
  {
    set id | id in tasks && tasks[id].project == project
  }

  /** `Project.get_task_count`. */
  function GetTaskCount(tasks: map<TaskId, Task>, project: ProjectId): (n: nat)
    ensures n <= |tasks|
  {
    var ids := ProjectTasks(tasks, project);
    SubsetCardinality(ids, tasks.Keys);
    |ids|
  }

  /** Inserting a new task adds one to its project's count and leaves every other project's alone. */
  lemma TaskCountAfterInsert(tasks: map<TaskId, Task>, id: TaskId, t: Task, project: ProjectId)
    requires id !in tasks
    ensures GetTaskCount(tasks[id := t], project) ==
            GetTaskCount(tasks, project) + (if t.project == project then 1 else 0)
  {
    var before, after := ProjectTasks(tasks, project), ProjectTasks(tasks[id := t], project);
    if t.project == project {
      assert after == before + {id};
    } else {
      assert after == before;
    }
  }

  /** Removing a task takes one off its project's count and leaves every other project's alone. */
  lemma TaskCountAfterRemove(tasks: map<TaskId, Task>, id: TaskId, project: ProjectId)
    requires id in tasks
    ensures GetTaskCount(tasks - {id}, project) ==
            GetTaskCount(tasks, project) - (if tasks[id].project == project then 1 else 0)
  {
    var before, after := ProjectTasks(tasks, project), ProjectTasks(tasks - {id}, project);
    if tasks[id].project == project {
      assert after == before - {id};
    } else {
      assert after == before;
    }
  }

  /** A completed task has only completed prerequisites. */
  ghost predicate CompletionFollowsDependencies(tasks: map<TaskId, Task>, edges: set<Edge>)
  {
    forall e :: e in edges && e.0 in tasks && tasks[e.0].isCompleted ==>
      e.1 in tasks && tasks[e.1].isCompleted
  }

  /** The database: the projects that exist, the task table, the
      `task_dependencies` table and the next id the task table will hand out. */
  class Database {
    var projects: set<ProjectId>
    var tasks: map<TaskId, Task>
    var dependencies: set<Edge>
    var nextId: TaskId

    /** Ids are positive and below `nextId`, every task belongs to a known project,
        `completed_at` is set exactly when `is_completed` is, both ends of a
        dependency are tasks of the same project, and the graph has no cycle. */
    ghost predicate Valid()
      reads this
    {
      && 0 < nextId
      && (forall id :: id in tasks ==>
            && 0 < id < nextId
            && tasks[id].project in projects
            && (tasks[id].completedAt.Some? <==> tasks[id].isCompleted))
      && (forall e :: e in dependencies ==>
            && e.0 in tasks && e.1 in tasks
            && tasks[e.0].project == tasks[e.1].project)
      && Acyclic(dependencies)
    }

    constructor (projects: set<ProjectId>)
      ensures Valid()
      ensures this.projects == projects && tasks == map[] && dependencies == {}
    {
      this.projects := projects;
      tasks := map[];
      dependencies := {};
      nextId := 1;
    }

    /** Append `(id, d)` to the dependency rows for each `d` of `ds`, in
        order; a pair already present is not stored twice. A step inside a
        handler: the caller re-establishes `Valid`. */
    method AppendDependencies(id: TaskId, ds: seq<TaskId>)
      modifies this
      ensures dependencies == old(dependencies) + EdgesFrom(id, Elements(ds))
      ensures tasks == old(tasks) && projects == old(projects) && nextId == old(nextId)
    {
      for j := 0 to |ds|
        invariant forall e :: e in dependencies <==> e in old(dependencies) || (e.0 == id && e.1 in ds[..j])
        invariant tasks == old(tasks) && projects == old(projects) && nextId == old(nextId)
      {
        dependencies := dependencies + {(id, ds[j])};
      }
      assert ds[..|ds|] == ds;
    }

    /** `Task.toggle_completion` on task `id`: refused (false, nothing changes)
        only when completing a task with an unfinished prerequisite; otherwise
        the flag flips and the completion time is stamped or cleared.
        Un-completing is never refused here, whatever depends on the task. */
    method ToggleCompletion(id: TaskId, now: Instant) returns (ok: bool)
      requires Valid() && id in tasks
      modifies this
      ensures Valid()
      ensures ok <==> old(tasks[id].isCompleted) || old(CanBeCompleted(tasks, dependencies, id))
      ensures old(tasks[id].isCompleted) ==> ok
      ensures !ok ==> unchanged(this)
      ensures ok ==>
        && tasks == old(tasks)[id := old(tasks[id]).(
             isCompleted := !old(tasks[id].isCompleted),
             completedAt := if old(tasks[id].isCompleted) then None else Some(now))]
        && (tasks[id].completedAt.Some? <==> tasks[id].isCompleted)
      ensures dependencies == old(dependencies) && projects == old(projects) && nextId == old(nextId)
    {
      var t := tasks[id];
      if !t.isCompleted && !CanBeCompleted(tasks, dependencies, id) {
        return false;
      }
      var completed := !t.isCompleted;
      tasks := tasks[id := t.(isCompleted := completed,
                              completedAt := if completed then Some(now) else None)];
      ok := true;
    }
  }

  /** Two toggles in a row: when the task started incomplete and the first
      toggle went through, the second one does too and restores the flag. */
  method ToggleTwice(db: Database, id: TaskId, first: Instant, second: Instant)
    returns (ok1: bool, ok2: bool)
    requires db.Valid() && id in db.tasks
    modifies db
    ensures db.Valid() && id in db.tasks
    ensures !old(db.tasks[id].isCompleted) && ok1 ==> ok2
    ensures ok1 && ok2 ==> db.tasks[id].isCompleted == old(db.tasks[id].isCompleted)
    ensures ok1 && ok2 ==> db.tasks == old(db.tasks)[id := db.tasks[id]]
    ensures db.dependencies == old(db.dependencies) && db.projects == old(db.projects) && db.nextId == old(db.nextId)
  {
    ok1 := db.ToggleCompletion(id, first);
    ok2 := db.ToggleCompletion(id, second);
  }
}
