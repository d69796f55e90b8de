# Task dependency graph of the project/task tracker, in Dafny

The tracker keeps projects, the tasks of each project, and a
`task_dependencies` relation: the pair (t, d) says that task t depends on
(cannot be finished before) task d. This project models the part of the
system that keeps that graph sound:

- the graph itself and its vocabulary: paths, reachability, acyclicity
  (`graph.dfy`, module `Graph`);
- the depth-first cycle check `would_create_circular_dependency` with its
  inner `has_path_to_task`, as a recursive method that threads the shared
  `visited` set through its calls (`cycle_check.dfy`, module `CycleCheck`);
- the stored state and the model methods: task rows, `can_be_completed`,
  `toggle_completion` and `get_task_count` (`models.dfy`, module `Models`).
  The database session is a class `Database` whose fields (projects, task
  table, dependency table, next id) the operations update in place. Its
  invariant `Valid` says that ids are positive and fresh, that every task
  belongs to a known project, that `completed_at` is set exactly when
  `is_completed` is, that both ends of a dependency lie in the same
  project, and that the graph is acyclic;
- the four task route handlers: create, edit, delete and complete
  (`task_routes.dfy`, module `TaskRoutes`). Each receives already parsed
  input. It either changes the database, or returns its error list and
  changes nothing. Every handler, run on its own, is proved to keep `Valid`.

Properties proved, beyond the per-operation contracts:

- The edit route checks each submitted prerequisite on its own, against
  the graph that still holds the task's old edges. That check is exact.
  For ids naming other tasks of the same project, the edit is accepted if
  and only if the replaced graph is acyclic (`EditChecksExact`, built on
  `ReplaceDependenciesAcyclic` and `ReachTaskIgnoresItsDependencies`). A
  path from a candidate back to the task stops at the task, so the task's
  old outgoing edges never matter.
- The DFS answers "true" exactly when the task is reachable from the
  candidate prerequisite (with no bound on recursion depth; see below). When it answers "false", its final `visited`
  set is closed under prerequisites, contains the candidate and not the
  task, which certifies unreachability (`ClosedSetSeparates`). Each task
  is expanded at most once.
- A completion flag is only set with all prerequisites complete. Un-completing
  under a completed dependent is refused. `CompleteTask` preserves
  "every completed task has only completed prerequisites".
- The edit route does not look at completion flags, so an edit can give a
  completed task an unfinished prerequisite. `EditIgnoresCompletion`
  exhibits this on two tasks.

Three behaviours of the code worth stating explicitly:

- `complete_task` with `is_completed = true` on a task that is already
  complete stamps `completed_at` again. It is not a no-op
  (tasks.py:237-238).
- `edit_task` validates the new prerequisites before it clears the old
  edges (tasks.py:139-154, then 175). It does not clear first. The model
  proves that this order gives the same verdict as validating against
  the final graph.
- `toggle_completion` never refuses un-completing (models.py:88-95). Only
  the route checks for completed dependents.

## Model

| member | source | states |
|---|---|---|
| Graph.Dependencies | models.py:75-82 | the `dependencies` relationship of a task: exactly the d with (t, d) stored |
| Graph.Dependents | models.py:75-82 | the `dependent_tasks` backref: exactly the tasks with an edge into t |
| Graph.EdgesFrom | tasks.py:82-83 | the rows appended for a task: exactly the pairs (t, d) for the given d |
| Graph.WithoutDependencies | tasks.py:175 | clearing a task's dependencies removes exactly its outgoing rows and nothing else |
| Graph.AcyclicIffNoCycle | models.py:9-12 | "no edge whose prerequisite leads back to its task" is the same as "no dependency cycle of any length" |
| Graph.AcyclicNoSelfDependency | tasks.py:143-145 | in an acyclic dependency table no task depends on itself |
| Graph.AcyclicSubset | tasks.py:175 | removing dependency rows keeps the graph acyclic |
| Graph.ClosedSetSeparates | tasks.py:261-271 | a visited set closed under prerequisites, holding the start and not the task, proves the task unreachable |
| Graph.ReachTaskIgnoresItsDependencies | tasks.py:151 | whether a candidate reaches the task does not depend on the task's own outgoing edges |
| Graph.ReplaceDependenciesAcyclic | tasks.py:139-177 | replacing a task's prerequisites keeps the graph acyclic if and only if no new prerequisite reaches the task |
| Graph.NewTaskDependenciesAcyclic | tasks.py:69-83 | a freshly created task can be given any prerequisites other than itself without creating a cycle |
| Graph.AddDependencyAcyclic | tasks.py:256-258 | adding one edge t -> d keeps the graph acyclic if and only if t is not reachable from d |
| CycleCheck.HasPathToTask | tasks.py:261-271 | true only if the task is reachable; on false the newly visited tasks have all their prerequisites visited and the task is not among them; expands no more tasks than the graph holds |
| CycleCheck.WouldCreateCircularDependency | tasks.py:256-273 | true if and only if the task is reachable from the new dependency (equal ids included) |
| Models.CanBeCompleted | models.py:84-86 | true if and only if every prerequisite is a completed task; true when there are none |
| Models.CompletedDependents | tasks.py:242 | exactly the completed tasks that depend on the task |
| Models.ProjectTasks | models.py:45-46 | exactly the tasks whose project is the given one |
| Models.GetTaskCount | models.py:55-57 | the number of tasks of the project, at most the number of all tasks |
| Models.TaskCountAfterInsert | tests/test_models.py:88-96 | adding a task raises its own project's count by one and leaves other projects' counts alone |
| Models.TaskCountAfterRemove | tasks.py:210-212 | deleting a task lowers its project's count by one and leaves other projects' counts alone |
| Models.Database.AppendDependencies | tasks.py:176-177 | appending rows adds exactly the pairs (id, d) for the listed d; other tables unchanged |
| Models.Database.ToggleCompletion | models.py:88-95 | refused (nothing changes) exactly when completing with an unfinished prerequisite; otherwise flips the flag and stamps or clears the time; invariant kept |
| Models.ToggleTwice | tests/test_models.py:119-132 | an incomplete task whose first toggle succeeds toggles back successfully; after two successes only that task's row differs, and the dependency table, projects and next id are unchanged in every case |
| TaskRoutes.FieldErrors | tasks.py:28-49 | one error per field-check message, in order |
| TaskRoutes.CollectEmpty | tasks.py:61 | the error list is empty if and only if every per-id check passed |
| TaskRoutes.CollectMembers | tasks.py:156-158 | an error is reported if and only if some per-id check produced it |
| TaskRoutes.CollectAppend | tasks.py:54-57 | checking one more id appends its error, if any, at the end |
| TaskRoutes.CreateChecks | tasks.py:54-57 | one check per submitted id, in order |
| TaskRoutes.CreateChecksPass | tasks.py:51-59 | creation accepts the prerequisites if and only if each is a task of the same project |
| TaskRoutes.CheckCreateDependencies | tasks.py:52-59 | the loop reports exactly the collected per-id errors, and keeps exactly the valid ids |
| TaskRoutes.CreateTask | tasks.py:9-85 | missing project: NotFound; accepted if and only if there are no field errors and all ids are tasks of the project; on success a fresh incomplete task with exactly the listed prerequisites, no dependents, its project's count up by one; the next id advanced by one; invariant kept |
| TaskRoutes.EditChecks | tasks.py:141-154 | one check per submitted id, in order: self, then missing or foreign, then circular |
| TaskRoutes.EditAcceptedKeepsGraphSound | tasks.py:139-177 | an accepted prerequisite list leaves the graph acyclic and inside the project |
| TaskRoutes.EditChecksExact | tasks.py:139-154 | for same-project ids other than the task, the edit passes if and only if the replaced graph is acyclic |
| TaskRoutes.EditRejectsSelfDependency | tasks.py:143-145 | listing the task as its own prerequisite always produces SelfDependency |
| TaskRoutes.CheckEditDependencies | tasks.py:139-154 | the loop reports exactly the collected per-id errors, and keeps exactly the ids that pass every check |
| TaskRoutes.EditIgnoresCompletion | tasks.py:139-177 | a completed task can be edited to depend on an incomplete one, breaking "completed tasks have completed prerequisites" |
| TaskRoutes.EditOntoDependentRefused | tasks.py:150-152 | making a task depend on one of its dependents fails with exactly one CircularDependency error |
| TaskRoutes.EditTask | tasks.py:95-179 | missing task: NotFound; accepted if and only if there are no field errors and every id passes; errors exactly as collected; on success the details are updated (start date kept if absent) and the prerequisites are exactly the listed ids; invariant kept |
| TaskRoutes.DeleteTask | tasks.py:192-212 | missing: NotFound; refused with the dependents while any exist; otherwise the task and its outgoing rows go, and its project's count drops by one |
| TaskRoutes.CompleteTask | tasks.py:217-253 | completing needs every prerequisite complete; un-completing is refused while a completed dependent exists; on success the flag is set and the time stamped or cleared; preserves "completed tasks have completed prerequisites" |
| TaskRoutes.CreateChain | tasks.py:69-83 | creating A, then C with A as prerequisite, gives C exactly {A} as prerequisites and A none |
| TaskRoutes.CycleRefused | tasks.py:150-152 | once C depends on A, editing A to depend on C is refused with CircularDependency(C) and changes nothing |
| TaskRoutes.CompleteInOrder | tasks.py:231-239 | C cannot be completed before its prerequisite A, and can be once A is; afterwards the invariant holds and the task set, dependency table, projects and next id are unchanged |

## Left out

- Web plumbing is not modelled. This covers routing, templates, flash
  messages, redirects, login and the ownership check
  (`project.user_id != current_user.id`).
- Form parsing is not modelled. Title length, importance and date format
  checks (tasks.py:30-49 for create, 117-136 for edit) enter as the list
  of their messages. Dates enter
  already parsed.
- Python's recursion limit is not modelled. `has_path_to_task`
  (tasks.py:261-271) recurses once per task on its current search path,
  and no file raises the limit. An edit whose search follows a
  prerequisite chain of roughly a thousand tasks therefore raises
  `RecursionError` in the source and commits nothing. The model's search
  (`CycleCheck.HasPathToTask`) has no depth bound and decides such an edit
  by reachability alone.
- CycleCheck.HasPathToTask: does not model the source's failure on a
  search deeper than Python's recursion limit (the line above).
- `int(dep_id)` on a non-numeric id raises an exception in the source. The
  model receives ids already as integers.
- The clock is a parameter: `datetime.utcnow()` becomes the `now`
  argument.
- `Project.get_completion_percentage` (models.py:48-53) is not modelled,
  because it computes with floating point and `round`.
- Users, password hashing, projects routes, app set-up and configuration
  (auth.py, projects.py, init_db.py, run.py, config.py) are not part of
  this model.
- Handlers are assumed to run one at a time. The source takes no lock
  between a handler's checks and its commit (tasks.py:151 and 179;
  tasks.py:204 and 211-212). Two concurrent edits could each pass the
  cycle check and together close a cycle, and a delete racing a create or
  an edit could leave a row pointing at a deleted task. The model does not
  cover such interleavings, so `Valid` is proved only for requests applied
  one after another.
- SQLAlchemy sessions, transactions, cascades and flush are not modelled.
  A handler's updates are applied atomically, as the single commit makes
  them.
- The dependency table is a set. A prerequisite id submitted twice yields
  one row in the model. In the source the outcome depends on the ORM: a
  repeat is absorbed on create, and may fail at commit on edit.
- Dependency rows have no order. The DFS picks prerequisites in an
  arbitrary order, where the database returns them in its own order. The
  answer is proved independent of that choice.
