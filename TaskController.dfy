/** The task handlers: create, list, get by id, the two searches by user,
    assign/unassign, status update and soft delete. Each handler is a method
    over the store; the identifier-format check ObjectId.isValid is the
    parameter `valid`. */
module TaskController {
  import opened Records
  import opened Lists
  import opened Responses
  import opened Store

  // ---------------------------------------------------------------------
  // Status transitions

  /** The status a task moves to when `requested` is asked for while it is
      in `current`; None when the handler refuses. Only `done` restricts:
      from it, `archive` is the one accepted destination. */
  function NextStatus(current: string, requested: string): (r: Option<string>)
    ensures r.None? <==> current == Done && requested != Archive
    ensures r.Some? ==> r.value == requested
  {
    if current != Done then Some(requested)
    else if requested == Archive then Some(requested)
    else None
  }

  /** From `done`, asking for `done` again or for any status other than
      `archive` is refused; `archive` itself still accepts any status. */
  lemma DoneIsArchiveOnly(requested: string)
    ensures NextStatus(Done, requested).Some? <==> requested == Archive
    ensures NextStatus(Done, Done).None?
    ensures NextStatus(Archive, requested) == Some(requested)
  {
  }

  /** Moving a task to `done` and then to `in-progress` fails, whatever it
      started from; moving it to `done` and then to `archive` succeeds. */
  lemma DoneThenBack(start: string)
    requires start != Done
    ensures NextStatus(start, Done) == Some(Done)
    ensures NextStatus(NextStatus(start, Done).value, "in-progress").None?
    ensures NextStatus(NextStatus(start, Done).value, Archive) == Some(Archive)
  {
  }

  // ---------------------------------------------------------------------
  // Assignment

  /** The guards of assignTask as written, in their order: the task must
      exist, then the user, then the identifier check, whose second operand
      is `!!ObjectId.isValid(assigneeId)`: it refuses exactly when the
      assignee's id IS well formed. None means the toggle is reached. */
  function AssignRejection(tasks: map<Id, Task>, users: map<Id, User>, taskId: Id, assigneeId: Id, valid: Id -> bool): (e: Option<Failure>)
    ensures taskId !in tasks ==> e == Some(BadRequest(NoTaskFound))
    ensures taskId in tasks && assigneeId !in users ==> e == Some(BadRequest(NoUserWithId))
    ensures e.None? <==> taskId in tasks && assigneeId in users && valid(taskId) && !valid(assigneeId)
    ensures e.Some? && taskId in tasks && assigneeId in users ==> e == Some(BadRequest(InvalidObjectId))
  {
    if taskId !in tasks then Some(BadRequest(NoTaskFound))
    else if assigneeId !in users then Some(BadRequest(NoUserWithId))
    else if !valid(taskId) || !!valid(assigneeId) then Some(BadRequest(InvalidObjectId))
    else None
  }

  /** The same guards with the single negation evidently intended. */
  function IntendedAssignRejection(tasks: map<Id, Task>, users: map<Id, User>, taskId: Id, assigneeId: Id, valid: Id -> bool): (e: Option<Failure>)
    ensures taskId !in tasks ==> e == Some(BadRequest(NoTaskFound))
    ensures taskId in tasks && assigneeId !in users ==> e == Some(BadRequest(NoUserWithId))
    ensures e.None? <==> taskId in tasks && assigneeId in users && valid(taskId) && valid(assigneeId)
    ensures e.Some? && taskId in tasks && assigneeId in users ==> e == Some(BadRequest(InvalidObjectId))
  {
    if taskId !in tasks then Some(BadRequest(NoTaskFound))
    else if assigneeId !in users then Some(BadRequest(NoUserWithId))
    else if !valid(taskId) || !valid(assigneeId) then Some(BadRequest(InvalidObjectId))
    else None
  }

  /** In a store whose user ids are all well formed (as every stored
      ObjectId is), assignTask as written refuses every request: a found
      user always has a valid id, which the double negation rejects. */
  lemma AsWrittenNeverToggles(tasks: map<Id, Task>, users: map<Id, User>, taskId: Id, assigneeId: Id, valid: Id -> bool)
    requires forall u :: u in users ==> valid(u)
    ensures AssignRejection(tasks, users, taskId, assigneeId, valid).Some?
    ensures taskId in tasks && assigneeId in users ==>
      AssignRejection(tasks, users, taskId, assigneeId, valid) == Some(BadRequest(InvalidObjectId))
  {
  }

  /** With the intended guard, well-formed ids of an existing task and an
      existing user always reach the toggle. */
  lemma IntendedTogglesValidIds(tasks: map<Id, Task>, users: map<Id, User>, taskId: Id, assigneeId: Id, valid: Id -> bool)
    requires taskId in tasks && assigneeId in users && valid(taskId) && valid(assigneeId)
    ensures IntendedAssignRejection(tasks, users, taskId, assigneeId, valid).None?
  {
  }

  /** The task store after the toggle: an assigned task loses its
      assignee, an unassigned one gets `userId`. */
  function ToggleTasks(tasks: map<Id, Task>, taskId: Id, userId: Id): map<Id, Task>
    requires taskId in tasks
  {
    var t := tasks[taskId];
    tasks[taskId := if t.assignee.Some? then t.(assignee := None) else t.(assignee := Some(userId))]
  }

  /** The user store after the toggle: the named user (not necessarily the
      current assignee) loses the first occurrence of `taskId` from its
      list, or gets `taskId` pushed onto it. */
  function ToggleUsers(tasks: map<Id, Task>, users: map<Id, User>, taskId: Id, userId: Id): map<Id, User>
    requires taskId in tasks && userId in users
  {
    var u := users[userId];
    users[userId := u.(tasks := if tasks[taskId].assignee.Some? then RemoveFirst(u.tasks, taskId) else u.tasks + [taskId])]
  }

  /** Assigning an unassigned task links both sides; unassigning an
      assigned one clears the task's side and drops one occurrence of the
      id from the user's list. Every other document is unchanged. */
  lemma ToggleLinks(tasks: map<Id, Task>, users: map<Id, User>, taskId: Id, userId: Id)
    requires taskId in tasks && userId in users
    ensures var tasks' := ToggleTasks(tasks, taskId, userId);
            var users' := ToggleUsers(tasks, users, taskId, userId);
            tasks'.Keys == tasks.Keys && users'.Keys == users.Keys &&
            (forall id :: id in tasks && id != taskId ==> tasks'[id] == tasks[id]) &&
            (forall id :: id in users && id != userId ==> users'[id] == users[id]) &&
            (tasks[taskId].assignee.None? ==>
               tasks'[taskId].assignee == Some(userId) && taskId in users'[userId].tasks &&
               multiset(users'[userId].tasks) == multiset(users[userId].tasks) + multiset{taskId}) &&
            (tasks[taskId].assignee.Some? ==>
               tasks'[taskId].assignee.None? &&
               multiset(users'[userId].tasks) == multiset(users[userId].tasks) - multiset{taskId})
  {
  }

  /** Toggling twice restores both stores when the task was unassigned and
      the user's list did not already hold it. */
  lemma {:induction false} ToggleTwiceRestores(tasks: map<Id, Task>, users: map<Id, User>, taskId: Id, userId: Id)
    requires taskId in tasks && userId in users
    requires tasks[taskId].assignee.None? && taskId !in users[userId].tasks
    ensures var tasks1 := ToggleTasks(tasks, taskId, userId);
            var users1 := ToggleUsers(tasks, users, taskId, userId);
            ToggleTasks(tasks1, taskId, userId) == tasks &&
            ToggleUsers(tasks1, users1, taskId, userId) == users
  {
    RemoveFirstUndoesPush(users[userId].tasks, taskId);
  }

  /** The unassign branch edits the user named in the request, not the
      task's current assignee. Unassigning through another user clears the
      task's assignee while its owner still lists it, which breaks the
      two-way link. */
  lemma UnassignThroughOtherUser(tasks: map<Id, Task>, users: map<Id, User>, taskId: Id, userId: Id)
    requires taskId in tasks && userId in users
    requires tasks[taskId].assignee.Some? && tasks[taskId].assignee.value in users
    requires tasks[taskId].assignee.value != userId && taskId in users[tasks[taskId].assignee.value].tasks
    ensures var tasks' := ToggleTasks(tasks, taskId, userId);
            var users' := ToggleUsers(tasks, users, taskId, userId);
            tasks'[taskId].assignee.None? &&
            users'[tasks[taskId].assignee.value] == users[tasks[taskId].assignee.value] &&
            !Linked(tasks', users')
  {
    var owner := tasks[taskId].assignee.value;
    var tasks' := ToggleTasks(tasks, taskId, userId);
    var users' := ToggleUsers(tasks, users, taskId, userId);
    assert owner in users' && taskId in users'[owner].tasks && taskId in tasks';
    assert tasks'[taskId].assignee != Some(owner);
  }

  /** Tasks {T1: assigned to U1} and users {U1: [T1], U2: []} are linked;
      toggling T1 with U2 leaves them unlinked. */
  lemma UnassignThroughOtherUserExample()
    ensures var tasks := map["T1" := Task("todo", Some("U1"), false, "t0", "t0")];
            var users := map["U1" := User("Ann", ["T1"], false), "U2" := User("Bob", [], false)];
            Linked(tasks, users) &&
            !Linked(ToggleTasks(tasks, "T1", "U2"), ToggleUsers(tasks, users, "T1", "U2"))
  {
    var tasks := map["T1" := Task("todo", Some("U1"), false, "t0", "t0")];
    var users := map["U1" := User("Ann", ["T1"], false), "U2" := User("Bob", [], false)];
    assert Linked(tasks, users);
    UnassignThroughOtherUser(tasks, users, "T1", "U2");
  }

  // ---------------------------------------------------------------------
  // Soft delete

  /** `{ isDeleted: true }` applied to one task. */
  function SoftDeleted(tasks: map<Id, Task>, taskId: Id): map<Id, Task>
    requires taskId in tasks
  {
    tasks[taskId := tasks[taskId].(isDeleted := true)]
  }

  lemma SoftDeleteIdempotent(tasks: map<Id, Task>, taskId: Id)
    requires taskId in tasks
    ensures SoftDeleted(SoftDeleted(tasks, taskId), taskId) == SoftDeleted(tasks, taskId)
  {
  }

  /** A deleted task leaves every listing that excludes deleted tasks, and
      no other task enters or leaves it. */
  lemma DeletedTaskLeavesListing(tasks: map<Id, Task>, order: seq<Id>, taskId: Id, f: TaskFilter)
    requires taskId in tasks && !f.isDeleted
    ensures taskId !in SelectTasks(SoftDeleted(tasks, taskId), order, f)
    ensures forall id :: id != taskId ==>
      (id in SelectTasks(SoftDeleted(tasks, taskId), order, f) <==> id in SelectTasks(tasks, order, f))
  {
    SelectTasksExact(SoftDeleted(tasks, taskId), order, f);
    SelectTasksExact(tasks, order, f);
  }

  // ---------------------------------------------------------------------
  // Handlers

  /** createTask (task.controller.js:9-36). The new task is stored before
      its assignee is looked up, so an assignee id that matches no user
      fails with the task already created. */
  method CreateTask(db: Db, info: Option<Body>, newId: Id, now: Stamp) returns (r: Result<Id>)
    requires db.Valid()
    requires newId !in db.tasks
    modifies db
    ensures db.Valid()
    ensures IsEmptyBody(info) ==> r == Err(BadRequest(CreateTaskError)) && unchanged(db)
    ensures !IsEmptyBody(info) ==>
      db.tasks == old(db.tasks)[newId := NewTask(info.value, db.defaultStatus, now)] &&
      db.taskOrder == old(db.taskOrder) + [newId] &&
      db.userOrder == old(db.userOrder)
    ensures !IsEmptyBody(info) && AssigneeOf(info.value).None? ==>
      r == Ok(newId) && db.users == old(db.users)
    ensures !IsEmptyBody(info) && AssigneeOf(info.value).Some? ==>
      var u := AssigneeOf(info.value).value;
      if u in old(db.users) then
        r == Ok(newId) &&
        db.users == old(db.users)[u := old(db.users)[u].(tasks := old(db.users)[u].tasks + [newId])]
      else
        r == Err(ReadTasksOfNull) && db.users == old(db.users)
  {
    if IsEmptyBody(info) {
      return Err(BadRequest(CreateTaskError));
    }
    EnumeratesAppend(db.taskOrder, db.tasks.Keys, newId);
    db.tasks := db.tasks[newId := NewTask(info.value, db.defaultStatus, now)];
    db.taskOrder := db.taskOrder + [newId];
    var assigneeId := AssigneeOf(info.value);
    if assigneeId.Some? {
      if assigneeId.value !in db.users {
        return Err(ReadTasksOfNull);
      }
      var assignee := db.users[assigneeId.value];
      assignee := assignee.(tasks := assignee.tasks + [newId]);
      db.users := db.users[assigneeId.value := assignee];
    }
    r := Ok(newId);
  }

  /** getTasks (task.controller.js:39-53): the filter starts as
      `{ isDeleted: false }` and gains each query field that is truthy. */
  method GetTasks(db: Db, status: Option<string>, createdAt: Option<Stamp>, updatedAt: Option<Stamp>) returns (found: seq<Id>)
    requires db.Valid()
    ensures forall id :: id in found <==>
      id in db.tasks && !db.tasks[id].isDeleted &&
      (Truthy(status) ==> db.tasks[id].status == status.value) &&
      (Truthy(createdAt) ==> db.tasks[id].createdAt == createdAt.value) &&
      (Truthy(updatedAt) ==> db.tasks[id].updatedAt == updatedAt.value)
    ensures Distinct(found)
  {
    var filter := TaskFilter(false, None, None, None);
    if Truthy(status) {
      filter := filter.(status := status);
    }
    if Truthy(createdAt) {
      filter := filter.(createdAt := createdAt);
    }
    if Truthy(updatedAt) {
      filter := filter.(updatedAt := updatedAt);
    }
    found := SelectTasks(db.tasks, db.taskOrder, filter);
    SelectTasksExact(db.tasks, db.taskOrder, filter);
  }

  /** getTaskById (task.controller.js:56-70): existence is checked before
      the id's format; a deleted task is still found. */
  method GetTaskById(db: Db, id: Id, valid: Id -> bool) returns (r: Result<Task>)
    ensures id !in db.tasks ==> r == Err(BadRequest(NoTaskFound))
    ensures id in db.tasks && !valid(id) ==> r == Err(BadRequest(InvalidObjectId))
    ensures r.Ok? <==> id in db.tasks && valid(id)
    ensures r.Ok? ==> r.value == db.tasks[id]
  {
    if id !in db.tasks {
      return Err(BadRequest(NoTaskFound));
    }
    var targetTask := db.tasks[id];
    if !valid(id) {
      return Err(BadRequest(InvalidObjectId));
    }
    r := Ok(targetTask);
  }

  /** searchTasksByUserName (task.controller.js:72-93): the task list, as
      stored, of the first user in store order with that name. */
  method SearchTasksByUserName(db: Db, targetName: string) returns (r: Result<seq<Id>>)
    requires db.Valid()
    ensures r.Err? <==> forall id :: id in db.users ==> db.users[id].name != targetName
    ensures r.Err? ==> r.failure == BadRequest(NoUserFound)
    ensures r.Ok? ==>
      exists i :: 0 <= i < |db.userOrder| && db.userOrder[i] in db.users &&
        db.users[db.userOrder[i]].name == targetName &&
        r.value == db.users[db.userOrder[i]].tasks &&
        (forall j :: 0 <= j < i ==> db.users[db.userOrder[j]].name != targetName)
  {
    NoNameInOrder(db.users, db.userOrder, targetName);
    var user := FirstByName(db.users, db.userOrder, targetName);
    if user.None? {
      return Err(BadRequest(NoUserFound));
    }
    var userTasks := db.users[db.userOrder[user.value]].tasks;
    r := Ok(userTasks);
  }

  /** searchTasksByUserId (task.controller.js:96-119): the user is looked
      up first, but the id's format is checked before whether it was found. */
  method SearchTasksByUserId(db: Db, userId: Id, valid: Id -> bool) returns (r: Result<seq<Id>>)
    ensures !valid(userId) ==> r == Err(BadRequest(InvalidObjectId))
    ensures valid(userId) && userId !in db.users ==> r == Err(BadRequest(NoUserFound))
    ensures r.Ok? <==> valid(userId) && userId in db.users
    ensures r.Ok? ==> r.value == db.users[userId].tasks
  {
    var user := if userId in db.users then Some(db.users[userId]) else None;
    if !valid(userId) {
      return Err(BadRequest(InvalidObjectId));
    }
    if user.None? {
      return Err(BadRequest(NoUserFound));
    }
    r := Ok(user.value.tasks);
  }

  /** The toggle at the heart of assignTask (task.controller.js:136-146),
      shared by the handler as written and the corrected handler. */
  method ToggleAssignee(db: Db, taskId: Id, userId: Id)
    requires db.Valid() && taskId in db.tasks && userId in db.users
    modifies db
    ensures db.Valid()
    ensures db.taskOrder == old(db.taskOrder) && db.userOrder == old(db.userOrder)
    ensures db.tasks == ToggleTasks(old(db.tasks), taskId, userId)
    ensures db.users == ToggleUsers(old(db.tasks), old(db.users), taskId, userId)
  {
    var targetTask := db.tasks[taskId];
    var assignedUser := db.users[userId];
    if targetTask.assignee.Some? {
      targetTask := targetTask.(assignee := None);
      var index := IndexOf(assignedUser.tasks, taskId);
      if index > -1 {
        assignedUser := assignedUser.(tasks := assignedUser.tasks[..index] + assignedUser.tasks[index + 1..]);
      }
      assert assignedUser.tasks == RemoveFirst(old(db.users[userId]).tasks, taskId);
    } else {
      targetTask := targetTask.(assignee := Some(userId));
      assignedUser := assignedUser.(tasks := assignedUser.tasks + [taskId]);
    }
    ghost var tasks0, users0 := db.tasks, db.users;
    db.tasks := db.tasks[taskId := targetTask];
    db.users := db.users[userId := assignedUser];
    assert db.tasks.Keys == tasks0.Keys && db.users.Keys == users0.Keys;
  }

  /** assignTask (task.controller.js:122-159) as written, double negation
      included. Nothing changes on any error path. */
  method AssignTask(db: Db, taskId: Id, assigneeId: Id, valid: Id -> bool) returns (r: Result<Task>)
    requires db.Valid()
    modifies db
    ensures db.Valid()
    ensures var e := AssignRejection(old(db.tasks), old(db.users), taskId, assigneeId, valid);
      if e.Some? then
        r == Err(e.value) && unchanged(db)
      else
        db.tasks == ToggleTasks(old(db.tasks), taskId, assigneeId) &&
        db.users == ToggleUsers(old(db.tasks), old(db.users), taskId, assigneeId) &&
        db.taskOrder == old(db.taskOrder) && db.userOrder == old(db.userOrder) &&
        r == Ok(db.tasks[taskId])
  {
    if taskId !in db.tasks {
      return Err(BadRequest(NoTaskFound));
    }
    if assigneeId !in db.users {
      return Err(BadRequest(NoUserWithId));
    }
    if !valid(taskId) || !!valid(assigneeId) {
      return Err(BadRequest(InvalidObjectId));
    }
    ToggleAssignee(db, taskId, assigneeId);
    r := Ok(db.tasks[taskId]);
  }

  /** assignTask with the guard it evidently intends: both ids must be
      well formed. */
  method AssignTaskIntended(db: Db, taskId: Id, assigneeId: Id, valid: Id -> bool) returns (r: Result<Task>)
    requires db.Valid()
    modifies db
    ensures db.Valid()
    ensures var e := IntendedAssignRejection(old(db.tasks), old(db.users), taskId, assigneeId, valid);
      if e.Some? then
        r == Err(e.value) && unchanged(db)
      else
        db.tasks == ToggleTasks(old(db.tasks), taskId, assigneeId) &&
        db.users == ToggleUsers(old(db.tasks), old(db.users), taskId, assigneeId) &&
        db.taskOrder == old(db.taskOrder) && db.userOrder == old(db.userOrder) &&
        r == Ok(db.tasks[taskId])
  {
    if taskId !in db.tasks {
      return Err(BadRequest(NoTaskFound));
    }
    if assigneeId !in db.users {
      return Err(BadRequest(NoUserWithId));
    }
    if !valid(taskId) || !valid(assigneeId) {
      return Err(BadRequest(InvalidObjectId));
    }
    ToggleAssignee(db, taskId, assigneeId);
    r := Ok(db.tasks[taskId]);
  }

  /** updateTaskStatus (task.controller.js:162-201): existence, then the
      id's format, then the transition rule. */
  method UpdateTaskStatus(db: Db, taskId: Id, newStatus: string, valid: Id -> bool) returns (r: Result<Task>)
    requires db.Valid()
    modifies db
    ensures db.Valid()
    ensures db.users == old(db.users) && db.taskOrder == old(db.taskOrder) && db.userOrder == old(db.userOrder)
    ensures taskId !in old(db.tasks) ==> r == Err(BadRequest(NoTaskFound)) && unchanged(db)
    ensures taskId in old(db.tasks) && !valid(taskId) ==> r == Err(BadRequest(InvalidObjectId)) && unchanged(db)
    ensures taskId in old(db.tasks) && valid(taskId) ==>
      var next := NextStatus(old(db.tasks[taskId].status), newStatus);
      if next.None? then
        r == Err(BadRequest(ArchiveOnly)) && unchanged(db)
      else
        db.tasks == old(db.tasks)[taskId := old(db.tasks[taskId]).(status := next.value)] &&
        r == Ok(db.tasks[taskId])
  {
    if taskId !in db.tasks {
      return Err(BadRequest(NoTaskFound));
    }
    var task := db.tasks[taskId];
    if !valid(taskId) {
      return Err(BadRequest(InvalidObjectId));
    }
    if task.status != Done {
      task := task.(status := newStatus);
    } else {
      if newStatus == Archive {
        task := task.(status := newStatus);
      } else {
        return Err(BadRequest(ArchiveOnly));
      }
    }
    db.tasks := db.tasks[taskId := task];
    r := Ok(task);
  }

  /** deleteTask (task.controller.js:204-231): findByIdAndUpdate writes
      the flag before either check, so a malformed id of an existing task
      still deletes it and then reports the format error. */
  method DeleteTask(db: Db, taskId: Id, valid: Id -> bool) returns (r: Result<Task>)
    requires db.Valid()
    modifies db
    ensures db.Valid()
    ensures db.users == old(db.users) && db.taskOrder == old(db.taskOrder) && db.userOrder == old(db.userOrder)
    ensures taskId !in old(db.tasks) ==> r == Err(BadRequest(NoTaskFound)) && unchanged(db)
    ensures taskId in old(db.tasks) ==>
      db.tasks == SoftDeleted(old(db.tasks), taskId) &&
      r == (if valid(taskId) then Ok(db.tasks[taskId]) else Err(BadRequest(InvalidObjectId)))
  {
    var updatedTask: Option<Task> := None;
    if taskId in db.tasks {
      db.tasks := db.tasks[taskId := db.tasks[taskId].(isDeleted := true)];
      updatedTask := Some(db.tasks[taskId]);
    }
    if updatedTask.None? {
      return Err(BadRequest(NoTaskFound));
    }
    if !valid(taskId) {
      return Err(BadRequest(InvalidObjectId));
    }
    r := Ok(updatedTask.value);
  }
}
