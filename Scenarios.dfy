/** Request sequences on a fresh store, proved from the handlers'
    contracts alone. */
module Scenarios {
  import opened Records
  import opened Responses
  import opened Store
  import opened TaskController
  import opened UserController

  /** A task moved to `done` cannot go back to `in-progress` but can move
      on to `archive`. */
  method DoneIsArchiveOnlyExample(defaultStatus: string, valid: Id -> bool)
    returns (toDone: Result<Task>, back: Result<Task>, toArchive: Result<Task>)
    requires defaultStatus != Done && valid("T1")
    ensures toDone.Ok? && toDone.value.status == Done
    ensures back == Err(BadRequest(ArchiveOnly))
    ensures toArchive.Ok? && toArchive.value.status == Archive
  {
    var db := new Db(defaultStatus);
    var body := map["title" := Text("X")];
    assert body.Keys == {"title"} && "assignee" !in body;
    var created := CreateTask(db, Some(body), "T1", "t0");
    assert db.tasks["T1"].status == defaultStatus;
    toDone := UpdateTaskStatus(db, "T1", Done, valid);
    assert db.tasks["T1"].status == Done;
    assert "in-progress" != Archive;
    back := UpdateTaskStatus(db, "T1", "in-progress", valid);
    assert db.tasks["T1"].status == Done;
    toArchive := UpdateTaskStatus(db, "T1", Archive, valid);
  }

  /** A deleted task drops out of the default listing but is still found
      by id, flagged as deleted. */
  method DeleteHidesFromListingExample(defaultStatus: string, valid: Id -> bool)
    returns (deleted: Result<Task>, listed: seq<Id>, found: Result<Task>)
    requires valid("T1")
    ensures deleted.Ok? && deleted.value.isDeleted
    ensures "T1" !in listed
    ensures found.Ok? && found.value.isDeleted
  {
    var db := new Db(defaultStatus);
    var body := map["title" := Text("X")];
    assert body.Keys == {"title"} && "assignee" !in body;
    var created := CreateTask(db, Some(body), "T1", "t0");
    deleted := DeleteTask(db, "T1", valid);
    listed := GetTasks(db, None, None, None);
    found := GetTaskById(db, "T1", valid);
  }

  /** The store after creating user "Ann" (U1) and then task "X" (T1). */
  method AnnAndTaskX(defaultStatus: string) returns (db: Db)
    ensures fresh(db) && db.Valid()
    ensures db.users == map["U1" := User("Ann", [], false)] && db.userOrder == ["U1"]
    ensures "T1" in db.tasks && db.tasks["T1"].assignee.None? && db.taskOrder == ["T1"]
  {
    db := new Db(defaultStatus);
    var userBody := map["name" := Text("Ann")];
    assert userBody.Keys == {"name"} && "tasks" !in userBody;
    var user := CreateUser(db, Some(userBody), "U1");
    assert db.tasks == map[] && db.taskOrder == [];
    var taskBody := map["title" := Text("X")];
    assert taskBody.Keys == {"title"} && "assignee" !in taskBody;
    var task := CreateTask(db, Some(taskBody), "T1", "t0");
  }

  /** With both ids well formed, the handler as written refuses to assign
      T1 to Ann, the corrected handler links both sides, and the tasks of
      "Ann" are then [T1]. */
  method AssignExample(defaultStatus: string, valid: Id -> bool)
    returns (asWritten: Result<Task>, intended: Result<Task>, tasksOfAnn: Result<seq<Id>>)
    requires valid("U1") && valid("T1")
    ensures asWritten == Err(BadRequest(InvalidObjectId))
    ensures intended.Ok? && intended.value.assignee == Some("U1")
    ensures tasksOfAnn == Ok(["T1"])
  {
    var db := AnnAndTaskX(defaultStatus);
    asWritten := AssignTask(db, "T1", "U1", valid);
    ghost var tasks0, users0 := db.tasks, db.users;
    intended := AssignTaskIntended(db, "T1", "U1", valid);
    assert db.users == ToggleUsers(tasks0, users0, "T1", "U1");
    assert [] + ["T1"] == ["T1"];
    assert db.users == map["U1" := User("Ann", ["T1"], false)] && db.userOrder == ["U1"];
    tasksOfAnn := SearchTasksByUserName(db, "Ann");
  }
}
