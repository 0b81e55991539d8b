/** The user handlers: create (with the back-link from each listed task to
    the new user), list, and lookup by name. */
module UserController {
  import opened Records
  import opened Responses
  import opened Store

  /** One callback of `info.tasks.map(...)`: the listed task, when it
      exists, gets the new user as assignee. When it does not, the callback
      fails on its own and writes nothing. */
  function AssignOne(tasks: map<Id, Task>, taskId: Id, userId: Id): map<Id, Task>
  {
    if taskId in tasks then tasks[taskId := tasks[taskId].(assignee := Some(userId))] else tasks
  }

  /** The callbacks run one after the other over the listed ids. */
  function AssignEach(tasks: map<Id, Task>, listed: seq<Id>, userId: Id): map<Id, Task>
  {
    if listed == [] then tasks else AssignEach(AssignOne(tasks, listed[0], userId), listed[1..], userId)
  }

  /** The back-link writes the new user as assignee of every listed task
      that exists, leaves every other task as it was, and adds no task. */
  lemma {:induction false} AssignEachSpec(tasks: map<Id, Task>, listed: seq<Id>, userId: Id)
    ensures AssignEach(tasks, listed, userId).Keys == tasks.Keys
    ensures forall t :: t in tasks && t in listed ==>
      AssignEach(tasks, listed, userId)[t] == tasks[t].(assignee := Some(userId))
    ensures forall t :: t in tasks && t !in listed ==>
      AssignEach(tasks, listed, userId)[t] == tasks[t]
  {
    if listed != [] {
      var next := AssignOne(tasks, listed[0], userId);
      AssignEachSpec(next, listed[1..], userId);
      assert forall t :: t in listed <==> t == listed[0] || t in listed[1..];
    }
  }

  /** The back-link overwrites a listed task's assignee without taking the
      task out of its previous assignee's list, which breaks the two-way
      link. */
  lemma BacklinkLeavesPreviousOwner(tasks: map<Id, Task>, users: map<Id, User>, newUser: User, userId: Id, taskId: Id)
    requires userId !in users
    requires taskId in tasks && taskId in newUser.tasks
    requires tasks[taskId].assignee.Some? && tasks[taskId].assignee.value in users
    requires taskId in users[tasks[taskId].assignee.value].tasks
    ensures taskId in AssignEach(tasks, newUser.tasks, userId) &&
      AssignEach(tasks, newUser.tasks, userId)[taskId].assignee == Some(userId)
    ensures !Linked(AssignEach(tasks, newUser.tasks, userId), users[userId := newUser])
  {
    AssignEachSpec(tasks, newUser.tasks, userId);
    var owner := tasks[taskId].assignee.value;
    var tasks' := AssignEach(tasks, newUser.tasks, userId);
    var users' := users[userId := newUser];
    assert owner != userId && users'[owner] == users[owner];
    assert owner in users' && taskId in users'[owner].tasks && taskId in tasks';
    assert tasks'[taskId].assignee != Some(owner);
  }

  /** Tasks {T1: assigned to U1} and users {U1: [T1]} are linked; creating
      U2 with tasks [T1] leaves them unlinked. */
  lemma BacklinkLeavesPreviousOwnerExample()
    ensures var tasks := map["T1" := Task("todo", Some("U1"), false, "t0", "t0")];
            var users := map["U1" := User("Ann", ["T1"], false)];
            var bob := User("Bob", ["T1"], false);
            Linked(tasks, users) &&
            !Linked(AssignEach(tasks, bob.tasks, "U2"), users["U2" := bob])
  {
    var tasks := map["T1" := Task("todo", Some("U1"), false, "t0", "t0")];
    var users := map["U1" := User("Ann", ["T1"], false)];
    assert Linked(tasks, users);
    BacklinkLeavesPreviousOwner(tasks, users, User("Bob", ["T1"], false), "U2", "T1");
  }

  /** createUser (user.controller.js:8-38). The un-awaited `map` is run as
      a sequential loop after the new user is stored. */
  method CreateUser(db: Db, info: Option<Body>, newId: Id) returns (r: Result<Id>)
    requires db.Valid()
    requires newId !in db.users
    modifies db
    ensures db.Valid()
    ensures IsEmptyBody(info) ==> r == Err(BadRequest(CreateUserError)) && unchanged(db)
    ensures !IsEmptyBody(info) ==>
      r == Ok(newId) &&
      db.users == old(db.users)[newId := NewUser(info.value)] &&
      db.userOrder == old(db.userOrder) + [newId] &&
      db.taskOrder == old(db.taskOrder) &&
      db.tasks == AssignEach(old(db.tasks), IdsField(info.value, "tasks"), newId)
  {
    if IsEmptyBody(info) {
      return Err(BadRequest(CreateUserError));
    }
    EnumeratesAppend(db.userOrder, db.users.Keys, newId);
    db.users := db.users[newId := NewUser(info.value)];
    db.userOrder := db.userOrder + [newId];

    var listed := IdsField(info.value, "tasks");
    var i := 0;
    while i < |listed|
      invariant 0 <= i <= |listed|
      invariant db.users == old(db.users)[newId := NewUser(info.value)]
      invariant db.userOrder == old(db.userOrder) + [newId] && db.taskOrder == old(db.taskOrder)
      invariant db.Valid()
      invariant db.tasks.Keys == old(db.tasks).Keys
      invariant AssignEach(db.tasks, listed[i..], newId) == AssignEach(old(db.tasks), listed, newId)
    {
      var task := listed[i];
      assert listed[i..][0] == task && listed[i..][1..] == listed[i + 1..];
      if task in db.tasks {
        var assignedTask := db.tasks[task];
        assignedTask := assignedTask.(assignee := Some(newId));
        db.tasks := db.tasks[task := assignedTask];
      }
      i := i + 1;
    }
    assert listed[i..] == [];
    AssignEachSpec(old(db.tasks), listed, newId);
    r := Ok(newId);
  }

  /** getUsers (user.controller.js:41-51): exactly the users not deleted,
      each once. */
  function GetUsers(db: Db): (found: seq<Id>)
    reads db
    requires db.Valid()
    ensures forall id :: id in found <==> id in db.users && !db.users[id].isDeleted
    ensures Distinct(found)
  {
    SelectActiveUsersExact(db.users, db.userOrder);
    SelectActiveUsers(db.users, db.userOrder)
  }

  /** searchUser (user.controller.js:54-66): the first user in store order
      with that name, deleted or not. */
  function SearchUser(db: Db, targetName: string): (r: Result<User>)
    reads db
    requires db.Valid()
    ensures r.Err? <==> forall id :: id in db.users ==> db.users[id].name != targetName
    ensures r.Err? ==> r.failure == BadRequest(NoUserFound)
    ensures r.Ok? ==> r.value.name == targetName
    ensures r.Ok? ==>
      exists i :: 0 <= i < |db.userOrder| && db.userOrder[i] in db.users &&
        db.users[db.userOrder[i]] == r.value &&
        (forall j :: 0 <= j < i ==> db.users[db.userOrder[j]].name != targetName)
  {
    NoNameInOrder(db.users, db.userOrder, targetName);
    match FirstByName(db.users, db.userOrder, targetName)
    case None => Err(BadRequest(NoUserFound))
    case Some(i) => Ok(db.users[db.userOrder[i]])
  }
}
