/** The document store the controllers talk to: the Task and User
    collections as maps from identifier to document, each with the order in
    which its documents were inserted (the order find and findOne scan). */
module Store {
  import opened Records

  predicate Distinct(s: seq<Id>)
  {
    forall i, j :: 0 <= i < j < |s| ==> s[i] != s[j]
  }

  /** `order` lists every key of the collection exactly once. */
  ghost predicate Enumerates(order: seq<Id>, keys: set<Id>)
  {
    Distinct(order) && forall k :: k in order <==> k in keys
  }

  /** The two-way link the design intends between the collections: an
      assigned task is in its assignee's list, and every task a user lists
      names that user as its assignee. */
  predicate Linked(tasks: map<Id, Task>, users: map<Id, User>)
  {
    (forall t :: t in tasks && tasks[t].assignee.Some? && tasks[t].assignee.value in users ==>
       t in users[tasks[t].assignee.value].tasks) &&
    (forall u, t :: u in users && t in users[u].tasks && t in tasks ==> tasks[t].assignee == Some(u))
  }

  /** The filter object getTasks hands to Task.find: the isDeleted flag
      and the optional equality fields. */
  datatype TaskFilter = TaskFilter(
    isDeleted: bool,
    status: Option<string>,
    createdAt: Option<Stamp>,
    updatedAt: Option<Stamp>)

  /** A document matches a filter when it equals every field the filter sets. */
  predicate Admits(f: TaskFilter, t: Task)
  {
    t.isDeleted == f.isDeleted &&
    (f.status.Some? ==> t.status == f.status.value) &&
    (f.createdAt.Some? ==> t.createdAt == f.createdAt.value) &&
    (f.updatedAt.Some? ==> t.updatedAt == f.updatedAt.value)
  }

  /** Task.find(filter): the matching tasks, in store order. */
  function SelectTasks(tasks: map<Id, Task>, order: seq<Id>, f: TaskFilter): seq<Id>
  {
    if order == [] then []
    else
      var rest := SelectTasks(tasks, order[1..], f);
      if order[0] in tasks && Admits(f, tasks[order[0]]) then [order[0]] + rest else rest
  }

  lemma {:induction false} SelectTasksExact(tasks: map<Id, Task>, order: seq<Id>, f: TaskFilter)
    ensures forall id :: id in SelectTasks(tasks, order, f) <==> id in order && id in tasks && Admits(f, tasks[id])
    ensures Distinct(order) ==> Distinct(SelectTasks(tasks, order, f))
  {
    if order != [] {
      SelectTasksExact(tasks, order[1..], f);
      if Distinct(order) {
        assert Distinct(order[1..]) by {
          forall i, j | 0 <= i < j < |order[1..]| ensures order[1..][i] != order[1..][j] {
            assert order[1..][i] == order[i + 1] && order[1..][j] == order[j + 1];
          }
        }
        assert order[0] !in order[1..] by {
          forall k | 0 <= k < |order[1..]| ensures order[1..][k] != order[0] {
            assert order[1..][k] == order[k + 1];
          }
        }
      }
    }
  }

  /** User.find({ isDeleted: false }): the users not deleted, in store order. */
  function SelectActiveUsers(users: map<Id, User>, order: seq<Id>): seq<Id>
  {
    if order == [] then []
    else
      var rest := SelectActiveUsers(users, order[1..]);
      if order[0] in users && !users[order[0]].isDeleted then [order[0]] + rest else rest
  }

  lemma {:induction false} SelectActiveUsersExact(users: map<Id, User>, order: seq<Id>)
    ensures forall id :: id in SelectActiveUsers(users, order) <==> id in order && id in users && !users[id].isDeleted
    ensures Distinct(order) ==> Distinct(SelectActiveUsers(users, order))
  {
    if order != [] {
      SelectActiveUsersExact(users, order[1..]);
      if Distinct(order) {
        assert Distinct(order[1..]) by {
          forall i, j | 0 <= i < j < |order[1..]| ensures order[1..][i] != order[1..][j] {
            assert order[1..][i] == order[i + 1] && order[1..][j] == order[j + 1];
          }
        }
        assert order[0] !in order[1..] by {
          forall k | 0 <= k < |order[1..]| ensures order[1..][k] != order[0] {
            assert order[1..][k] == order[k + 1];
          }
        }
      }
    }
  }

  /** User.findOne({ name }): the position, in store order, of the first
      user with that name, deleted or not; None when there is none. */
  function FirstByName(users: map<Id, User>, order: seq<Id>, name: string): (r: Option<nat>)
    ensures r.Some? ==> r.value < |order| && order[r.value] in users && users[order[r.value]].name == name
    ensures r.Some? ==> forall j :: 0 <= j < r.value ==> order[j] !in users || users[order[j]].name != name
    ensures r.None? <==> forall j :: 0 <= j < |order| ==> order[j] !in users || users[order[j]].name != name
  {
    if order == [] then None
    else if order[0] in users && users[order[0]].name == name then Some(0)
    else
      match FirstByName(users, order[1..], name)
      case None =>
        assert forall j :: 1 <= j < |order| ==> order[j] == order[1..][j - 1];
        None
      case Some(i) =>
        assert forall j :: 1 <= j < |order| ==> order[j] == order[1..][j - 1];
        Some(i + 1)
  }

  /** The two collections. Mongoose calls on a loaded document become reads
      and writes of these fields. */
  class Db {
    var tasks: map<Id, Task>
    var taskOrder: seq<Id>
    var users: map<Id, User>
    var userOrder: seq<Id>
    /** The default the Task schema gives `status`. */
    const defaultStatus: string

    ghost predicate Valid()
      reads this
    {
      Enumerates(taskOrder, tasks.Keys) && Enumerates(userOrder, users.Keys)
    }

    constructor (defaultStatus: string)
      ensures Valid() && this.defaultStatus == defaultStatus
      ensures tasks == map[] && taskOrder == [] && users == map[] && userOrder == []
    {
      this.defaultStatus := defaultStatus;
      tasks, taskOrder := map[], [];
      users, userOrder := map[], [];
    }
  }

  /** Appending a fresh key to an enumeration of a key set enumerates the
      key set extended by it. */
  lemma EnumeratesAppend(order: seq<Id>, keys: set<Id>, k: Id)
    requires Enumerates(order, keys) && k !in keys
    ensures Enumerates(order + [k], keys + {k})
  {
  }

  /** Over a whole collection, "no position of the order holds a user with
      that name" and "no user has that name" say the same thing. */
  lemma NoNameInOrder(users: map<Id, User>, order: seq<Id>, name: string)
    requires Enumerates(order, users.Keys)
    ensures (forall j :: 0 <= j < |order| ==> order[j] !in users || users[order[j]].name != name)
        <==> (forall id :: id in users ==> users[id].name != name)
  {
  }
}
