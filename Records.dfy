/** The two stored documents, Task and User, and the request bodies the
    create handlers receive. */
module Records {

  datatype Option<T> = None | Some(value: T)

  /** A document identifier as it travels in a request (params or body). */
  type Id = string

  /** A timestamp, compared only for equality. */
  type Stamp = string

  const Done: string := "done"
  const Archive: string := "archive"

  datatype Task = Task(
    status: string,
    assignee: Option<Id>,
    isDeleted: bool,
    createdAt: Stamp,
    updatedAt: Stamp)

  datatype User = User(name: string, tasks: seq<Id>, isDeleted: bool)

  /** A value of a JSON request body: a string or an array of identifiers. */
  datatype Value = Text(text: string) | Ids(ids: seq<Id>)

  type Body = map<string, Value>

  /** `!info || Object.keys(info).length === 0`: a missing or empty body. */
  predicate IsEmptyBody(info: Option<Body>)
  {
    info.None? || |info.value| == 0
  }

  /** JavaScript truthiness of an optional string: present and not "". */
  predicate Truthy(s: Option<string>)
  {
    s.Some? && s.value != ""
  }

  function TextField(body: Body, key: string): Option<string>
  {
    if key in body && body[key].Text? then Some(body[key].text) else None
  }

  function IdsField(body: Body, key: string): seq<Id>
  {
    if key in body && body[key].Ids? then body[key].ids else []
  }

  /** The assignee named by a create-task body, when `info.assignee` is truthy. */
  function AssigneeOf(info: Body): Option<Id>
  {
    var a := TextField(info, "assignee");
    if Truthy(a) then a else None
  }

  /** The document Task.create(info) stores: the body's status or the
      schema's default, the body's assignee, not deleted, both timestamps
      set to the creation time. */
  function NewTask(info: Body, defaultStatus: string, now: Stamp): Task
  {
    var status := TextField(info, "status");
    Task(if status.Some? then status.value else defaultStatus, AssigneeOf(info), false, now, now)
  }

  /** The document User.create(info) stores: the body's name and task list. */
  function NewUser(info: Body): User
  {
    var name := TextField(info, "name");
    User(if name.Some? then name.value else "", IdsField(info, "tasks"), false)
  }
}
