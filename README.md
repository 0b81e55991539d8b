# Task-management API: controllers modelled in Dafny

This is a model of the two controllers of a small task-management REST API (Express + Mongoose). There are two kinds of document. A **Task** has a `status` string, an optional `assignee` (a user id), an `isDeleted` flag and two timestamps. A **User** has a `name`, an ordered `tasks` list of task ids and an `isDeleted` flag.

The handlers are modelled as Dafny methods over an in-memory store:

- `Store.Db` is a class whose fields are the two collections. Each collection is a map from id to document, plus the order in which the documents were inserted. Mongoose reads and writes become reads and reassignments of these fields.
- `Db.Valid()` says that each order lists every key of its map exactly once.
- Every `throw new AppError(400, "Bad Request", msg)` becomes `Err(AppError(400, "Bad Request", msg))`.
- In createTask, `assignee.tasks` on an assignee that `findById` did not find becomes `Err(TypeError(...))`. This is the only handler whose reply carries such a failure. In createUser the same kind of failure happens inside an un-awaited callback: it writes nothing, and the handler still returns `Ok` (see "## Left out").
- `ObjectId.isValid` is the parameter `valid: Id -> bool`. It is uninterpreted.
- Ids that the store generates, and the creation time, are also parameters. A new id is required not to be in use.

Modules:

- `Responses`: the error and result shapes (`sendResponse`, `AppError`, `next(err)`).
- `Records`: the documents and the request bodies. A body is `Option<map<string, Value>>`, where `None` means a missing body.
- `Lists`: the JavaScript array operations used on a user's task list (`push`, `indexOf`, `splice`).
- `Store`: the collections, `Task.find` / `User.find` as filters in store order, and `User.findOne({ name })` as the first match in store order.
- `TaskController`, `UserController`: the handlers, plus the pure functions and lemmas that specify them.
- `Scenarios`: short request sequences on a fresh store, proved from the handlers' contracts alone.

What the model keeps from the code:

- The guard order. Every handler looks a document up before it checks the id's format, and `searchTasksByUserId` checks the format before it checks whether the lookup found anything.
- The double negation in `assignTask`.
- The assign/unassign toggle. It pushes, or it removes only the first occurrence. The user it edits need not be the task's current assignee.
- The status rule. Only `done` restricts: from `done`, `archive` is the only destination. `archive` itself accepts anything.
- The partial writes:
  - `createTask` stores the task before it looks up the assignee.
  - `deleteTask` sets the flag before it checks the id's format.

Where the documented design and the code differ, the model follows the code:

- There is no check of `newStatus` against an accepted set.
- Assigning does not de-duplicate the user's list. It toggles instead of always assigning.
- `findOne({ name })` and `findById` also find deleted documents.
- User listing has no paging and no name filter.
- The two-way link is not kept. The design says a task's assignee lists the task, and every task a user lists names that user back (`Store.Linked`). The code breaks this in two ways:
  - The unassign branch edits the user named in the request, not the task's current assignee. From tasks {T1: assigned to U1} and users {U1: [T1], U2: []}, toggling T1 with U2 clears T1's assignee while U1 still lists T1.
  - createUser's back-link overwrites each listed task's assignee. It does not take the task out of its previous assignee's list.

## Model

| member | source | states |
|---|---|---|
| `Lists.IndexOf` | controllers/task.controller.js:138 | -1 exactly when the element is absent; otherwise a position holding it with no earlier occurrence |
| `Lists.RemoveFirst` | controllers/task.controller.js:138-139 | unchanged when the id is absent; otherwise the list with exactly its first occurrence cut out; one copy fewer in the multiset |
| `Lists.RemoveFirstUndoesPush` | controllers/task.controller.js:136-143 | removing the first occurrence of a just-pushed id restores the list when it did not hold the id before |
| `Lists.PushThenRemoveFirstKeepsElements` | controllers/task.controller.js:136-143 | push then remove-first always keeps the same elements, but the order may change |
| `Lists.PushThenRemoveFirstReorders` | controllers/task.controller.js:136-143 | the order can change: pushing "a" onto ["a", "b"] and then removing the first "a" gives ["b", "a"] |
| `Lists.PushDuplicates` | controllers/task.controller.js:142 | pushing an id the list already holds leaves two copies of it |
| `Store.SelectTasksExact` | controllers/task.controller.js:41-47 | `Task.find(filter)` lists a task exactly when it is stored and matches every field of the filter object; no task repeats |
| `Store.SelectActiveUsersExact` | controllers/user.controller.js:42-45 | `User.find({ isDeleted: false })` lists exactly the stored users not deleted; no user repeats |
| `Store.FirstByName` | controllers/user.controller.js:58 | `findOne({ name })` gives the first position in store order holding a user with that name; None exactly when no position does |
| `TaskController.NextStatus` | controllers/task.controller.js:175-187 | the move to `requested` is refused exactly when the task is `done` and `requested` is not `archive`; otherwise the new status is `requested` |
| `TaskController.DoneIsArchiveOnly` | controllers/task.controller.js:175-187 | from `done` only `archive` is accepted (`done` to `done` is refused); from `archive` every status is accepted |
| `TaskController.DoneThenBack` | controllers/task.controller.js:175-187 | from any status other than `done`, moving to `done` succeeds; after that, `in-progress` is refused and `archive` is accepted |
| `TaskController.AssignRejection` | controllers/task.controller.js:127-134 | a missing task is reported first and a missing user next; the toggle is reached exactly when both exist, the task id is valid and the assignee id is NOT valid |
| `TaskController.IntendedAssignRejection` | controllers/task.controller.js:127-134 | the same guard order with a single negation: the toggle is reached exactly when both exist and both ids are valid |
| `TaskController.AsWrittenNeverToggles` | controllers/task.controller.js:130-134 | if every stored user id is well formed, assignTask as written refuses every request; with task and user present, the error is "Not a valid object id" |
| `TaskController.IntendedTogglesValidIds` | controllers/task.controller.js:133-134 | with the corrected guard, an existing task and user with valid ids always reach the toggle |
| `TaskController.ToggleLinks` | controllers/task.controller.js:136-146 | assigning sets the assignee and adds one copy of the id to the user's list; unassigning clears the assignee and removes one copy; all other tasks and users are unchanged |
| `TaskController.ToggleTwiceRestores` | controllers/task.controller.js:136-146 | toggling twice restores both collections when the task was unassigned and the user's list lacked its id |
| `TaskController.UnassignThroughOtherUser` | controllers/task.controller.js:136-140 | unassigning a task through a user who is not its assignee clears the assignee, leaves the assignee's list as it was, and breaks the two-way link |
| `TaskController.UnassignThroughOtherUserExample` | controllers/task.controller.js:136-140 | from linked tasks {T1: U1} and users {U1: [T1], U2: []}, toggling T1 with U2 gives collections that are no longer linked |
| `TaskController.SoftDeleteIdempotent` | controllers/task.controller.js:210-214 | setting `isDeleted: true` twice is the same as setting it once |
| `TaskController.DeletedTaskLeavesListing` | controllers/task.controller.js:210-214 | after a soft delete the task leaves every listing that excludes deleted tasks; no other task enters or leaves |
| `TaskController.CreateTask` | controllers/task.controller.js:9-36 | missing or empty body: error, nothing changes. Otherwise the new task is appended to the store. With a truthy assignee that exists, the new id goes to the end of that user's list and no other user changes. With one that does not exist: TypeError, and the task stays created |
| `TaskController.GetTasks` | controllers/task.controller.js:39-53 | lists exactly the non-deleted tasks equal to each of `status`, `createdAt`, `updatedAt` that is present and non-empty; an absent or empty field filters nothing; no task repeats |
| `TaskController.GetTaskById` | controllers/task.controller.js:56-70 | a missing task is reported before a malformed id; otherwise the stored task, deleted or not |
| `TaskController.SearchTasksByUserName` | controllers/task.controller.js:72-93 | error exactly when no user (deleted or not) has the name; otherwise the stored task list of the first such user in store order |
| `TaskController.SearchTasksByUserId` | controllers/task.controller.js:96-119 | a malformed id is reported before a missing user; otherwise that user's task list as stored |
| `TaskController.ToggleAssignee` | controllers/task.controller.js:136-146 | the new task and user collections are the toggle functions of the old ones; the orders are unchanged |
| `TaskController.AssignTask` | controllers/task.controller.js:122-159 | on every rejection (as written, double negation included) the store is unchanged and the rejection is returned; otherwise the toggle is applied and the updated task returned |
| `TaskController.AssignTaskIntended` | controllers/task.controller.js:127-146 | the same with the corrected identifier guard |
| `TaskController.UpdateTaskStatus` | controllers/task.controller.js:162-201 | checks in order: missing task, malformed id, then the transition rule; a refusal leaves the store unchanged; an accepted move changes only that task's status |
| `TaskController.DeleteTask` | controllers/task.controller.js:204-231 | an unknown id is an error with nothing changed; otherwise only that task's flag is set, and the result is the updated task if the id is valid, or a format error after the write |
| `UserController.AssignEachSpec` | controllers/user.controller.js:18-24 | the back-link makes the new user the assignee of every listed task that exists, leaves unlisted tasks as they were, and adds no task |
| `UserController.BacklinkLeavesPreviousOwner` | controllers/user.controller.js:18-24 | when a listed task already belonged to another user who lists it, the back-link makes the new user its assignee and the collections are no longer linked |
| `UserController.BacklinkLeavesPreviousOwnerExample` | controllers/user.controller.js:18-24 | from linked tasks {T1: U1} and users {U1: [T1]}, creating U2 with tasks [T1] gives collections that are no longer linked |
| `UserController.CreateUser` | controllers/user.controller.js:8-38 | missing or empty body: error, nothing changes. Otherwise exactly one user is added at the end, existing users are unchanged, and the tasks become the back-link of the old ones |
| `UserController.GetUsers` | controllers/user.controller.js:41-51 | lists exactly the users with `isDeleted == false`, each once |
| `UserController.SearchUser` | controllers/user.controller.js:54-66 | error exactly when no user has the name; otherwise a user with that name that no earlier user in store order shares |
| `Scenarios.DoneIsArchiveOnlyExample` | controllers/task.controller.js:162-201 | a new task moved to `done` then fails to return to `in-progress`, and then moves to `archive` |
| `Scenarios.DeleteHidesFromListingExample` | controllers/task.controller.js:204-231 | a deleted task is absent from the default listing and still found by id, flagged deleted |
| `Scenarios.AssignExample` | controllers/task.controller.js:122-159 | for user Ann (U1) and task T1 with valid ids, the handler as written refuses and the corrected one links both sides; Ann's tasks are then [T1] |

## Findings

| source | as written | input that shows it | evidently intended | confidence | as-written member | corrected member |
|---|---|---|---|---|---|---|
| controllers/task.controller.js:133 | the second operand of the identifier guard negates `ObjectId.isValid(assigneeId)` twice, so the guard rejects when the assignee id is well formed | an existing task and an existing user, both with well-formed ObjectId ids: the reply is always 400 "Not a valid object id", because every stored user id is well formed and assignTask never reaches the toggle (`AsWrittenNeverToggles`, `Scenarios.AssignExample`) | reject when either id is malformed | high; not executed | `TaskController.AssignTask` | `TaskController.AssignTaskIntended` |

## Left out

- Routing (`routes/task.api.js`, `routes/user.api.js`) is Express wiring and is not modelled. The routes import `searchTasksByUser`, `unassignTask` and `getUserById`, which the controllers never export. The controllers export `searchTasksByUserName`, `searchTasksByUserId` and `searchUser` instead, and those are modelled.
- HTTP rendering of `sendResponse` and of the error handler: a handler's outcome is the `Result` value.
- `populate("assignee")` and `populate("tasks")`: results carry ids and stored documents, not joined ones.
- Mongoose internals are not modelled: CastError on malformed ids, schema validation (a status enum, required fields), defaults other than `status`, and the automatic `createdAt`/`updatedAt` updates on save. Every id string is looked up as is. Timestamps are opaque strings set once at creation.
- The Task and User schemas (`models/Task.js`, `models/User.js`) are not part of this model. `Records.NewTask` and `Records.NewUser` stand in for the documents `Task.create(info)` and `User.create(info)` store. They make these choices: the body's status, or else the store's default status; no assignee when the body's assignee is absent or falsy; both timestamps set to the creation time; the body's name, or "" when it is missing; the body's task list; not deleted. Body fields other than `status`, `assignee`, `name` and `tasks` count only toward the empty-body check.
- Query values of getTasks (`status`, `createdAt`, `updatedAt`) are taken to be strings. Express's query parser can also deliver an array (`?status=a&status=b`, which Mongoose matches as `$in`) or an object (`?status[$ne]=done`, a query operator); neither is modelled.
- A body field of the wrong JSON type, such as a string `tasks` or an array `assignee`, is taken as absent. A client-supplied `isDeleted` or timestamp is not stored.
- `newStatus` is a string. A missing `newStatus` (undefined) is not modelled.
- A missing `assigneeId` behaves as an id that matches no user, as `findById(undefined)` resolves to null.
- The un-awaited `info.tasks.map(async ...)` in createUser runs as a sequential loop. A listed id with no task writes nothing, because its callback fails on its own and the response is still a success. The resulting unhandled promise rejection is not modelled.
- Concurrent requests and races between them are not modelled. Neither are database or connection errors passed to `next(err)`.
- Id generation and the clock are parameters: `newId` and `now`.
- TaskController.GetTasks: states which tasks are listed and that none repeats, but not their order. The listing `Store.SelectTasks` builds keeps store order.
- UserController.GetUsers: states which users are listed and that none repeats, but not their order. The listing keeps store order.
