# In-memory users and to-dos service, modelled in Dafny

The service keeps one process-wide array of users. Each user has an id, a
name, a username, a `pro` flag and an ordered list of to-dos; each to-do has
an id, a title, a deadline, a `done` flag and a creation time. Eight HTTP
routes read and change that array behind four middlewares:

- `checksExistsUserAccount` resolves the acting user from the `username` header;
- `findUserById` resolves a user from the `:id` path segment;
- `checksCreateTodosUserAvailability` enforces the free plan (at most 10 to-dos unless `pro`);
- `checksTodoExists` resolves the acting user, checks that `:id` is a well-formed
  uuid, and then finds the to-do in that user's own list.

This model makes the array an immutable `Store = seq<User>`. Every middleware and
every handler is a pure function. A middleware returns what it resolved: a user
position, or a `TodoRef` (user position, to-do position). A handler returns
`Ok(Reply(store', status, body))` or `Err(error)`. Each `Error` value carries the
HTTP status (404, 400 or 403) and the `error` message the source sends at that
point. An error answer never carries a store, so a refused request changes
nothing. `Server.Serve` puts the eight routes together into one transition over
a `Request` datatype. `Server.Run` serves a sequence of requests.

Modules, following the source's layers:

| file | module | contents |
|---|---|---|
| search.dfy | `Search` | `find` / `some` (`FirstIndex`) and `indexOf` (`IndexOf`) |
| domain.dfy | `Domain` | `Todo`, `User`, `Store`, `Error`, `Result`, `Reply`, `TodoRef`, framing predicates |
| middleware.dfy | `Middleware` | the four middlewares |
| routes.dfy | `Routes` | the eight handlers, each composed with its middleware chain |
| invariants.dfy | `Invariants` | the store invariant `Valid`, the one-request relation `Step`, preservation lemmas |
| server.dfy | `Server` | requests, `Serve`, runs from any valid store (the process starts from `[]`) |
| scenarios.dfy | `Scenarios` | round trips and request sequences the service promises |

`Valid` says four things:

- usernames are pairwise distinct;
- user ids are pairwise distinct;
- each to-do id occurs at one position of one user's list;
- a user that is not `pro` holds at most 10 to-dos.

`Step(s, s')` says what one successful request may do:

- users are never removed;
- a user's id, name and username never change, and `pro` only goes from false to true;
- a user's to-do list either keeps every to-do at its position and appends new ones after them,
  or has exactly one to-do spliced out;
- a to-do kept at its position keeps its id and creation time, and `done` only goes from false to true;
- a to-do never moves to another user.

Some notes on how the code is modelled:

- `checksTodoExists` repeats the header handling of `checksExistsUserAccount`
  line for line. The model writes that logic once (`CheckUserAccount`) and calls
  it from `ResolveTodo`.
- DELETE runs both middlewares. Because the second repeats the first, its errors
  are the same as `ResolveTodo`'s alone.
- The handlers mutate the user or to-do object that the middleware attached to
  the request. Objects are shared by reference, so the change lands in the
  array. The model updates the store at the resolved position.
- DELETE looks the to-do up again with `indexOf`, which compares object
  identity. The model compares values instead. It proves that this lookup always
  lands on the resolved position, because `find` returned the first to-do with
  that id. So the route's `todoIndex === -1` answer is never given.
- The source does not refuse an empty username in POST /users. Such a user can
  be created, but it can never act through the `username` header, because an
  empty header is refused as "User not defined!" (the last success clause of
  `Middleware.CheckUserAccount`, and `Scenarios.CreatedUserResolves`).

## Model

| member | source | states |
|---|---|---|
| Search.FirstIndex | src/index.js:20-20 | `find`/`some`: the position returned satisfies the predicate and no earlier element does; `None` exactly when no element does |
| Search.IndexOf | src/index.js:184-184 | `indexOf`: -1 exactly when the value is absent, otherwise the first position holding it |
| Middleware.CheckUserAccount | src/index.js:12-29 | absent or empty header gives 404 "User not defined!"; a header no user has gives 404 "User <name> not found!"; otherwise the first user whose username equals the header, which is non-empty |
| Middleware.FindUserById | src/index.js:74-86 | 404 "User <id> not found!" exactly when no user has the id; otherwise the first user with that id |
| Middleware.CheckQuota | src/index.js:31-40 | passes exactly when the user is pro or holds fewer than 10 to-dos; otherwise 403 "<username> exceeded the free plan" |
| Middleware.ResolveTodo | src/index.js:42-72 | errors in source order: header errors of the user check, then 400 for an id that is not a uuid, then 404 when the acting user's own list has no such id; on success the acting user's first to-do with that id |
| Routes.CreateUser | src/index.js:87-109 | 400 with no store exactly when the username is taken; otherwise 201 and one new user (fresh id, pro false, no to-dos) appended after the unchanged earlier users |
| Routes.GetUser | src/index.js:111-115 | 404 exactly when no user has the id; otherwise 200 with that user and the store unchanged |
| Routes.UpgradeToPro | src/index.js:117-129 | 404 for an unknown id; 400 exactly when the user is already pro; otherwise 200, that user's `pro` becomes true, and nothing else in the store changes |
| Routes.ListTodos | src/index.js:131-135 | errors of the user check; otherwise 200 with the acting user's to-dos in order and the store unchanged |
| Routes.CreateTodo | src/index.js:137-157 | errors of the user check; 403 exactly when the user is not pro and holds 10 or more; otherwise 201 and one to-do (fresh id, done false) appended to that user's list only |
| Routes.UpdateTodo | src/index.js:159-167 | errors of the to-do check; otherwise only title and deadline of the resolved to-do change, keeping id, done and creation time; other to-dos and users unchanged |
| Routes.MarkDone | src/index.js:169-175 | errors of the to-do check; otherwise the resolved to-do gets `done = true` and nothing else changes |
| Routes.DeleteTodo | src/index.js:177-194 | errors of the to-do check, and no other error; otherwise 204 and exactly the resolved to-do is removed, the rest in order, other users unchanged |
| Routes.ReplaceTodo | src/index.js:161-164 | writing through the resolved to-do object changes that one position of that one user's list and nothing else |
| Invariants.ResolvedUserIsUnique | src/index.js:90-96 | with usernames kept unique by POST /users, the user the header names is the only one with that username |
| Invariants.UserByIdIsUnique | src/index.js:74-86 | with distinct generated ids, the user found by id is the only one with it |
| Invariants.StepKeepsTodos | src/index.js:145-190 | across one request a list that did not shrink keeps every to-do at its position with its id and creation time and `done` never cleared; a list that shrank lost exactly one to-do, the rest untouched |
| Invariants.RewrittenTodoIsNoStep | src/index.js:159-175 | one example of the above: changing a to-do's id and creation time and clearing its `done` flag is not a `Step` |
| Invariants.ResolvedTodoIsUnique | src/index.js:61-70 | the resolved to-do is the only to-do in the whole store with that id, so a to-do request cannot reach another user's to-do |
| Invariants.CreateUserKeepsValid | src/index.js:90-106 | user creation keeps the invariants and is a `Step` |
| Invariants.UpgradeToProKeepsValid | src/index.js:117-129 | upgrading keeps the invariants, and `pro` only goes false to true |
| Invariants.RewriteInPlaceKeepsValid | src/index.js:159-175 | rewriting to-dos in place without touching id or creation time, and never clearing done, keeps the invariants |
| Invariants.AppendKeepsValid | src/index.js:145-153 | appending a fresh to-do to a user under quota keeps the invariants |
| Invariants.RemoveKeepsValid | src/index.js:184-190 | splicing one to-do out keeps the invariants and the survivors' identity |
| Invariants.CreateTodoKeepsValid | src/index.js:137-157 | the quota gate plus never clearing `pro` keep every free-plan user at 10 to-dos or fewer |
| Invariants.UpdateTodoKeepsValid | src/index.js:159-167 | updating keeps the invariants and is a `Step` |
| Invariants.MarkDoneKeepsValid | src/index.js:169-175 | marking done keeps the invariants, and `done` only goes false to true |
| Invariants.DeleteTodoKeepsValid | src/index.js:177-194 | deleting keeps the invariants and is a `Step` |
| Server.Serve | src/index.js:87-194 | every answer has one of the statuses 200, 201, 204, 400, 403, 404; an error answer (status 400 or more, and only then) carries an `error` text and leaves the store unchanged |
| Server.UnknownUserAnswer | src/index.js:20-25 | GET /todos with a header naming nobody answers 404 "User <name> not found!" and changes nothing |
| Server.MissingHeaderAnswer | src/index.js:14-18 | an absent or empty `username` header answers 404 "User not defined!" on GET /todos, PATCH /todos/:id/done and DELETE /todos/:id |
| Server.ServeKeepsValid | src/index.js:87-194 | every request served on a valid store leaves it valid and one `Step` away |
| Server.RunKeepsValid | src/index.js:10-194 | any sequence of requests from a valid store (the empty array the process starts with) reaches a valid store, keeps every user and its identity, and never clears `pro` |
| Server.EmptyStoreIsValid | src/index.js:10-10 | the initial empty array satisfies the invariants |
| Scenarios.CreatedUserResolves | src/index.js:98-108 | a created user is found by its id, and by the header exactly when its username is non-empty |
| Scenarios.DuplicateUsernameRefused | src/index.js:90-96 | creating a second user with the same username answers 400 |
| Scenarios.UpgradeTwiceRefused | src/index.js:120-126 | the first upgrade sets pro; the second answers 400 |
| Scenarios.CreatedKeepsOthersFresh | src/index.js:145-153 | creating a to-do uses up only its own id |
| Scenarios.FreePlanAllowsUpToLimit | src/index.js:35-39 | a batch of creations succeeds exactly when the user is pro or ends within 10 to-dos, and is otherwise refused with 403 |
| Scenarios.EleventhTodoRefused | src/index.js:35-39 | from an empty free-plan user, ten creations succeed and the eleventh is refused with "<username> exceeded the free plan" (403) |
| Scenarios.CreatedTodoResolves | src/index.js:145-153 | a created to-do is resolved by its id, at the end of its owner's list |
| Scenarios.RewriteKeepsResolution | src/index.js:62-64 | rewriting a to-do in place leaves the to-do check resolving to the same position |
| Scenarios.MarkDoneIdempotent | src/index.js:169-175 | marking done a second time succeeds and leaves the store as the first time |
| Scenarios.UpdatedTodoResolves | src/index.js:159-167 | an updated to-do is still found under its id, with the new title and deadline and its old done flag |
| Scenarios.DeletedTodoGone | src/index.js:184-190 | after a delete the owner's list holds no to-do with that id, and the to-do check answers 404 |

## Left out

- Express routing, `express.json()` body parsing, CORS and response serialisation are left out. A handler's inputs are the header, path and body values, already extracted. Its answer is a status and a body value.
- Body fields that are missing or not strings are left out. In the source, `name`, `username` and `title` then become `undefined` or another JSON value. The model takes them as strings.
- `uuidv4()` is left out. Each create takes the generated id as a parameter, and its precondition says the id is unused in the store.
- The internals of the uuid library's `validate` are left out. It is passed in as an arbitrary predicate `isUuid`. `Scenarios.CreatedTodoResolves` assumes that `isUuid` accepts the generated id, as `validate(uuidv4())` does.
- `new Date(deadline)` and `new Date()` are left out: date parsing, Invalid Date, and the wall clock. Deadlines and creation times are `Timestamp` values supplied by the caller.
- `console.log` (src/index.js:33) and `module.exports` are left out: they have no effect on the store or the answers.
- Repeated `username` headers are left out. Node joins them into one string, and the model takes the header as one optional string.
- Concurrent requests are left out. The handlers run to completion one at a time, so the model serves requests in sequence.
- Server.RunKeepsValid: does not carry the to-do part of `Step` across a run. `Step` describes one request: an append or a single removal, not a combination of them. A run may also delete a to-do and later reuse its id, because freshness is only required against the current store. The guarantee that to-dos keep their ids, never change owner and keep `done` set is therefore stated for one request (`Server.ServeKeepsValid`).
