/** The service as a state machine: one request in, the next store and the
    HTTP status out. Requests are served one after another. */
module Server {
  import opened Search
  import opened Domain
  import opened Middleware
  import opened Routes
  import opened Invariants

  /** One request per route, carrying what the handler reads from the path,
      the `username` header and the body, plus the values the handler would
      draw from `uuidv4()` and the clock. */
  datatype Request =
    | PostUser(name: string, username: string, freshId: string)
    | GetUserById(id: string)
    | PatchPro(id: string)
    | GetTodos(header: Option<string>)
    | PostTodo(header: Option<string>, title: string, deadline: Timestamp, now: Timestamp, freshId: string)
    | PutTodo(header: Option<string>, id: string, title: string, deadline: Timestamp)
    | PatchDone(header: Option<string>, id: string)
    | DeleteTodoById(header: Option<string>, id: string)

  /** The generated ids of `req` are unused in `s`. */
  predicate FreshFor(s: Store, req: Request) {
    match req
    case PostUser(_, _, freshId) => FreshUserId(s, freshId)
    case PostTodo(_, _, _, _, freshId) => FreshTodoId(s, freshId)
    case _ => true
  }

  /** The next store, the HTTP status, and the text of the `error` field
      when the answer is an error. */
  datatype Answer = Answer(store: Store, status: int, error: Option<string>)

  function Answered<T>(s: Store, r: Result<Reply<T>>): Answer {
    match r
    case Ok(reply) => Answer(reply.store, reply.status, None)
    case Err(e) => Answer(s, e.Status(), Some(e.Message()))
  }

  /** Serves one request; an error answer leaves the store as it was. */
  function Serve(s: Store, isUuid: string -> bool, req: Request): (a: Answer)
    requires FreshFor(s, req)
    ensures a.status in {200, 201, 204, 400, 403, 404}
    ensures a.status >= 400 ==> a.store == s
    ensures a.status >= 400 <==> a.error.Some?
  {
    match req
    case PostUser(name, username, freshId) => Answered(s, CreateUser(s, name, username, freshId))
    case GetUserById(id) => Answered(s, GetUser(s, id))
    case PatchPro(id) => Answered(s, UpgradeToPro(s, id))
    case GetTodos(header) => Answered(s, ListTodos(s, header))
    case PostTodo(header, title, deadline, now, freshId) =>
      Answered(s, CreateTodo(s, header, title, deadline, now, freshId))
    case PutTodo(header, id, title, deadline) => Answered(s, UpdateTodo(s, isUuid, header, id, title, deadline))
    case PatchDone(header, id) => Answered(s, MarkDone(s, isUuid, header, id))
    case DeleteTodoById(header, id) => Answered(s, DeleteTodo(s, isUuid, header, id))
  }

  /** Whatever request is served, a valid store stays valid and the answer
      is one step away from it. */
  lemma ServeKeepsValid(s: Store, isUuid: string -> bool, req: Request)
    requires Valid(s) && FreshFor(s, req)
    ensures Valid(Serve(s, isUuid, req).store) && Step(s, Serve(s, isUuid, req).store)
  {
    match req
    case PostUser(name, username, freshId) => CreateUserKeepsValid(s, name, username, freshId);
    case GetUserById(id) =>
    case PatchPro(id) => UpgradeToProKeepsValid(s, id);
    case GetTodos(header) =>
    case PostTodo(header, title, deadline, now, freshId) =>
      CreateTodoKeepsValid(s, header, title, deadline, now, freshId);
    case PutTodo(header, id, title, deadline) => UpdateTodoKeepsValid(s, isUuid, header, id, title, deadline);
    case PatchDone(header, id) => MarkDoneKeepsValid(s, isUuid, header, id);
    case DeleteTodoById(header, id) => DeleteTodoKeepsValid(s, isUuid, header, id);
  }

  /** Every request of `reqs` finds its generated ids unused when it is
      served. */
  predicate FreshRun(s: Store, isUuid: string -> bool, reqs: seq<Request>)
    decreases |reqs|
  {
    |reqs| == 0 || (FreshFor(s, reqs[0]) && FreshRun(Serve(s, isUuid, reqs[0]).store, isUuid, reqs[1..]))
  }

  /** The store after serving `reqs` in order. */
  function Run(s: Store, isUuid: string -> bool, reqs: seq<Request>): Store
    requires FreshRun(s, isUuid, reqs)
    decreases |reqs|
  {
    if |reqs| == 0 then s else Run(Serve(s, isUuid, reqs[0]).store, isUuid, reqs[1..])
  }

  /** Users are kept in place with their identity, and `pro` is never
      cleared. Unlike `Step` this survives any number of requests. */
  predicate UsersPersist(s: Store, s': Store) {
    |s| <= |s'| &&
    forall i :: 0 <= i < |s| ==> UserIdentityKept(s[i], s'[i])
  }

  /** Every store the service reaches from a valid one is valid, keeps
      every user, and never clears `pro`; in particular from the empty
      store the process starts with. */
  lemma {:induction false} RunKeepsValid(s: Store, isUuid: string -> bool, reqs: seq<Request>)
    requires Valid(s) && FreshRun(s, isUuid, reqs)
    ensures Valid(Run(s, isUuid, reqs))
    ensures UsersPersist(s, Run(s, isUuid, reqs))
    decreases |reqs|
  {
    if |reqs| > 0 {
      var s1 := Serve(s, isUuid, reqs[0]).store;
      ServeKeepsValid(s, isUuid, reqs[0]);
      RunKeepsValid(s1, isUuid, reqs[1..]);
    }
  }

  lemma EmptyStoreIsValid()
    ensures Valid([])
  {
  }

  /** GET /todos naming a user nobody has answers 404 with
      "User <name> not found!" and changes nothing. */
  lemma UnknownUserAnswer(s: Store, isUuid: string -> bool, name: string)
    requires name != ""
    requires forall j :: 0 <= j < |s| ==> s[j].username != name
    ensures Serve(s, isUuid, GetTodos(Some(name))) == Answer(s, 404, Some("User " + name + " not found!"))
  {
  }

  /** A request without a `username` header, or with an empty one, answers
      404 with "User not defined!" on every route that reads it. */
  lemma MissingHeaderAnswer(s: Store, isUuid: string -> bool, header: Option<string>, id: string)
    requires header.None? || header == Some("")
    ensures Serve(s, isUuid, GetTodos(header)) == Answer(s, 404, Some("User not defined!"))
    ensures Serve(s, isUuid, PatchDone(header, id)) == Answer(s, 404, Some("User not defined!"))
    ensures Serve(s, isUuid, DeleteTodoById(header, id)) == Answer(s, 404, Some("User not defined!"))
  {
  }
}
