/** The route handlers, each composed with the middleware chain it is
    mounted behind. A handler takes the store and the request's inputs and
    returns either the next store with the answer, or the error answer; on
    an error the store is left as it was. */
module Routes {
  import opened Search
  import opened Domain
  import opened Middleware

  /** POST /users. `freshId` stands for `uuidv4()`. */
  function CreateUser(s: Store, name: string, username: string, freshId: string): (r: Result<Reply<User>>)
    requires FreshUserId(s, freshId)
    ensures r.Err? <==> exists j :: 0 <= j < |s| && s[j].username == username
    ensures r.Err? ==> r.error == UsernameAlreadyExists && r.error.Status() == 400
    ensures r.Ok? ==> && r.value.status == 201
                      && r.value.body == User(freshId, name, username, false, [])
                      && |r.value.store| == |s| + 1
                      && r.value.store[..|s|] == s
                      && r.value.store[|s|] == r.value.body
  {
    if FirstIndex(s, (u: User) => u.username == username).Some? then
      Err(UsernameAlreadyExists)
    else
      var user := User(freshId, name, username, false, []);
      Ok(Reply(s + [user], 201, user))
  }

  /** GET /users/:id. */
  function GetUser(s: Store, id: string): (r: Result<Reply<User>>)
    ensures r.Err? <==> FindUserById(s, id).Err?
    ensures r.Err? ==> r.error == UserIdNotFound(id)
    ensures r.Ok? ==> && r.value.store == s
                      && r.value.status == 200
                      && r.value.body == s[FindUserById(s, id).value]
                      && r.value.body.id == id
  {
    var k :- FindUserById(s, id);
    Ok(Reply(s, 200, s[k]))
  }

  /** PATCH /users/:id/pro. */
  function UpgradeToPro(s: Store, id: string): (r: Result<Reply<User>>)
    ensures FindUserById(s, id).Err? ==> r == Err(UserIdNotFound(id))
    ensures FindUserById(s, id).Ok? ==>
              var k := FindUserById(s, id).value;
              && (r.Err? <==> s[k].pro)
              && (r.Err? ==> r.error == ProAlreadyActivated && r.error.Status() == 400)
              && (r.Ok? ==> && r.value.status == 200
                            && OthersUnchanged(s, r.value.store, k)
                            && r.value.store[k] == s[k].(pro := true)
                            && r.value.body == r.value.store[k])
  {
    var k :- FindUserById(s, id);
    if s[k].pro then
      Err(ProAlreadyActivated)
    else
      var user := s[k].(pro := true);
      Ok(Reply(s[k := user], 200, user))
  }

  /** GET /todos. */
  function ListTodos(s: Store, header: Option<string>): (r: Result<Reply<seq<Todo>>>)
    ensures r.Err? <==> CheckUserAccount(s, header).Err?
    ensures r.Err? ==> r.error == CheckUserAccount(s, header).error
    ensures r.Ok? ==> && r.value.store == s
                      && r.value.status == 200
                      && r.value.body == s[CheckUserAccount(s, header).value].todos
  {
    var k :- CheckUserAccount(s, header);
    Ok(Reply(s, 200, s[k].todos))
  }

  /** POST /todos, behind the user check and the quota check. `freshId`
      stands for `uuidv4()`, `deadline` for the parsed request date and
      `now` for the creation clock. */
  function CreateTodo(s: Store, header: Option<string>, title: string, deadline: Timestamp, now: Timestamp,
                      freshId: string): (r: Result<Reply<Todo>>)
    requires FreshTodoId(s, freshId)
    ensures CheckUserAccount(s, header).Err? ==> r == Err(CheckUserAccount(s, header).error)
    ensures CheckUserAccount(s, header).Ok? ==>
              var k := CheckUserAccount(s, header).value;
              && (r.Ok? <==> s[k].pro || |s[k].todos| < FreePlanLimit)
              && (r.Err? ==> r.error == FreePlanExceeded(s[k].username))
              && (r.Ok? ==> && r.value.status == 201
                            && r.value.body == Todo(freshId, title, deadline, false, now)
                            && OthersUnchanged(s, r.value.store, k)
                            && r.value.store[k] == s[k].(todos := s[k].todos + [r.value.body]))
  {
    var k :- CheckUserAccount(s, header);
    var _ :- CheckQuota(s[k]);
    var todo := Todo(freshId, title, deadline, false, now);
    Ok(Reply(s[k := s[k].(todos := s[k].todos + [todo])], 201, todo))
  }

  /** PUT /todos/:id: overwrites title and deadline of the resolved to-do. */
  function UpdateTodo(s: Store, isUuid: string -> bool, header: Option<string>, id: string,
                      title: string, deadline: Timestamp): (r: Result<Reply<Todo>>)
    ensures r.Err? <==> ResolveTodo(s, isUuid, header, id).Err?
    ensures r.Err? ==> r.error == ResolveTodo(s, isUuid, header, id).error
    ensures r.Ok? ==>
              var t := ResolveTodo(s, isUuid, header, id).value;
              var prev := s[t.user].todos[t.todo];
              && r.value.status == 200
              && r.value.body == Todo(prev.id, title, deadline, prev.done, prev.createdAt)
              && OthersUnchanged(s, r.value.store, t.user)
              && r.value.store[t.user] == s[t.user].(todos := r.value.store[t.user].todos)
              && OtherTodosUnchanged(s[t.user].todos, r.value.store[t.user].todos, t.todo)
              && r.value.store[t.user].todos[t.todo] == r.value.body
  {
    var t :- ResolveTodo(s, isUuid, header, id);
    var todo := s[t.user].todos[t.todo].(title := title, deadline := deadline);
    Ok(Reply(ReplaceTodo(s, t, todo), 200, todo))
  }

  /** PATCH /todos/:id/done. */
  function MarkDone(s: Store, isUuid: string -> bool, header: Option<string>, id: string): (r: Result<Reply<Todo>>)
    ensures r.Err? <==> ResolveTodo(s, isUuid, header, id).Err?
    ensures r.Err? ==> r.error == ResolveTodo(s, isUuid, header, id).error
    ensures r.Ok? ==>
              var t := ResolveTodo(s, isUuid, header, id).value;
              var prev := s[t.user].todos[t.todo];
              && r.value.status == 200
              && r.value.body == Todo(prev.id, prev.title, prev.deadline, true, prev.createdAt)
              && OthersUnchanged(s, r.value.store, t.user)
              && r.value.store[t.user] == s[t.user].(todos := r.value.store[t.user].todos)
              && OtherTodosUnchanged(s[t.user].todos, r.value.store[t.user].todos, t.todo)
              && r.value.store[t.user].todos[t.todo] == r.value.body
  {
    var t :- ResolveTodo(s, isUuid, header, id);
    var todo := s[t.user].todos[t.todo].(done := true);
    Ok(Reply(ReplaceTodo(s, t, todo), 200, todo))
  }

  /** DELETE /todos/:id, behind the user check and the to-do check. The
      to-do is looked up again with `indexOf` before it is spliced out. The
      -1 answer of that second lookup is kept; the contract shows it is never
      given, since the lookup always lands on the resolved position. */
  function DeleteTodo(s: Store, isUuid: string -> bool, header: Option<string>, id: string): (r: Result<Reply<()>>)
    ensures r.Err? <==> ResolveTodo(s, isUuid, header, id).Err?
    ensures r.Err? ==> r.error == ResolveTodo(s, isUuid, header, id).error
    ensures r.Ok? ==>
              var t := ResolveTodo(s, isUuid, header, id).value;
              var l := s[t.user].todos;
              && r.value.status == 204
              && OthersUnchanged(s, r.value.store, t.user)
              && r.value.store[t.user] == s[t.user].(todos := l[..t.todo] + l[t.todo + 1..])
  {
    var _ :- CheckUserAccount(s, header);
    var t :- ResolveTodo(s, isUuid, header, id);
    var user := s[t.user];
    var i := IndexOf(user.todos, user.todos[t.todo]);
    if i == -1 then
      Err(TodoNotFound)
    else
      Ok(Reply(s[t.user := user.(todos := user.todos[..i] + user.todos[i + 1..])], 204, ()))
  }

  /** The store with the to-do at `t` replaced by `todo`; the in-place
      assignment to the object `request.todo` refers to. */
  function ReplaceTodo(s: Store, t: TodoRef, todo: Todo): (s': Store)
    requires ValidRef(s, t)
    ensures OthersUnchanged(s, s', t.user)
    ensures s'[t.user] == s[t.user].(todos := s'[t.user].todos)
    ensures OtherTodosUnchanged(s[t.user].todos, s'[t.user].todos, t.todo)
    ensures s'[t.user].todos[t.todo] == todo
  {
    var u := s[t.user];
    s[t.user := u.(todos := u.todos[t.todo := todo])]
  }
}
