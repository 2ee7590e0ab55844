/** The four middlewares of the service. Each one either resolves what the
    next step needs (a user position, a to-do position) or answers with an
    error and stops the chain. */
module Middleware {
  import opened Search
  import opened Domain

  /** `checksExistsUserAccount`: the `username` header names the acting
      user. Express hands the header over absent or as a string; an absent
      or empty one is refused before the store is searched. */
  function CheckUserAccount(s: Store, header: Option<string>): (r: Result<nat>)
    ensures header.None? || header == Some("") ==> r == Err(UserNotDefined)
    ensures header.Some? && header.value != "" ==>
              (r.Err? <==> forall j :: 0 <= j < |s| ==> s[j].username != header.value)
    ensures r.Err? && header.Some? && header.value != "" ==> r.error == UserNotFound(header.value)
    ensures r.Ok? ==> r.value < |s| && header == Some(s[r.value].username) && s[r.value].username != ""
    ensures r.Ok? ==> forall j :: 0 <= j < r.value ==> s[j].username != s[r.value].username
  {
    if header.None? || header.value == "" then
      Err(UserNotDefined)
    else
      var name := header.value;
      match FirstIndex(s, (u: User) => u.username == name)
      case None => Err(UserNotFound(name))
      case Some(k) => Ok(k)
  }

  /** `findUserById`: the `:id` path segment names the user. */
  function FindUserById(s: Store, id: string): (r: Result<nat>)
    ensures r.Err? <==> forall j :: 0 <= j < |s| ==> s[j].id != id
    ensures r.Err? ==> r.error == UserIdNotFound(id)
    ensures r.Ok? ==> r.value < |s| && s[r.value].id == id
    ensures r.Ok? ==> forall j :: 0 <= j < r.value ==> s[j].id != id
  {
    match FirstIndex(s, (u: User) => u.id == id)
    case None => Err(UserIdNotFound(id))
    case Some(k) => Ok(k)
  }

  /** `checksCreateTodosUserAvailability`: a free-plan user holding the
      limit or more to-dos may not create another one. */
  function CheckQuota(u: User): (r: Result<()>)
    ensures r.Ok? <==> u.pro || |u.todos| < FreePlanLimit
    ensures r.Err? ==> r.error == FreePlanExceeded(u.username) && r.error.Status() == 403
  {
    if u.pro || |u.todos| < FreePlanLimit then Ok(()) else Err(FreePlanExceeded(u.username))
  }

  /** `checksTodoExists`: resolves the acting user exactly as
      `CheckUserAccount` does, then refuses a malformed `:id` (the uuid
      library's `validate`, given here as `isUuid`), and only then searches
      the acting user's own list. */
  function ResolveTodo(s: Store, isUuid: string -> bool, header: Option<string>, id: string): (r: Result<TodoRef>)
    ensures CheckUserAccount(s, header).Err? ==> r == Err(CheckUserAccount(s, header).error)
    ensures CheckUserAccount(s, header).Ok? && !isUuid(id) ==> r == Err(InvalidTodoId)
    ensures CheckUserAccount(s, header).Ok? && isUuid(id) ==>
              var k := CheckUserAccount(s, header).value;
              (r.Err? <==> forall a :: 0 <= a < |s[k].todos| ==> s[k].todos[a].id != id)
    ensures r.Err? && CheckUserAccount(s, header).Ok? && isUuid(id) ==> r.error == TodoNotFound
    ensures r.Ok? ==> && CheckUserAccount(s, header) == Ok(r.value.user)
                      && isUuid(id)
                      && ValidRef(s, r.value)
                      && s[r.value.user].todos[r.value.todo].id == id
    ensures r.Ok? ==> forall a :: 0 <= a < r.value.todo ==> s[r.value.user].todos[a].id != id
  {
    var k :- CheckUserAccount(s, header);
    if !isUuid(id) then
      Err(InvalidTodoId)
    else
      match FirstIndex(s[k].todos, (t: Todo) => t.id == id)
      case None => Err(TodoNotFound)
      case Some(a) => Ok(TodoRef(k, a))
  }
}
