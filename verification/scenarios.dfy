/** Request sequences whose outcome the service promises: round trips
    between a write and the lookups that follow it, the free-plan limit
    over repeated creations, and the one-way flags. */
module Scenarios {
  import opened Search
  import opened Domain
  import opened Middleware
  import opened Routes
  import opened Invariants

  // ---- users ----

  /** A newly created user is found by its id and, unless its username is
      empty, by the `username` header. */
  lemma CreatedUserResolves(s: Store, name: string, username: string, freshId: string)
    requires FreshUserId(s, freshId)
    requires CreateUser(s, name, username, freshId).Ok?
    ensures var s' := CreateUser(s, name, username, freshId).value.store;
            && FindUserById(s', freshId) == Ok(|s|)
            && (username != "" ==> CheckUserAccount(s', Some(username)) == Ok(|s|))
            && (username == "" ==> CheckUserAccount(s', Some(username)) == Err(UserNotDefined))
  {
  }

  /** Creating a second user with a taken username is refused with 400; an
      error answer carries no store, so the first user stays as it was. */
  lemma DuplicateUsernameRefused(s: Store, name: string, username: string, id1: string,
                                 otherName: string, id2: string)
    requires FreshUserId(s, id1) && CreateUser(s, name, username, id1).Ok?
    requires FreshUserId(CreateUser(s, name, username, id1).value.store, id2)
    ensures var s' := CreateUser(s, name, username, id1).value.store;
            && CreateUser(s', otherName, username, id2) == Err(UsernameAlreadyExists)
            && UsernameAlreadyExists.Status() == 400
  {
  }

  /** After a successful upgrade the user is pro, and a second upgrade is
      refused with 400. */
  lemma UpgradeTwiceRefused(s: Store, id: string)
    requires UpgradeToPro(s, id).Ok?
    ensures var s' := UpgradeToPro(s, id).value.store;
            && s'[FindUserById(s, id).value].pro
            && UpgradeToPro(s', id) == Err(ProAlreadyActivated)
  {
  }

  // ---- to-do creation and the free plan ----

  /** Creates one to-do per id of `ids`, in order, on behalf of the user the
      header names, stopping at the first refusal. */
  function CreateTodos(s: Store, header: Option<string>, title: string, deadline: Timestamp, now: Timestamp,
                       ids: seq<string>): (r: Result<Store>)
    requires FreshTodoIds(s, ids)
    decreases |ids|
  {
    if |ids| == 0 then Ok(s)
    else
      var reply :- CreateTodo(s, header, title, deadline, now, ids[0]);
      CreatedKeepsOthersFresh(s, header, title, deadline, now, ids);
      CreateTodos(reply.store, header, title, deadline, now, ids[1..])
  }

  /** The ids of `ids` are pairwise distinct and unused in `s`. */
  predicate FreshTodoIds(s: Store, ids: seq<string>) {
    && (forall i :: 0 <= i < |ids| ==> FreshTodoId(s, ids[i]))
    && (forall i, j :: 0 <= i < j < |ids| ==> ids[i] != ids[j])
  }

  lemma CreatedKeepsOthersFresh(s: Store, header: Option<string>, title: string, deadline: Timestamp,
                                now: Timestamp, ids: seq<string>)
    requires |ids| > 0 && FreshTodoIds(s, ids)
    requires CreateTodo(s, header, title, deadline, now, ids[0]).Ok?
    ensures FreshTodoIds(CreateTodo(s, header, title, deadline, now, ids[0]).value.store, ids[1..])
  {
  }

  /** A free-plan user holding `n` to-dos can create exactly `10 - n` more:
      a batch succeeds when it stays within the limit and is refused with
      403 as soon as it would exceed it. A pro user is never refused. */
  lemma {:induction false} FreePlanAllowsUpToLimit(s: Store, header: Option<string>, title: string,
                                                   deadline: Timestamp, now: Timestamp, ids: seq<string>)
    requires Valid(s) && FreshTodoIds(s, ids)
    requires CheckUserAccount(s, header).Ok?
    ensures var k := CheckUserAccount(s, header).value;
            var r := CreateTodos(s, header, title, deadline, now, ids);
            && (r.Ok? <==> s[k].pro || |s[k].todos| + |ids| <= FreePlanLimit)
            && (r.Err? ==> r.error == FreePlanExceeded(s[k].username) && r.error.Status() == 403)
    decreases |ids|
  {
    if |ids| > 0 {
      var k := CheckUserAccount(s, header).value;
      var r := CreateTodo(s, header, title, deadline, now, ids[0]);
      if r.Ok? {
        var s' := r.value.store;
        CreatedKeepsOthersFresh(s, header, title, deadline, now, ids);
        CreateTodoKeepsValid(s, header, title, deadline, now, ids[0]);
        assert CheckUserAccount(s', header) == Ok(k) by {
          assert forall j :: 0 <= j < |s| ==> s'[j].username == s[j].username;
        }
        FreePlanAllowsUpToLimit(s', header, title, deadline, now, ids[1..]);
        assert CreateTodos(s, header, title, deadline, now, ids)
            == CreateTodos(s', header, title, deadline, now, ids[1..]);
        assert s'[k].pro == s[k].pro && |s'[k].todos| == |s[k].todos| + 1;
      }
    }
  }

  /** From a user with no to-dos, ten creations on the free plan succeed and
      the eleventh is refused. */
  lemma EleventhTodoRefused(s: Store, header: Option<string>, title: string, deadline: Timestamp,
                            now: Timestamp, ids: seq<string>)
    requires Valid(s) && FreshTodoIds(s, ids) && |ids| == FreePlanLimit + 1
    requires CheckUserAccount(s, header).Ok?
    requires var k := CheckUserAccount(s, header).value; !s[k].pro && |s[k].todos| == 0
    ensures CreateTodos(s, header, title, deadline, now, ids[..FreePlanLimit]).Ok?
    ensures CreateTodos(s, header, title, deadline, now, ids).Err?
    ensures CreateTodos(s, header, title, deadline, now, ids).error
            == FreePlanExceeded(s[CheckUserAccount(s, header).value].username)
  {
    FreePlanAllowsUpToLimit(s, header, title, deadline, now, ids);
    FreePlanAllowsUpToLimit(s, header, title, deadline, now, ids[..FreePlanLimit]);
  }

  /** A created to-do is resolved by its id on behalf of its owner. */
  lemma CreatedTodoResolves(s: Store, isUuid: string -> bool, header: Option<string>, title: string,
                            deadline: Timestamp, now: Timestamp, freshId: string)
    requires FreshTodoId(s, freshId) && isUuid(freshId)
    requires CreateTodo(s, header, title, deadline, now, freshId).Ok?
    ensures var k := CheckUserAccount(s, header).value;
            var s' := CreateTodo(s, header, title, deadline, now, freshId).value.store;
            ResolveTodo(s', isUuid, header, freshId) == Ok(TodoRef(k, |s[k].todos|))
  {
    var k := CheckUserAccount(s, header).value;
    var s' := CreateTodo(s, header, title, deadline, now, freshId).value.store;
    assert CheckUserAccount(s', header) == Ok(k) by {
      assert forall j :: 0 <= j < |s| ==> s'[j].username == s[j].username;
    }
    var n := |s[k].todos|;
    assert s'[k].todos[n].id == freshId;
    assert forall a :: 0 <= a < n ==> s'[k].todos[a] == s[k].todos[a];
    assert forall a :: 0 <= a < n ==> s'[k].todos[a].id != freshId;
  }

  // ---- update, done, delete ----

  /** Rewriting a to-do in place keeps every lookup landing where it did:
      usernames and to-do ids stay where they were. */
  lemma RewriteKeepsResolution(s: Store, s': Store, isUuid: string -> bool, header: Option<string>,
                               id: string, t: TodoRef)
    requires ResolveTodo(s, isUuid, header, id) == Ok(t)
    requires OthersUnchanged(s, s', t.user)
    requires s'[t.user] == s[t.user].(todos := s'[t.user].todos)
    requires OtherTodosUnchanged(s[t.user].todos, s'[t.user].todos, t.todo)
    requires s'[t.user].todos[t.todo].id == id
    ensures ResolveTodo(s', isUuid, header, id) == Ok(t)
  {
  }

  /** Marking a to-do done twice leaves the store as marking it once. */
  lemma MarkDoneIdempotent(s: Store, isUuid: string -> bool, header: Option<string>, id: string)
    requires MarkDone(s, isUuid, header, id).Ok?
    ensures var s' := MarkDone(s, isUuid, header, id).value.store;
            MarkDone(s', isUuid, header, id) == Ok(Reply(s', 200, MarkDone(s, isUuid, header, id).value.body))
  {
    var t := ResolveTodo(s, isUuid, header, id).value;
    var s' := MarkDone(s, isUuid, header, id).value.store;
    var body := MarkDone(s, isUuid, header, id).value.body;
    RewriteKeepsResolution(s, s', isUuid, header, id, t);
    assert body.(done := true) == body;
    assert s'[t.user].todos[t.todo := body] == s'[t.user].todos;
    assert ReplaceTodo(s', t, body) == s';
  }

  /** An updated to-do is still found under the same id, with the new title
      and deadline and its old `done` and creation time. */
  lemma UpdatedTodoResolves(s: Store, isUuid: string -> bool, header: Option<string>, id: string,
                            title: string, deadline: Timestamp)
    requires UpdateTodo(s, isUuid, header, id, title, deadline).Ok?
    ensures var t := ResolveTodo(s, isUuid, header, id).value;
            var s' := UpdateTodo(s, isUuid, header, id, title, deadline).value.store;
            && ResolveTodo(s', isUuid, header, id) == Ok(t)
            && s'[t.user].todos[t.todo].title == title
            && s'[t.user].todos[t.todo].deadline == deadline
            && s'[t.user].todos[t.todo].done == s[t.user].todos[t.todo].done
  {
  }

  /** After a delete the to-do is gone: the same request now answers 404,
      and the owner's list no longer holds that id. */
  lemma DeletedTodoGone(s: Store, isUuid: string -> bool, header: Option<string>, id: string)
    requires Valid(s)
    requires DeleteTodo(s, isUuid, header, id).Ok?
    ensures var t := ResolveTodo(s, isUuid, header, id).value;
            var s' := DeleteTodo(s, isUuid, header, id).value.store;
            && (forall b :: 0 <= b < |s'[t.user].todos| ==> s'[t.user].todos[b].id != id)
            && ResolveTodo(s', isUuid, header, id) == Err(TodoNotFound)
  {
  }
}
