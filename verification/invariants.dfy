/** The invariants the service keeps over its store, and the one-step
    relation every successful request respects: users are never removed and
    keep their identity, `pro` and `done` only go from false to true, and a
    to-do never changes owner. */
module Invariants {
  import opened Search
  import opened Domain
  import opened Middleware
  import opened Routes

  predicate UsernamesUnique(s: Store) {
    forall i, j :: 0 <= i < j < |s| ==> s[i].username != s[j].username
  }

  predicate UserIdsUnique(s: Store) {
    forall i, j :: 0 <= i < j < |s| ==> s[i].id != s[j].id
  }

  /** A to-do id occurs at one position of one user's list only. */
  predicate TodoIdsUnique(s: Store) {
    forall i, a, j, b ::
      && 0 <= i < |s| && 0 <= a < |s[i].todos|
      && 0 <= j < |s| && 0 <= b < |s[j].todos|
      && s[i].todos[a].id == s[j].todos[b].id
      ==> i == j && a == b
  }

  predicate WithinFreePlan(s: Store) {
    forall i :: 0 <= i < |s| && !s[i].pro ==> |s[i].todos| <= FreePlanLimit
  }

  predicate Valid(s: Store) {
    UsernamesUnique(s) && UserIdsUnique(s) && TodoIdsUnique(s) && WithinFreePlan(s)
  }

  /** The fields of a to-do no request may change, and `done` one-way. */
  predicate TodoStep(t: Todo, t': Todo) {
    t'.id == t.id && t'.createdAt == t.createdAt && (t.done ==> t'.done)
  }

  /** The fields of a user no request may change, and `pro` one-way. */
  predicate UserIdentityKept(u: User, u': User) {
    && u'.id == u.id && u'.name == u.name && u'.username == u.username
    && (u.pro ==> u'.pro)
  }

  /** What one request may do to a to-do list, position by position: keep
      every to-do where it is, each one changed at most as `TodoStep`
      allows, and append new ones after them; or splice exactly one out. */
  predicate TodosStep(l: seq<Todo>, l': seq<Todo>) {
    || (|l| <= |l'| && forall a :: 0 <= a < |l| ==> TodoStep(l[a], l'[a]))
    || exists a :: 0 <= a < |l| && l' == RemoveAt(l, a)
  }

  /** `l` without its element at position `a`. */
  function RemoveAt(l: seq<Todo>, a: nat): (r: seq<Todo>)
    requires a < |l|
    ensures |r| == |l| - 1
    ensures forall b :: 0 <= b < a ==> r[b] == l[b]
    ensures forall b :: a <= b < |r| ==> r[b] == l[b + 1]
  {
    l[..a] + l[a + 1..]
  }

  predicate UserStep(u: User, u': User) {
    UserIdentityKept(u, u') && TodosStep(u.todos, u'.todos)
  }

  /** `s'` can follow `s` after one request. */
  predicate Step(s: Store, s': Store) {
    && |s| <= |s'|
    && (forall i :: 0 <= i < |s| ==> UserStep(s[i], s'[i]))
    && forall i, a, j, b ::
         && 0 <= i < |s| && 0 <= a < |s[i].todos|
         && 0 <= j < |s'| && 0 <= b < |s'[j].todos|
         && s[i].todos[a].id == s'[j].todos[b].id
         ==> i == j
  }

  /** What `Step` promises for one user's to-dos: when the list did not
      shrink, every to-do stays at its position with its id and creation
      time, and `done` is never cleared; when it shrank, exactly one to-do
      was spliced out and the others are untouched. */
  lemma StepKeepsTodos(s: Store, s': Store, i: nat, a: nat)
    requires Step(s, s') && i < |s| && a < |s[i].todos|
    ensures |s'[i].todos| >= |s[i].todos| ==> TodoStep(s[i].todos[a], s'[i].todos[a])
    ensures |s'[i].todos| < |s[i].todos| ==>
              exists c :: 0 <= c < |s[i].todos| && s'[i].todos == RemoveAt(s[i].todos, c)
  {
  }

  /** An instance of `StepKeepsTodos`: a request that rewrites a to-do's id,
      its creation time and clears its `done` flag is not a `Step`. */
  lemma RewrittenTodoIsNoStep()
    ensures !Step([User("1", "a", "u", true, [Todo("x", "t", 0, true, 5)])],
                  [User("1", "a", "u", true, [Todo("y", "t", 0, false, 9)])])
  {
    var l := [Todo("x", "t", 0, true, 5)];
    var l' := [Todo("y", "t", 0, false, 9)];
    assert !TodoStep(l[0], l'[0]);
    forall a | 0 <= a < |l|
      ensures l' != RemoveAt(l, a)
    {
      assert |RemoveAt(l, a)| == 0;
    }
    assert !TodosStep(l, l');
    var s := [User("1", "a", "u", true, l)];
    var s' := [User("1", "a", "u", true, l')];
    assert !UserStep(s[0], s'[0]);
  }

  // ---- the resolution middlewares pick the only candidate ----

  /** With unique usernames the header names exactly one user. */
  lemma ResolvedUserIsUnique(s: Store, header: Option<string>)
    requires UsernamesUnique(s)
    requires CheckUserAccount(s, header).Ok?
    ensures forall j :: 0 <= j < |s| && Some(s[j].username) == header ==> j == CheckUserAccount(s, header).value
  {
  }

  /** With unique user ids the path names exactly one user. */
  lemma UserByIdIsUnique(s: Store, id: string)
    requires UserIdsUnique(s)
    requires FindUserById(s, id).Ok?
    ensures forall j :: 0 <= j < |s| && s[j].id == id ==> j == FindUserById(s, id).value
  {
  }

  /** With unique to-do ids the resolved to-do is the only one in the whole
      store with that id, so no request reaches another user's to-do. */
  lemma ResolvedTodoIsUnique(s: Store, isUuid: string -> bool, header: Option<string>, id: string)
    requires TodoIdsUnique(s)
    requires ResolveTodo(s, isUuid, header, id).Ok?
    ensures var t := ResolveTodo(s, isUuid, header, id).value;
            forall j, b :: 0 <= j < |s| && 0 <= b < |s[j].todos| && s[j].todos[b].id == id ==> j == t.user && b == t.todo
  {
  }

  // ---- every handler keeps the invariants and steps ----

  lemma CreateUserKeepsValid(s: Store, name: string, username: string, freshId: string)
    requires Valid(s) && FreshUserId(s, freshId)
    ensures var r := CreateUser(s, name, username, freshId);
            r.Ok? ==> Valid(r.value.store) && Step(s, r.value.store)
  {
  }

  lemma UpgradeToProKeepsValid(s: Store, id: string)
    requires Valid(s)
    ensures var r := UpgradeToPro(s, id);
            r.Ok? ==> Valid(r.value.store) && Step(s, r.value.store)
  {
  }

  /** The store is `s` with the to-do list of user `k` replaced by `l`. */
  predicate TodosReplaced(s: Store, s': Store, k: nat, l: seq<Todo>) {
    k < |s| && OthersUnchanged(s, s', k) && s'[k] == s[k].(todos := l)
  }

  /** Rewriting to-dos in place, each by one `TodoStep`, keeps the
      invariants: no id, position or count changes. */
  lemma RewriteInPlaceKeepsValid(s: Store, s': Store, k: nat, l: seq<Todo>)
    requires Valid(s) && TodosReplaced(s, s', k, l)
    requires |l| == |s[k].todos|
    requires forall b :: 0 <= b < |l| ==> TodoStep(s[k].todos[b], l[b])
    ensures Valid(s') && Step(s, s')
  {
  }

  /** Appending a to-do with a fresh id to a user allowed to hold one more
      keeps the invariants. */
  lemma AppendKeepsValid(s: Store, s': Store, k: nat, t: Todo)
    requires Valid(s) && k < |s| && TodosReplaced(s, s', k, s[k].todos + [t])
    requires FreshTodoId(s, t.id)
    requires s[k].pro || |s[k].todos| < FreePlanLimit
    ensures Valid(s') && Step(s, s')
  {
  }

  /** Removing the to-do at position `a` of user `k` keeps the invariants. */
  lemma RemoveKeepsValid(s: Store, s': Store, k: nat, a: nat)
    requires Valid(s) && k < |s| && a < |s[k].todos|
    requires TodosReplaced(s, s', k, s[k].todos[..a] + s[k].todos[a + 1..])
    ensures Valid(s') && Step(s, s')
  {
    // where a position of the new store sat in the old one
    forall i, b | 0 <= i < |s'| && 0 <= b < |s'[i].todos|
      ensures s'[i].todos[b] == s[i].todos[Shifted(i, b, k, a)]
    {
    }
    forall i, c, j, d |
      && 0 <= i < |s'| && 0 <= c < |s'[i].todos|
      && 0 <= j < |s'| && 0 <= d < |s'[j].todos|
      && s'[i].todos[c].id == s'[j].todos[d].id
      ensures i == j && c == d
    {
      assert s[i].todos[Shifted(i, c, k, a)].id == s[j].todos[Shifted(j, d, k, a)].id;
    }
    forall i, c, j, d |
      && 0 <= i < |s| && 0 <= c < |s[i].todos|
      && 0 <= j < |s'| && 0 <= d < |s'[j].todos|
      && s[i].todos[c].id == s'[j].todos[d].id
      ensures i == j
    {
      assert s[i].todos[c].id == s[j].todos[Shifted(j, d, k, a)].id;
    }
    assert s'[k].todos == RemoveAt(s[k].todos, a);
  }

  /** Position in the old list of user `i` of what sits at `b` after the
      to-do at position `a` of user `k` is removed. */
  function Shifted(i: nat, b: nat, k: nat, a: nat): nat {
    if i == k && b >= a then b + 1 else b
  }

  lemma CreateTodoKeepsValid(s: Store, header: Option<string>, title: string, deadline: Timestamp, now: Timestamp,
                             freshId: string)
    requires Valid(s) && FreshTodoId(s, freshId)
    ensures var r := CreateTodo(s, header, title, deadline, now, freshId);
            r.Ok? ==> Valid(r.value.store) && Step(s, r.value.store)
  {
    var r := CreateTodo(s, header, title, deadline, now, freshId);
    if r.Ok? {
      AppendKeepsValid(s, r.value.store, CheckUserAccount(s, header).value, r.value.body);
    }
  }

  lemma UpdateTodoKeepsValid(s: Store, isUuid: string -> bool, header: Option<string>, id: string,
                             title: string, deadline: Timestamp)
    requires Valid(s)
    ensures var r := UpdateTodo(s, isUuid, header, id, title, deadline);
            r.Ok? ==> Valid(r.value.store) && Step(s, r.value.store)
  {
    var r := UpdateTodo(s, isUuid, header, id, title, deadline);
    if r.Ok? {
      var t := ResolveTodo(s, isUuid, header, id).value;
      RewriteInPlaceKeepsValid(s, r.value.store, t.user, r.value.store[t.user].todos);
    }
  }

  lemma MarkDoneKeepsValid(s: Store, isUuid: string -> bool, header: Option<string>, id: string)
    requires Valid(s)
    ensures var r := MarkDone(s, isUuid, header, id);
            r.Ok? ==> Valid(r.value.store) && Step(s, r.value.store)
  {
    var r := MarkDone(s, isUuid, header, id);
    if r.Ok? {
      var t := ResolveTodo(s, isUuid, header, id).value;
      RewriteInPlaceKeepsValid(s, r.value.store, t.user, r.value.store[t.user].todos);
    }
  }

  lemma DeleteTodoKeepsValid(s: Store, isUuid: string -> bool, header: Option<string>, id: string)
    requires Valid(s)
    ensures var r := DeleteTodo(s, isUuid, header, id);
            r.Ok? ==> Valid(r.value.store) && Step(s, r.value.store)
  {
    var r := DeleteTodo(s, isUuid, header, id);
    if r.Ok? {
      var t := ResolveTodo(s, isUuid, header, id).value;
      RemoveKeepsValid(s, r.value.store, t.user, t.todo);
    }
  }
}
