/** The records the service keeps in memory, the errors its handlers answer
    with, and the shape of a successful answer. */
module Domain {

  /** A date as the handlers hold it after `new Date(...)`; parsing and the
      wall clock stay outside the model, so a value is supplied by the caller. */
  type Timestamp = int

  datatype Todo = Todo(id: string, title: string, deadline: Timestamp, done: bool, createdAt: Timestamp)

  datatype User = User(id: string, name: string, username: string, pro: bool, todos: seq<Todo>)

  /** The process-wide `users` array, in insertion order. */
  type Store = seq<User>

  /** A free-plan user may create to-dos while holding fewer than this many. */
  const FreePlanLimit: nat := 10

  /** Every error answer of the service, with its HTTP status and the text of
      its `error` field. */
  datatype Error =
    | UserNotDefined
    | UserNotFound(username: string)
    | UserIdNotFound(userId: string)
    | InvalidTodoId
    | TodoNotFound
    | UsernameAlreadyExists
    | ProAlreadyActivated
    | FreePlanExceeded(owner: string)
  {
    function Status(): int {
      match this
      case UserNotDefined | UserNotFound(_) | UserIdNotFound(_) | TodoNotFound => 404
      case InvalidTodoId | UsernameAlreadyExists | ProAlreadyActivated => 400
      case FreePlanExceeded(_) => 403
    }

    function Message(): string {
      match this
      case UserNotDefined => "User not defined!"
      case UserNotFound(name) => "User " + name + " not found!"
      case UserIdNotFound(id) => "User " + id + " not found!"
      case InvalidTodoId => "Invalide id"
      case TodoNotFound => "Todo not found"
      case UsernameAlreadyExists => "Username already exists"
      case ProAlreadyActivated => "Pro plan is already activated."
      case FreePlanExceeded(name) => name + " exceeded the free plan"
    }
  }

  datatype Result<+T> = Ok(value: T) | Err(error: Error) {
    predicate IsFailure() {
      Err?
    }

    function PropagateFailure<U>(): Result<U>
      requires Err?
    {
      Err(error)
    }

    function Extract(): T
      requires Ok?
    {
      value
    }
  }

  /** A successful answer: the store after the request, the HTTP status and
      the JSON body. */
  datatype Reply<+T> = Reply(store: Store, status: int, body: T)

  /** Where a resolved to-do lives: the owner's position in the store and the
      to-do's position in the owner's list. */
  datatype TodoRef = TodoRef(user: nat, todo: nat)

  /** `t` is a to-do position inside the store. */
  predicate ValidRef(s: Store, t: TodoRef) {
    t.user < |s| && t.todo < |s[t.user].todos|
  }

  /** `s'` agrees with `s` on every user except possibly the one at `k`. */
  predicate OthersUnchanged(s: Store, s': Store, k: nat) {
    |s'| == |s| && forall j :: 0 <= j < |s| && j != k ==> s'[j] == s[j]
  }

  /** The to-do lists `l` and `l'` agree everywhere except possibly at `a`. */
  predicate OtherTodosUnchanged(l: seq<Todo>, l': seq<Todo>, a: nat) {
    |l'| == |l| && forall b :: 0 <= b < |l| && b != a ==> l'[b] == l[b]
  }

  /** No element of `s` carries the id `id`. */
  predicate FreshUserId(s: Store, id: string) {
    forall j :: 0 <= j < |s| ==> s[j].id != id
  }

  /** No to-do of any user carries the id `id`. */
  predicate FreshTodoId(s: Store, id: string) {
    forall j, a :: 0 <= j < |s| && 0 <= a < |s[j].todos| ==> s[j].todos[a].id != id
  }
}
