/**
 The persistent state the services work on: the user table, the to-do table
 and the repository's derived queries, as immutable maps and pure filters.
 */
module Domain {
  import opened Dates
  import opened Errors

  type UserId = nat
  type TodoId = nat

  /** A nullable column. */
  datatype Option<+T> = None | Some(value: T)

  /** A registered account: its database id and its stored (encoded) password. */
  datatype User = User(id: UserId, password: string)

  /**
   A to-do row. `owner` is the id of the user the `user_id` join column points
   to; description and due date are nullable columns.
   */
  datatype Todo = Todo(
    owner: UserId,
    title: string,
    description: Option<string>,
    dueDate: Option<LocalDate>,
    completed: bool)

  /**
   Both tables. Users are keyed by their unique email; `nextUserId` and
   `nextTodoId` stand for the database's id generators.
   */
  datatype Store = Store(
    users: map<string, User>,
    todos: map<TodoId, Todo>,
    nextUserId: nat,
    nextTodoId: nat)

  /** The outcome of a writing operation: what it returns and the state after it. */
  datatype Reply<+T> = Reply(result: Result<T>, store: Store)

  /** The ids of all registered users. */
  function UserIds(users: map<string, User>): set<UserId> {
    set e | e in users :: users[e].id
  }

  /**
   The store's integrity constraints: generated ids are fresh, user ids are
   a primary key (two emails never share one), and every to-do's `user_id`
   refers to a registered user.
   */
  predicate Valid(s: Store) {
    && (forall e :: e in s.users ==> s.users[e].id < s.nextUserId)
    && (forall e1, e2 :: e1 in s.users && e2 in s.users && s.users[e1].id == s.users[e2].id ==> e1 == e2)
    && (forall id :: id in s.todos ==> id < s.nextTodoId)
    && (forall id :: id in s.todos ==> s.todos[id].owner in UserIds(s.users))
  }

  /** The repository's derived queries that the service uses. */
  datatype Query =
    | ByUser
    | ByUserAndDueDate(date: LocalDate)
    | ByUserAndDueDateBetween(start: LocalDate, end: LocalDate)

  /**
   Whether `t` is a row of `q` for `owner`. A null due date matches neither
   an equality nor a range condition; `Between` is inclusive at both ends.
   */
  predicate Matches(q: Query, owner: UserId, t: Todo) {
    && t.owner == owner
    && match q
       case ByUser => true
       case ByUserAndDueDate(date) => t.dueDate == Some(date)
       case ByUserAndDueDateBetween(start, end) =>
         t.dueDate.Some? && IsOnOrBefore(start, t.dueDate.value) && IsOnOrBefore(t.dueDate.value, end)
  }

  /**
   Runs query `q` for `owner` over the ids below `bound`, returning the
   matching ids in ascending order, each once.
   */
  function FindBy(todos: map<TodoId, Todo>, owner: UserId, q: Query, bound: nat): (ids: seq<TodoId>)
    ensures forall id :: id in ids <==> id < bound && id in todos && Matches(q, owner, todos[id])
    ensures forall i :: 0 <= i < |ids| ==> ids[i] < bound
    ensures forall i, j :: 0 <= i < j < |ids| ==> ids[i] < ids[j]
  {
    if bound == 0 then []
    else
      var prefix := FindBy(todos, owner, q, bound - 1);
      var last := bound - 1;
      if last in todos && Matches(q, owner, todos[last]) then prefix + [last] else prefix
  }
}
