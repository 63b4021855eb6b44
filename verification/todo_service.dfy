/**
 The ownership-gated to-do service. Every operation first resolves the caller
 by email; operations on one to-do then check that the id exists and that
 the caller owns it, in that order, before reading, replacing or deleting it.
 Reads return a `Result`; writes return a `Reply` holding the new store.
 */
module TodoService {
  import opened Dates
  import opened Errors
  import opened Domain
  import opened Dto

  /** The response for the to-do stored under `id`. */
  function ConvertToResponse(id: TodoId, t: Todo): (r: TodoResponse)
    ensures r.id == id
    ensures RecordOf(r, t.owner) == t
  {
    TodoResponse(id, t.title, t.description, t.dueDate, t.completed)
  }

  /** The stored record a response shows, given the owner it does not show. */
  function RecordOf(r: TodoResponse, owner: UserId): Todo {
    Todo(owner, r.title, r.description, r.dueDate, r.completed)
  }

  /** The responses for `ids`, in the same order. */
  function Respond(todos: map<TodoId, Todo>, ids: seq<TodoId>): (rs: seq<TodoResponse>)
    requires forall k :: 0 <= k < |ids| ==> ids[k] in todos
    ensures |rs| == |ids|
    ensures forall k :: 0 <= k < |ids| ==> rs[k].id == ids[k] && RecordOf(rs[k], todos[ids[k]].owner) == todos[ids[k]]
  {
    seq(|ids|, k requires 0 <= k < |ids| => ConvertToResponse(ids[k], todos[ids[k]]))
  }

  /** The ids a list of responses shows. */
  function IdsOf(rs: seq<TodoResponse>): set<TodoId> {
    set k | 0 <= k < |rs| :: rs[k].id
  }

  /** Whether the user with address `email` owns the to-do `id`. */
  predicate IsOwner(s: Store, email: string, id: TodoId) {
    email in s.users && id in s.todos && s.todos[id].owner == s.users[email].id
  }

  /** Resolves the caller; an unknown address is `NotFound`. */
  function FindCaller(s: Store, email: string): (r: Result<User>)
    ensures r.Ok? <==> email in s.users
    ensures r.Ok? ==> r.value == s.users[email]
    ensures r.Err? ==> r.failure == NotFound(UserNotFound)
  {
    if email in s.users then Ok(s.users[email]) else Err(NotFound(UserNotFound))
  }

  /**
   The gate in front of every single-to-do operation: the caller must exist,
   then the id must exist, then the caller must own it. Owners are compared
   by user id, the identity of the user row.
   */
  function AuthorizeAccess(s: Store, email: string, id: TodoId): (r: Result<Todo>)
    ensures email !in s.users ==> r == Err(NotFound(UserNotFound))
    ensures email in s.users && id !in s.todos ==> r == Err(NotFound(TodoNotFound))
    ensures email in s.users && id in s.todos && !IsOwner(s, email, id) ==> r == Err(Unauthorized(AccessDenied))
    ensures r.Ok? <==> IsOwner(s, email, id)
    ensures r.Ok? ==> r.value == s.todos[id]
  {
    var caller :- FindCaller(s, email);
    if id !in s.todos then Err(NotFound(TodoNotFound))
    else if s.todos[id].owner != caller.id then Err(Unauthorized(AccessDenied))
    else Ok(s.todos[id])
  }

  /** Creates a to-do owned by the caller from a request with a non-blank title. */
  function CreateTodo(s: Store, email: string, request: TodoRequest): (r: Reply<TodoResponse>)
    requires Valid(s)
    requires IsNotBlank(request.title)
    ensures Valid(r.store)
    ensures email !in s.users ==> r == Reply(Err(NotFound(UserNotFound)), s)
    ensures email in s.users ==>
      && r.result.Ok?
      && r.result.value.id !in s.todos
      && r.store.todos.Keys == s.todos.Keys + {r.result.value.id}
      && r.store.todos[r.result.value.id].owner == s.users[email].id
      && RecordOf(r.result.value, s.users[email].id) == r.store.todos[r.result.value.id]
      && Reflects(r.result.value, request)
      && (forall k :: k in s.todos ==> r.store.todos[k] == s.todos[k])
      && r.store.users == s.users
  {
    match FindCaller(s, email)
    case Err(f) => Reply(Err(f), s)
    case Ok(caller) =>
      var id := s.nextTodoId;
      var todo := Todo(caller.id, request.title, request.description, request.dueDate, request.completed);
      Reply(Ok(ConvertToResponse(id, todo)), s.(todos := s.todos[id := todo], nextTodoId := id + 1))
  }

  /** The to-do `id`, if the caller may see it. */
  function GetTodo(s: Store, email: string, id: TodoId): (r: Result<TodoResponse>)
    ensures email !in s.users ==> r == Err(NotFound(UserNotFound))
    ensures email in s.users && id !in s.todos ==> r == Err(NotFound(TodoNotFound))
    ensures email in s.users && id in s.todos && !IsOwner(s, email, id) ==> r == Err(Unauthorized(AccessDenied))
    ensures IsOwner(s, email, id) ==> r.Ok? && r.value.id == id && RecordOf(r.value, s.users[email].id) == s.todos[id]
  {
    var todo :- AuthorizeAccess(s, email, id);
    Ok(ConvertToResponse(id, todo))
  }

  /** Replaces title, description, due date and completed flag of the caller's to-do `id`. */
  function UpdateTodo(s: Store, email: string, id: TodoId, request: TodoRequest): (r: Reply<TodoResponse>)
    requires Valid(s)
    requires IsNotBlank(request.title)
    ensures Valid(r.store)
    ensures !IsOwner(s, email, id) ==> r.store == s
    ensures email !in s.users ==> r.result == Err(NotFound(UserNotFound))
    ensures email in s.users && id !in s.todos ==> r.result == Err(NotFound(TodoNotFound))
    ensures email in s.users && id in s.todos && !IsOwner(s, email, id) ==> r.result == Err(Unauthorized(AccessDenied))
    ensures IsOwner(s, email, id) ==>
      && r.result.Ok?
      && r.result.value.id == id
      && Reflects(r.result.value, request)
      && r.store.todos.Keys == s.todos.Keys
      && r.store.todos[id].owner == s.todos[id].owner
      && RecordOf(r.result.value, s.todos[id].owner) == r.store.todos[id]
      && (forall k :: k in s.todos && k != id ==> r.store.todos[k] == s.todos[k])
      && r.store.users == s.users
  {
    match AuthorizeAccess(s, email, id)
    case Err(f) => Reply(Err(f), s)
    case Ok(todo) =>
      var updated := todo.(title := request.title, description := request.description,
                           dueDate := request.dueDate, completed := request.completed);
      Reply(Ok(ConvertToResponse(id, updated)), s.(todos := s.todos[id := updated]))
  }

  /** Removes the caller's to-do `id` from the store (a hard delete). */
  function DeleteTodo(s: Store, email: string, id: TodoId): (r: Reply<()>)
    requires Valid(s)
    ensures Valid(r.store)
    ensures !IsOwner(s, email, id) ==> r.store == s
    ensures email !in s.users ==> r.result == Err(NotFound(UserNotFound))
    ensures email in s.users && id !in s.todos ==> r.result == Err(NotFound(TodoNotFound))
    ensures email in s.users && id in s.todos && !IsOwner(s, email, id) ==> r.result == Err(Unauthorized(AccessDenied))
    ensures IsOwner(s, email, id) ==>
      && r.result == Ok(())
      && id !in r.store.todos
      && r.store.todos.Keys == s.todos.Keys - {id}
      && (forall k :: k in r.store.todos ==> r.store.todos[k] == s.todos[k])
      && r.store.users == s.users
  {
    match AuthorizeAccess(s, email, id)
    case Err(f) => Reply(Err(f), s)
    case Ok(_) => Reply(Ok(()), s.(todos := s.todos - {id}))
  }

  /** What a listing selects among the caller's to-dos, stated without the repository's queries. */
  datatype Criterion = AnyDate | DueOn(date: LocalDate) | DueInMonth(month: YearMonth)

  predicate Satisfies(t: Todo, c: Criterion) {
    match c
    case AnyDate => true
    case DueOn(date) => t.dueDate == Some(date)
    case DueInMonth(ym) => t.dueDate.Some? && InMonth(t.dueDate.value, ym)
  }

  /**
   `rs` lists exactly the to-dos of `owner` that satisfy `c`: each once, in
   ascending id order, each response showing its stored record.
   */
  predicate ListsExactly(s: Store, owner: UserId, c: Criterion, rs: seq<TodoResponse>) {
    && (forall k :: 0 <= k < |rs| ==>
          && rs[k].id in s.todos
          && s.todos[rs[k].id].owner == owner
          && Satisfies(s.todos[rs[k].id], c)
          && RecordOf(rs[k], owner) == s.todos[rs[k].id])
    && (forall id :: id in s.todos && s.todos[id].owner == owner && Satisfies(s.todos[id], c) ==> id in IdsOf(rs))
    && (forall i, j :: 0 <= i < j < |rs| ==> rs[i].id < rs[j].id)
  }

  /** Runs a repository query for the owner and converts its rows. */
  function Select(s: Store, owner: UserId, q: Query): (rs: seq<TodoResponse>)
    requires Valid(s)
    ensures forall k :: 0 <= k < |rs| ==>
      rs[k].id in s.todos && Matches(q, owner, s.todos[rs[k].id]) && RecordOf(rs[k], owner) == s.todos[rs[k].id]
    ensures forall id :: id in s.todos && Matches(q, owner, s.todos[id]) ==> id in IdsOf(rs)
    ensures forall i, j :: 0 <= i < j < |rs| ==> rs[i].id < rs[j].id
  {
    var ids := FindBy(s.todos, owner, q, s.nextTodoId);
    var rs := Respond(s.todos, ids);
    assert forall id :: id in ids ==> id in IdsOf(rs) by {
      forall id | id in ids
        ensures id in IdsOf(rs)
      {
        var k :| 0 <= k < |ids| && ids[k] == id;
        assert rs[k].id == id;
      }
    }
    rs
  }

  /** All of the caller's to-dos. */
  function GetTodos(s: Store, email: string): (r: Result<seq<TodoResponse>>)
    requires Valid(s)
    ensures email !in s.users ==> r == Err(NotFound(UserNotFound))
    ensures email in s.users ==> r.Ok? && ListsExactly(s, s.users[email].id, AnyDate, r.value)
  {
    var caller :- FindCaller(s, email);
    Ok(Select(s, caller.id, ByUser))
  }

  /** The caller's to-dos due on `date`. */
  function GetTodosByDate(s: Store, email: string, date: LocalDate): (r: Result<seq<TodoResponse>>)
    requires Valid(s)
    ensures email !in s.users ==> r == Err(NotFound(UserNotFound))
    ensures email in s.users ==> r.Ok? && ListsExactly(s, s.users[email].id, DueOn(date), r.value)
  {
    var caller :- FindCaller(s, email);
    Ok(Select(s, caller.id, ByUserAndDueDate(date)))
  }

  /** The caller's to-dos due between the first and the last day of `ym`, inclusive. */
  function GetTodosByMonth(s: Store, email: string, ym: YearMonth): (r: Result<seq<TodoResponse>>)
    requires Valid(s)
    ensures email !in s.users ==> r == Err(NotFound(UserNotFound))
    ensures email in s.users ==> r.Ok? && ListsExactly(s, s.users[email].id, DueInMonth(ym), r.value)
  {
    var caller :- FindCaller(s, email);
    var q := ByUserAndDueDateBetween(StartOfMonth(ym), EndOfMonth(ym));
    MonthQuerySelectsTheMonth(ym, caller.id);
    Ok(Select(s, caller.id, q))
  }

  /** The range query of the monthly listing selects exactly the to-dos due in that month. */
  lemma MonthQuerySelectsTheMonth(ym: YearMonth, owner: UserId)
    ensures forall t :: Matches(ByUserAndDueDateBetween(StartOfMonth(ym), EndOfMonth(ym)), owner, t)
                        <==> t.owner == owner && Satisfies(t, DueInMonth(ym))
  {
  }
}
