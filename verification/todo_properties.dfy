/** Properties of the to-do service that relate several operations or several callers. */
module TodoProperties {
  import opened Dates
  import opened Errors
  import opened Domain
  import opened Dto
  import opened TodoService

  /** An unknown caller gets `NotFound` from every operation, and nothing is written. */
  lemma UnknownCallerIsRejected(s: Store, email: string, id: TodoId, request: TodoRequest,
                                date: LocalDate, ym: YearMonth)
    requires Valid(s)
    requires IsNotBlank(request.title)
    requires email !in s.users
    ensures CreateTodo(s, email, request) == Reply(Err(NotFound(UserNotFound)), s)
    ensures UpdateTodo(s, email, id, request) == Reply(Err(NotFound(UserNotFound)), s)
    ensures DeleteTodo(s, email, id) == Reply(Err(NotFound(UserNotFound)), s)
    ensures GetTodo(s, email, id) == Err(NotFound(UserNotFound))
    ensures GetTodos(s, email) == Err(NotFound(UserNotFound))
    ensures GetTodosByDate(s, email, date) == Err(NotFound(UserNotFound))
    ensures GetTodosByMonth(s, email, ym) == Err(NotFound(UserNotFound))
  {
  }

  /** A to-do just created is readable by its creator and shows the request's fields. */
  lemma CreateThenGet(s: Store, email: string, request: TodoRequest)
    requires Valid(s)
    requires IsNotBlank(request.title)
    requires email in s.users
    ensures var r := CreateTodo(s, email, request);
            && GetTodo(r.store, email, r.result.value.id) == r.result
            && Reflects(r.result.value, request)
  {
  }

  /** After the owner deletes a to-do, reading it again fails with `NotFound`. */
  lemma DeleteThenGetIsNotFound(s: Store, email: string, id: TodoId)
    requires Valid(s)
    requires IsOwner(s, email, id)
    ensures GetTodo(DeleteTodo(s, email, id).store, email, id) == Err(NotFound(TodoNotFound))
  {
  }

  /** After the owner updates a to-do, reading it shows the new fields and the same id. */
  lemma UpdateThenGet(s: Store, email: string, id: TodoId, request: TodoRequest)
    requires Valid(s)
    requires IsNotBlank(request.title)
    requires IsOwner(s, email, id)
    ensures var r := UpdateTodo(s, email, id, request);
            && GetTodo(r.store, email, id) == r.result
            && r.result.value.id == id
            && Reflects(r.result.value, request)
  {
  }

  /** Distinct registered addresses belong to distinct users. */
  lemma DistinctCallersHaveDistinctIds(s: Store, a: string, b: string)
    requires Valid(s)
    requires a in s.users && b in s.users && a != b
    ensures s.users[a].id != s.users[b].id
  {
  }

  /**
   A to-do created by `a` is invisible to another user `b`: reading, updating
   and deleting it fail with `Unauthorized` and write nothing, and none of
   `b`'s listings shows it.
   */
  lemma OtherUsersCannotReachTodo(s: Store, a: string, b: string, request: TodoRequest,
                                  edit: TodoRequest, date: LocalDate, ym: YearMonth)
    requires Valid(s)
    requires IsNotBlank(request.title) && IsNotBlank(edit.title)
    requires a in s.users && b in s.users && a != b
    ensures var r := CreateTodo(s, a, request);
            var id := r.result.value.id;
            && GetTodo(r.store, b, id) == Err(Unauthorized(AccessDenied))
            && UpdateTodo(r.store, b, id, edit) == Reply(Err(Unauthorized(AccessDenied)), r.store)
            && DeleteTodo(r.store, b, id) == Reply(Err(Unauthorized(AccessDenied)), r.store)
            && id !in IdsOf(GetTodos(r.store, b).value)
            && id !in IdsOf(GetTodosByDate(r.store, b, date).value)
            && id !in IdsOf(GetTodosByMonth(r.store, b, ym).value)
  {
  }

  /** The to-dos of `owner` in `s` that satisfy `c`. */
  function SelectedIds(s: Store, owner: UserId, c: Criterion): set<TodoId> {
    set id | id in s.todos && s.todos[id].owner == owner && Satisfies(s.todos[id], c)
  }

  /** A listing shows exactly the ids of the selected to-dos. */
  lemma ListedIdsAreSelected(s: Store, owner: UserId, c: Criterion, rs: seq<TodoResponse>)
    requires ListsExactly(s, owner, c, rs)
    ensures IdsOf(rs) == SelectedIds(s, owner, c)
  {
  }

  /** A listing for one user never shows a to-do owned by another. */
  lemma ListingOmitsOthersTodos(s: Store, email: string, id: TodoId, c: Criterion, rs: seq<TodoResponse>)
    requires email in s.users
    requires id in s.todos && s.todos[id].owner != s.users[email].id
    requires ListsExactly(s, s.users[email].id, c, rs)
    ensures id !in IdsOf(rs)
  {
  }

  /** A deleted to-do disappears from every listing of its owner; the other listed to-dos stay. */
  lemma DeleteRemovesFromListing(s: Store, email: string, id: TodoId, c: Criterion,
                                 before: seq<TodoResponse>, after: seq<TodoResponse>)
    requires Valid(s)
    requires IsOwner(s, email, id)
    requires ListsExactly(s, s.users[email].id, c, before)
    requires ListsExactly(DeleteTodo(s, email, id).store, s.users[email].id, c, after)
    ensures IdsOf(after) == IdsOf(before) - {id}
  {
  }

  /** The owner's full listing after a delete is the listing before it without that to-do. */
  lemma DeleteRemovesFromGetTodos(s: Store, email: string, id: TodoId)
    requires Valid(s)
    requires IsOwner(s, email, id)
    ensures var after := DeleteTodo(s, email, id).store;
            IdsOf(GetTodos(after, email).value) == IdsOf(GetTodos(s, email).value) - {id}
  {
  }

  /** A listing in strictly ascending id order shows each id once: its length is its number of ids. */
  lemma {:induction false} ListingLengthIsIdCount(rs: seq<TodoResponse>)
    requires forall i, j :: 0 <= i < j < |rs| ==> rs[i].id < rs[j].id
    ensures |IdsOf(rs)| == |rs|
  {
    if |rs| > 0 {
      var init := rs[..|rs| - 1];
      var last := rs[|rs| - 1];
      ListingLengthIsIdCount(init);
      assert IdsOf(rs) == IdsOf(init) + {last.id} by {
        assert forall k :: 0 <= k < |init| ==> init[k] == rs[k];
      }
      assert last.id !in IdsOf(init);
    }
  }
}
