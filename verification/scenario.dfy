/**
 A worked run through the services: two users register, one creates a to-do
 due in April 2024, the monthly listing shows it to its owner, and the other
 user's attempt to read it is refused with HTTP 401.
 */
module Scenario {
  import opened Dates
  import opened Errors
  import opened Domain
  import opened Dto
  import opened TodoService
  import opened AuthService
  import opened TodoProperties
  import GlobalExceptionHandler

  const Empty := Store(map[], map[], 0, 0)

  /** A listing whose ids are exactly `{id}` consists of that one response. */
  lemma SingleListing(rs: seq<TodoResponse>, id: TodoId)
    requires IdsOf(rs) == {id}
    requires forall i, j :: 0 <= i < j < |rs| ==> rs[i].id < rs[j].id
    ensures |rs| == 1 && rs[0].id == id
  {
    ListingLengthIsIdCount(rs);
    assert rs[0].id in IdsOf(rs);
  }

  /**
   In a store with two users and no to-dos, a to-do that `a` creates for month
   `ym` is the whole of `a`'s listing for that month, and `b` cannot read it.
   */
  lemma CreatedTodoIsOwnersOnly(s: Store, a: string, b: string, request: TodoRequest, ym: YearMonth)
    requires Valid(s) && s.todos == map[]
    requires a in s.users && b in s.users && a != b
    requires IsNotBlank(request.title)
    requires request.dueDate.Some? && InMonth(request.dueDate.value, ym)
    ensures var created := CreateTodo(s, a, request);
            var april := GetTodosByMonth(created.store, a, ym);
            && created.result.Ok?
            && april.Ok? && |april.value| == 1 && april.value[0] == created.result.value
            && GetTodo(created.store, b, created.result.value.id) == Err(Unauthorized(AccessDenied))
  {
    var created := CreateTodo(s, a, request);
    var id := created.result.value.id;
    var owner := s.users[a].id;
    var april := GetTodosByMonth(created.store, a, ym).value;
    ListedIdsAreSelected(created.store, owner, DueInMonth(ym), april);
    assert SelectedIds(created.store, owner, DueInMonth(ym)) == {id};
    SingleListing(april, id);
    assert RecordOf(april[0], owner) == RecordOf(created.result.value, owner);
    OtherUsersCannotReachTodo(s, a, b, request, request, request.dueDate.value, ym);
  }

  /** Registering two addresses in an empty store yields a valid store with both and no to-dos. */
  lemma RegisterTwoUsers(encode: string -> string)
    ensures var s1 := Register(Empty, "a@x.com", "pw1", encode);
            var s2 := Register(s1.store, "b@x.com", "pw2", encode);
            && s1.result == Ok(()) && s2.result == Ok(())
            && Valid(s2.store) && s2.store.todos == map[]
            && "a@x.com" in s2.store.users && "b@x.com" in s2.store.users
  {
  }

  lemma TwoUsersOneTodo(encode: string -> string)
    ensures var s2 := Register(Register(Empty, "a@x.com", "pw1", encode).store, "b@x.com", "pw2", encode).store;
            var request := TodoRequest("Buy milk", None, Some(DateParts(2024, 4, 10)), false);
            IsNotBlank(request.title) &&
            var created := CreateTodo(s2, "a@x.com", request);
            var april := GetTodosByMonth(created.store, "a@x.com", YearMonth(2024, 4));
            var denied := GetTodo(created.store, "b@x.com", created.result.value.id);
            && created.result.Ok?
            && april.Ok? && |april.value| == 1 && april.value[0] == created.result.value
            && denied == Err(Unauthorized(AccessDenied))
            && GlobalExceptionHandler.Handle(denied.failure).status == GlobalExceptionHandler.UnauthorizedStatus
  {
    RegisterTwoUsers(encode);
    var s2 := Register(Register(Empty, "a@x.com", "pw1", encode).store, "b@x.com", "pw2", encode).store;
    var request := TodoRequest("Buy milk", None, Some(DateParts(2024, 4, 10)), false);
    assert IsNotBlank(request.title) by {
      assert request.title[0] > ' ';
    }
    assert "a@x.com" != "b@x.com";
    CreatedTodoIsOwnersOnly(s2, "a@x.com", "b@x.com", request, YearMonth(2024, 4));
  }
}
