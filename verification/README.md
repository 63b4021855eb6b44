# Calendar backend: ownership-gated to-do service

A Dafny model of the core of a personal calendar/to-do backend (Spring Boot).
The model covers four pieces:

- **`TodoService`.** Every operation resolves the caller by email. The
  single-item operations (read, update, delete) then check that the to-do
  exists and that the caller owns it, in that order. The listings (all,
  by due date, by month) are scoped to the caller by the repository queries.
- **`AuthService.register`.** It rejects an email that is already registered
  and otherwise stores a new user with the encoded password.
- **The monthly range.** The range runs from day 1 to the last day of the
  month. It uses the Gregorian leap-year rule of ISO 8601 (section 3.2.1 of
  ISO 8601:2004), as `java.time` does.
- **`GlobalExceptionHandler`.** It is a total map from a failure to an HTTP
  status and message.

The store is two immutable maps:

- users by email, each holding a user id and the stored password;
- to-dos by id, each holding the owner's user id, title, description, due
  date and completed flag.

Two counters stand for the database's id generators. The operations are pure
functions. Reads return a `Result`. Writes return a `Reply`, which pairs the
result with the store after the call. `Valid` is the store's integrity
constraint, and every write preserves it:

- generated ids are fresh;
- user ids are unique;
- every to-do refers to a registered user.

Files and modules:

- `dates.dfy` (`Dates`): month lengths, the start-of-month table, `LocalDate`, `YearMonth`, and the month range.
- `errors.dfy` (`Errors`): the failure kinds and their messages, and `Result`.
- `domain.dfy` (`Domain`): users, to-dos, the store, its `Valid` invariant, and the repository's derived queries (`FindBy`).
- `dto.dfy` (`Dto`): the request and response bodies and the non-blank title rule.
- `todo_service.dfy` (`TodoService`): the seven service operations and the access gate.
- `auth_service.dfy` (`AuthService`): registration.
- `exception_handler.dfy` (`GlobalExceptionHandler`): failures to HTTP responses.
- `todo_properties.dfy` (`TodoProperties`): properties across operations and users.
- `scenario.dfy` (`Scenario`): a worked two-user run.

## Behaviour worth noting

- **Delete.** It is a hard delete (`TodoService.java:99`). The record is removed
  from the store; no delete flag is set.
- **Another user's to-do.** Reading, updating or deleting it yields
  `Unauthorized`, which the handler maps to 401. There is no separate
  "forbidden" outcome (`TodoService.java:64-66`).
- **Unknown caller.** An email that is not registered yields `NotFound("User
  not found")` (`TodoService.java:31-32`). It is not an "unauthenticated"
  failure.
- **Ids.** They are natural numbers. The entity classes disagree on the id
  type (`UUID` in `Todo.java:31`, `Long` in `TodoRepository.java:10` and
  `TodoService.java:57`). `Todo` has no `update` method, and `User.java` does
  not parse. So the records follow what the service does with them.
- **Owner equality.** `todo.getUser().equals(user)` is object identity within
  one persistence context. The model compares user ids instead, and `Valid`
  makes user ids unique.
- **Blank titles.** The non-blank title rule is a precondition of create and
  update, not a service failure. It is enforced before the service runs
  (`TodoRequest.java:14`, `TodoController.java:33,57`). Blank means no
  character above U+0020, the reading `String.trim()` gives.

## Model

| member | source | states |
|---|---|---|
| Dates.DaysInMonth | src/main/java/com/example/calendar/service/TodoService.java:118 | a month has between 28 and 31 days |
| Dates.DaysBeforeMonthMatchesTable | src/main/java/com/example/calendar/service/TodoService.java:117-118 | summing the month lengths before a month gives java.time's day-of-year on which that month starts, in leap and common years |
| Dates.YearLength | src/main/java/com/example/calendar/service/TodoService.java:118 | the twelve month lengths add up to 366 in a leap year and 365 otherwise |
| Dates.StartOfMonth | src/main/java/com/example/calendar/service/TodoService.java:117 | `atDay(1)` lies in the month and is on or before every date of the month |
| Dates.EndOfMonth | src/main/java/com/example/calendar/service/TodoService.java:118 | `atEndOfMonth()` lies in the month and is on or after every date of the month |
| Dates.MonthRangeIsTheMonth | src/main/java/com/example/calendar/service/TodoService.java:117-120 | a date lies in the inclusive range [first day, last day] exactly when its year and month are the query's |
| Dates.EndOfMonthDay | src/main/java/com/example/calendar/service/TodoService.java:118 | the last day is 29 exactly in a leap February, 28 in a common February, 30 in April, June, September and November, 31 otherwise |
| Dates.EndOfMonthExamples | src/main/java/com/example/calendar/service/TodoService.java:118 | April 2024 ends on the 30th; February ends on the 29th in 2024 and 2000 but on the 28th in 1900 |
| Domain.FindBy | src/main/java/com/example/calendar/store/TodoRepository.java:11-14 | a derived query returns exactly the owner's rows that match it, each once, in ascending id order |
| TodoService.ConvertToResponse | src/main/java/com/example/calendar/service/TodoService.java:125-136 | the response carries the id and copies title, description, due date and completed unchanged: with the owner it gives back the stored record |
| TodoService.Respond | src/main/java/com/example/calendar/service/TodoService.java:51-53 | mapping rows to responses keeps their order and shows each row's id and stored fields |
| TodoService.FindCaller | src/main/java/com/example/calendar/service/TodoService.java:31-32 | the caller resolves exactly when the email is registered; otherwise the failure is NotFound("User not found") |
| TodoService.AuthorizeAccess | src/main/java/com/example/calendar/service/TodoService.java:58-66 | unknown caller gives NotFound("User not found"); then a missing id gives NotFound("Todo not found"); then someone else's to-do gives Unauthorized; it succeeds exactly for the owner |
| TodoService.CreateTodo | src/main/java/com/example/calendar/service/TodoService.java:29-44 | an unknown caller changes nothing; otherwise exactly one fresh id is added, owned by the caller, with the request's fields; existing to-dos and users are unchanged; the response shows the new record; the store stays valid |
| TodoService.GetTodo | src/main/java/com/example/calendar/service/TodoService.java:56-69 | the failures come in the gate's order; the owner gets the response of the stored record |
| TodoService.UpdateTodo | src/main/java/com/example/calendar/service/TodoService.java:71-85 | on any failure the store is unchanged; for the owner exactly title, description, due date and completed are replaced; id and owner stay; other to-dos and users are untouched; the response reflects the request |
| TodoService.DeleteTodo | src/main/java/com/example/calendar/service/TodoService.java:87-100 | on any failure the store is unchanged; for the owner the id is removed and every other to-do and every user stays as it was |
| TodoService.Select | src/main/java/com/example/calendar/service/TodoService.java:51-53 | the converted rows of a repository query are exactly the matching to-dos, each once, ascending, each showing its record |
| TodoService.GetTodos | src/main/java/com/example/calendar/service/TodoService.java:46-54 | an unknown caller gets NotFound; otherwise the result lists exactly the caller's to-dos |
| TodoService.GetTodosByDate | src/main/java/com/example/calendar/service/TodoService.java:102-110 | an unknown caller gets NotFound; otherwise the result lists exactly the caller's to-dos whose due date is the given date |
| TodoService.GetTodosByMonth | src/main/java/com/example/calendar/service/TodoService.java:112-123 | an unknown caller gets NotFound; otherwise the result lists exactly the caller's to-dos due in the given year and month |
| TodoService.MonthQuerySelectsTheMonth | src/main/java/com/example/calendar/service/TodoService.java:117-120 | the between-query over [atDay(1), atEndOfMonth()] selects exactly the owner's to-dos due in that month |
| AuthService.Register | src/main/java/com/example/calendar/service/AuthService.java:39-51 | a taken email gives Duplicate("Email already exists") and changes nothing; otherwise exactly that email is added with a fresh id and the encoded password; existing users and to-dos are unchanged; nothing is returned; the store stays valid |
| AuthService.RegisterTwiceFails | src/main/java/com/example/calendar/service/AuthService.java:41-43 | registering an email a second time fails with Duplicate, leaves the store as the first call made it, and keeps the first password |
| AuthService.RegisterKeepsIdsUnique | src/main/java/com/example/calendar/service/AuthService.java:41-50 | after registration, no two emails share a user id |
| GlobalExceptionHandler.Handle | src/main/java/com/example/calendar/exception/GlobalExceptionHandler.java:11-33 | the status is one of 404, 401, 409 and 500; known failures keep their message; any other failure gets the fixed text "An unexpected error occurred" |
| GlobalExceptionHandler.StatusIdentifiesKind | src/main/java/com/example/calendar/exception/GlobalExceptionHandler.java:11-33 | two failures get the same status exactly when they are of the same kind |
| GlobalExceptionHandler.StatusOfEachKind | src/main/java/com/example/calendar/exception/GlobalExceptionHandler.java:11-33 | 404 exactly for NotFound, 401 exactly for Unauthorized, 409 exactly for Duplicate, 500 exactly for anything else |
| GlobalExceptionHandler.UnexpectedNeverLeaks | src/main/java/com/example/calendar/exception/GlobalExceptionHandler.java:29-33 | two unexpected failures produce the same response whatever their messages, so no detail leaks |
| TodoProperties.UnknownCallerIsRejected | src/main/java/com/example/calendar/service/TodoService.java:31-32 | for an unregistered caller all seven operations fail with NotFound("User not found"), and the writes leave the store unchanged |
| TodoProperties.CreateThenGet | src/main/java/com/example/calendar/service/TodoService.java:34-43 | a to-do just created is readable by its creator with the same response, which shows the request's fields |
| TodoProperties.DeleteThenGetIsNotFound | src/test/java/com/example/calendar/service/TodoServiceIntegrationTest.java:117-133 | after the owner deletes a to-do, reading it fails with NotFound("Todo not found") |
| TodoProperties.UpdateThenGet | src/test/java/com/example/calendar/service/TodoServiceTest.java:100-119 | after the owner updates a to-do, reading it returns the update's response: same id, the request's fields |
| TodoProperties.DistinctCallersHaveDistinctIds | src/main/java/com/example/calendar/domain/User.java:22-30 | two registered emails belong to two different user ids |
| TodoProperties.OtherUsersCannotReachTodo | src/main/java/com/example/calendar/service/TodoService.java:61-66 | another user reading, updating or deleting a to-do gets Unauthorized and writes nothing, and none of that user's three listings shows it |
| TodoProperties.ListedIdsAreSelected | src/main/java/com/example/calendar/store/TodoRepository.java:11-14 | the ids a listing shows are exactly the owner's to-dos that satisfy the listing's criterion |
| TodoProperties.ListingOmitsOthersTodos | src/main/java/com/example/calendar/service/TodoService.java:51 | a user's listing never shows a to-do owned by someone else |
| TodoProperties.DeleteRemovesFromListing | src/main/java/com/example/calendar/service/TodoService.java:99 | after the owner deletes a to-do, each of the owner's listings shows the same ids as before, minus that one |
| TodoProperties.DeleteRemovesFromGetTodos | src/main/java/com/example/calendar/service/TodoService.java:46-54 | the owner's full listing after a delete shows the ids it showed before, minus the deleted one |
| TodoProperties.ListingLengthIsIdCount | src/main/java/com/example/calendar/service/TodoService.java:51-53 | a listing shows each to-do once: its length equals its number of distinct ids |
| Scenario.CreatedTodoIsOwnersOnly | src/main/java/com/example/calendar/service/TodoService.java:112-123 | with two users and no to-dos, a to-do one user creates for a month is the whole of that user's monthly listing, and the other user's read fails with Unauthorized |
| Scenario.RegisterTwoUsers | src/main/java/com/example/calendar/service/AuthService.java:39-51 | registering two different emails in an empty store succeeds twice and yields a valid store with both users and no to-dos |
| Scenario.TwoUsersOneTodo | src/test/java/com/example/calendar/service/TodoServiceTest.java:143-163 | a@x.com and b@x.com register; a creates "Buy milk" due 2024-04-10; a's April 2024 listing is exactly that to-do; b's read of it fails with Unauthorized, which the handler turns into 401 |

## Left out

- `AuthService.authenticate` and all token handling are not modelled. The
  authentication manager, `JwtUtil` and `CustomUserDetailsService` are not
  part of this model. The caller is an email, resolved against the user map.
- The password encoder's algorithm is not modelled. It is the parameter
  `encode` of `Register`, and nothing is assumed about it.
- Timestamps (`updatedAt`, `createdAt`), the user's `uuid` and the response's
  `uuid` are left out. They come from the clock and from random generation.
- Controllers, Swagger annotations and the application entry point are left
  out. They are HTTP routing.
- Bean validation beyond the title rule is left out. The model also does not
  show what a rejected request turns into: the catch-all handler would answer
  it with 500, since no handler targets validation exceptions.
- JPA mechanics are left out: dirty checking, `@Transactional`, lazy loading,
  and the `@Where` soft-delete filter on users (users are never deleted
  here).
- Concurrency and transaction isolation are left out. Every operation is one
  atomic step on an immutable store.
- `findByUserAndCompleted` is left out because no service method uses it.
- `Long` ids are unbounded natural numbers in the model. Overflow of the id
  generators is not modelled.
- The `java.time` year range (±999,999,999) is not enforced. Years are
  unbounded integers.
- Listing order: `Domain.FindBy` returns rows in ascending id order. The
  repository queries have no `ORDER BY`, so their order is unspecified. The
  model fixes one order, and only the set of rows and their uniqueness carry
  over to the source.
