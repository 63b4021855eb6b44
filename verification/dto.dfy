/** The request and response bodies of the to-do endpoints. */
module Dto {
  import opened Dates
  import opened Domain

  /** The fields a client sends to create or update a to-do. */
  datatype TodoRequest = TodoRequest(
    title: string,
    description: Option<string>,
    dueDate: Option<LocalDate>,
    completed: bool)

  /** The fields the service returns for a to-do. */
  datatype TodoResponse = TodoResponse(
    id: TodoId,
    title: string,
    description: Option<string>,
    dueDate: Option<LocalDate>,
    completed: bool)

  /**
   The `@NotBlank` rule on the title: after trimming the characters up to
   U+0020 at both ends something must remain, i.e. some character is above
   U+0020.
   */
  predicate IsNotBlank(title: string) {
    exists i :: 0 <= i < |title| && title[i] > ' '
  }

  /** Whether a response shows exactly the editable fields of a request. */
  predicate Reflects(response: TodoResponse, request: TodoRequest) {
    && response.title == request.title
    && response.description == request.description
    && response.dueDate == request.dueDate
    && response.completed == request.completed
  }
}
