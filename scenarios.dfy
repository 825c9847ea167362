/** Request sequences against one `TaskRoutes`, and what the handlers'
    contracts let a client conclude about them. */
module Scenarios {
  import opened Tasks
  import opened Store
  import opened Routes

  /** A task created with a non-empty title and description is then listed,
      with those texts, its fresh id, no completion time, and creation and
      update times from the clock; the tasks listed before are listed still,
      in the same order, ahead of it. */
  method CreateThenList(routes: TaskRoutes, title: string, description: string, id: Id, now: Time,
                        matches: (Filter, Task) -> bool)
    returns (created: Response, listed: Response)
    requires routes.Valid() && !HasId(routes.database.tasks, id)
    requires title != "" && description != ""
    modifies routes.database
    ensures routes.Valid()
    ensures created == Created && listed.status == 200
    ensures listed.body == Json(old(routes.database.tasks) + [Task(id, title, description, None, now, now)])
  {
    created := routes.CreateTask(RequestBody(Some(title), Some(description)), id, now, false);
    listed := routes.ListTasks(None, matches);
  }

  /** Deleting an existing task answers 204 and takes one record out; a second
      delete of the same id answers 404 and changes nothing more. */
  method DeleteTwice(routes: TaskRoutes, id: Id) returns (first: Response, second: Response)
    requires routes.Valid() && HasId(routes.database.tasks, id)
    modifies routes.database
    ensures routes.Valid()
    ensures first == NoContent && second == NotFound
    ensures |routes.database.tasks| == |old(routes.database.tasks)| - 1
    ensures !HasId(routes.database.tasks, id)
  {
    first := routes.DeleteTask(id, false);
    second := routes.DeleteTask(id, false);
  }

  /** A task created at `created` and marked complete at a later `completed`
      carries a completion time not earlier than its creation time; creation
      time and texts survive the completion. */
  method CreateThenComplete(routes: TaskRoutes, body: RequestBody, id: Id, created: Time, completed: Time)
    returns (first: Response, second: Response)
    requires routes.Valid() && !HasId(routes.database.tasks, id)
    requires HasRequiredFields(body) && created <= completed
    modifies routes.database
    ensures routes.Valid()
    ensures first == Created && second == NoContent
    ensures Find(routes.database.tasks, id)
      == Some(Task(id, body.title.value, body.description.value, Some(completed), created, completed))
    ensures Chronological(Find(routes.database.tasks, id).value)
  {
    first := routes.CreateTask(body, id, created, false);
    second := routes.CompleteTask(id, completed, false);
  }

  /** A full update of an id that is not in the table answers 404 even when
      its body lacks both fields, because the existence check runs first. */
  method UpdateMissingIgnoresBody(routes: TaskRoutes, id: Id, now: Time) returns (response: Response)
    requires routes.Valid() && !HasId(routes.database.tasks, id)
    modifies routes.database
    ensures routes.Valid()
    ensures response == NotFound
    ensures routes.database.tasks == old(routes.database.tasks)
  {
    response := routes.UpdateTask(id, RequestBody(None, None), now, false);
  }
}
