# Task API request handlers, modelled in Dafny

This project models the request handlers of a small HTTP API for "task"
records. The API has five routes. `GET /tasks` lists tasks, or searches them
with `?search=`. `POST /tasks` creates a task. `DELETE /tasks/:id` deletes
one. `PUT /tasks/:id` replaces a task's title and description.
`PATCH /tasks/:id/complete` marks a task complete. Every handler reads and
writes one shared store that holds a single table of task records.

The model has four modules:

- `Tasks` (`tasks.dfy`) defines the task record. It has an id, a title, a
  description, a nullable `completedAt`, `createdAt` and `updatedAt`. The
  module also defines the partial update (`Patch`) that handlers send to the
  store, and how that update merges into a record.
- `Store` (`store.dfy`) is the store, kept abstract. The `Database` class
  holds the table as a `seq<Task>`. It offers select (whole table or
  filtered), select by id, insert, update and delete, each specified by a
  function on sequences. The store's source is not part of this model, so
  its semantics are assumed and marked as such in the file. Lookup by id is
  exact. Insert appends. Update merges the patch into the first record with
  the id. Delete removes the first record with the id.
- `Routes` (`routes.dfy`) holds the route table and the `TaskRoutes`
  class. That class holds the one `Database`, and there is one method per
  handler. Each method returns the response it would write: the status code
  and an empty, JSON or plain-text body. Each method's contract states the
  status code on every path and the exact new table:
  - a missing title or description answers 500;
  - an unknown id answers 404;
  - the existence check runs before the body check in PUT;
  - the fields each mutation touches and the ones it keeps.

  The class invariant is that ids are unique and that every title and
  description is non-empty. Every handler preserves it. Each mutating
  handler also keeps every task chronological, provided the clock reading
  is not earlier than any task's creation time. Chronological means the
  task was not updated or completed before it was created.
- `Scenarios` (`scenarios.dfy`) holds methods that make several requests in
  a row. They show what a caller can conclude from the handlers' contracts:
  - after a create, a list shows the new task;
  - a second delete of the same id answers 404;
  - completing a task stamps a time no earlier than its creation time;
  - a PUT of an unknown id answers 404 whatever the body holds.

Inputs the running service takes from the system are method parameters:
- `randomUUID()` becomes `freshId`, with the precondition that no task
  already has that id;
- `new Date()` becomes `now`;
- an error raised by the store's write becomes `storeFails`.

JavaScript truthiness of a body field is modelled on `Option<string>`. An
absent or null field is `None`, and only a non-empty string passes the
presence check.

## Model

| member | source | states |
|---|---|---|
| Tasks.Merge | src/routes.js:94-98 | merging an update object never changes a task's `id` or `createdAt`; an update with no fields changes nothing |
| Tasks.MergeKeepsChronological | src/routes.js:119-122 | a task stays chronological when the timestamps merged into it are not earlier than its creation time |
| Store.IndexOf | src/routes.js:63 | the position of the first record with the id, or none exactly when no record has that id |
| Store.Find | src/routes.js:63-64 | the record the existence check sees: none exactly when no record has the id, otherwise a record of the table with that id |
| Store.MatchingId | src/routes.js:63 | `select` with the filter `{ id }` returns only table records with that id, is empty exactly when the id is absent, and its first element (`const [task]`) is the record `Find` gives |
| Store.Filtered | src/routes.js:13-16 | a filtered `select` returns exactly the table's records that the filter matches, in both directions, and no more records than the table has |
| Store.Updated | src/routes.js:94-98 | an update keeps the table's length, every id and creation time, and every record under another id; an unknown id changes nothing; the record found under the id afterwards is the old one with the patch merged in |
| Store.Removed | src/routes.js:68 | a delete of an unknown id changes nothing; otherwise it removes exactly one record, keeps every record with another id, and adds none |
| Store.MatchingIdAtMostOne | src/routes.js:63 | with unique ids, `select` by id yields at most one record |
| Store.FindUnique | src/routes.js:63-64 | with unique ids, every record of the table is the one found under its id |
| Store.UniqueTail | src/routes.js:63 | with unique ids, the records after the first still have unique ids and none shares the first one's id |
| Store.UniqueCons | src/routes.js:68 | the induction step of delete: when a delete rebuilds the table as its first record followed by the rest with the id removed, a first record whose id is not in that rest keeps the ids unique |
| Store.NoIdInSubset | src/routes.js:68 | records taken from a table that has no record with an id have none either |
| Store.RemovedDropsId | src/routes.js:68-69 | with unique ids, after a delete no record has that id and ids stay unique |
| Store.RemovedTakesOne | src/routes.js:68 | a delete of a present id takes out exactly the record found under it: the old table equals the new one plus that record, as multisets |
| Store.RemovedKeepsOthers | src/routes.js:68 | with unique ids, a delete leaves the record found under every other id unchanged |
| Store.UpdatedKeepsOthers | src/routes.js:94-98 | with unique ids, an update keeps ids unique and leaves the record found under every other id unchanged |
| Store.InsertedFresh | src/routes.js:35-44 | appending a task with a new id keeps ids unique, makes that task the one found under its id, and leaves lookups of every other id unchanged |
| Store.Database.constructor | src/routes.js:4 | the store opens on the table it loaded |
| Store.Database.Select | src/routes.js:13-16 | with no filter the whole table in order; with a filter the records `Filtered` selects |
| Store.Database.SelectById | src/routes.js:63 | the result is empty exactly when no record has the id; its records all have that id and belong to the table; its first record is the one `Find` gives |
| Store.Database.Insert | src/routes.js:44 | the table becomes the old table with the record appended |
| Store.Database.Update | src/routes.js:94 | the table becomes `Updated` of the old table |
| Store.Database.Delete | src/routes.js:68 | the table becomes `Removed` of the old table |
| Routes.RouteTableUnambiguous | src/routes.js:6-131 | the five routes have pairwise different verbs, so for any request at most one route has a matching verb and first-match dispatch never hides a handler; every handler has a route |
| Routes.SearchFilter | src/routes.js:12-16 | there is no filter exactly when `search` is absent or empty; otherwise the filter has exactly the keys `title` and `description`, both mapped to the search term |
| Routes.NewTask | src/routes.js:35-42 | the created record carries the fresh id and the given title and description, has no completion time, takes `createdAt` and `updatedAt` from the clock, and is chronological |
| Routes.UpdatedKeepsInvariants | src/routes.js:94-98 | an update that does not blank a title or description keeps ids unique and texts non-empty; with timestamps not earlier than any creation time it keeps every task chronological |
| Routes.TaskRoutes.constructor | src/routes.js:4 | the handlers start on a fresh store holding the loaded table |
| Routes.TaskRoutes.ListTasks | src/routes.js:10-23 | always answers 200 with a JSON list and changes nothing; with `search` absent or empty it lists the whole table; otherwise it lists exactly what `select` returns for `{ title: search, description: search }`; every listed task belongs to the table |
| Routes.TaskRoutes.CreateTask | src/routes.js:29-53 | a missing or empty title or description answers 500 with the table unchanged, and so does a failing store write; otherwise it answers 201 and the table becomes the old one plus the new task; the new task is found under the fresh id and every other lookup is unchanged; the invariant and chronology are kept |
| Routes.TaskRoutes.DeleteTask | src/routes.js:59-74 | an unknown id answers 404 with the table unchanged; a failing store write answers 500 with the table unchanged; otherwise it answers 204, no task has the id any more, exactly that task is gone (as multisets), and every other id finds the same task |
| Routes.TaskRoutes.UpdateTask | src/routes.js:80-104 | an unknown id answers 404 with the table unchanged, whatever the body holds; then a missing field or a failing write answers 500 with the table unchanged; otherwise it answers 204 and the task under the id has the new title and description and `updatedAt` = now, with the same id, `createdAt` and `completedAt`; every other task is unchanged |
| Routes.TaskRoutes.CompleteTask | src/routes.js:110-128 | an unknown id answers 404 with the table unchanged; a failing write answers 500 with the table unchanged; otherwise it answers 204 and the task under the id has `completedAt` and `updatedAt` = now (also when it was already complete) and the same id, texts and `createdAt`; every other task is unchanged |
| Scenarios.CreateThenList | src/routes.js:29-48 | after a successful create, listing without a search answers 200 with the old table followed by the new task, which has the given texts, no completion time, and both timestamps from the clock |
| Scenarios.DeleteTwice | src/routes.js:59-69 | deleting an existing id answers 204, a second delete of it answers 404, and the table has lost exactly one record |
| Scenarios.CreateThenComplete | src/routes.js:110-123 | a task created at one time and completed at a later one has a completion time not before its creation time, and keeps its texts and creation time |
| Scenarios.UpdateMissingIgnoresBody | src/routes.js:83-90 | a PUT of an unknown id with an empty body answers 404, not 500, and changes nothing |

## Left out

- The store's implementation: loading the table from and saving it to the
  JSON file, other tables than "tasks", and the code of select, insert,
  update and delete. Their semantics here are assumed, as `store.dfy`
  states. The handlers' source only shows the calls.
- Routes.TaskRoutes.ListTasks: does not say which records a search
  returns. The store's text matching against a filter is a parameter
  (`matches`), because its source is not part of this model. So the model
  makes no claim about substring or equality matching, nor about whether
  the two filter keys combine as "and" or "or".
- Route dispatch and path compilation (`buildRoutePath`, extraction of
  `:id`): that source is not part of this model. The route table is kept as
  data, and handlers take the path parameter directly.
- The response object (`writeHead`, `end`), `JSON.stringify` of the listed
  tasks, and `console.error` logging are I/O. Handlers return the status
  code and body instead.
- `randomUUID()` and `new Date()` are sources of randomness and time, so
  they are parameters. The two `new Date()` calls of one handler are one
  clock reading `now`: the model does not capture that they may differ by a
  millisecond.
- JSON body values that are not strings or null are not modelled: numbers,
  booleans, objects and arrays, whose truthiness differs. The same holds
  for a `search` query parameter given several times (an array).
- Errors raised by the store: only the write of each mutating handler may
  fail (`storeFails`). A failing write is modelled as leaving the table
  unchanged and answering 500 with "Server error". The real store most
  likely changes its in-memory table first and then writes the file, so a
  real write failure probably leaves the table changed while the handler
  answers 500; the model does not capture that. Errors from the lookup and
  from the list handler's `select` are not modelled, so the list handler's
  500 path is not modelled.
- Routes.TaskRoutes.constructor: requires the loaded table to satisfy the
  invariant (unique ids, non-empty texts). That holds for a file written
  only by these handlers. A hand-edited file is not modelled.
