/** The task API's route table and its five request handlers.

    Each handler is a method of `TaskRoutes`, the object that holds the
    service's one `Database`. A handler returns the response it writes
    (status code and body) instead of writing it to a response object. The
    values the running service draws from the system (a random UUID for a
    new task and the current time) are parameters, and so is whether the
    store's write raises an error. */
module Routes {
  import opened Tasks
  import opened Store

  datatype Verb = GET | POST | DELETE | PUT | PATCH

  /** Which of the five handlers a route runs. */
  datatype Action = List | Create | Remove | Replace | Complete

  datatype Route = Route(verb: Verb, path: string, action: Action)

  /** The registered routes, in registration order. */
  const RouteTable: seq<Route> := [
    Route(GET, "/tasks", List),
    Route(POST, "/tasks", Create),
    Route(DELETE, "/tasks/:id", Remove),
    Route(PUT, "/tasks/:id", Replace),
    Route(PATCH, "/tasks/:id/complete", Complete)
  ]

  /** Some route runs handler `a`. */
  predicate Registered(a: Action) {
    exists k :: 0 <= k < |RouteTable| && RouteTable[k].action == a
  }

  /** The five routes have pairwise different verbs, so a request's verb
      selects at most one route and first-match dispatch never hides a
      handler; and every handler has a route. */
  lemma RouteTableUnambiguous()
    ensures forall i, j :: 0 <= i < j < |RouteTable| ==> RouteTable[i].verb != RouteTable[j].verb
    ensures forall a: Action :: Registered(a)
  {
    forall a: Action ensures Registered(a) {
      match a
      case List => assert RouteTable[0].action == a;
      case Create => assert RouteTable[1].action == a;
      case Remove => assert RouteTable[2].action == a;
      case Replace => assert RouteTable[3].action == a;
      case Complete => assert RouteTable[4].action == a;
    }
  }

  /** What a handler writes as the response body. */
  datatype Body = Empty | Json(tasks: seq<Task>) | Text(message: string)

  datatype Response = Response(status: int, body: Body)

  const Ok200: int := 200
  const ServerError := Response(500, Text("Server error"))
  const NotFound := Response(404, Empty)
  const NoContent := Response(204, Empty)
  const Created := Response(201, Empty)

  /** The fields of the parsed JSON request body that the handlers read.
      `None` is a field that is absent or null; a request without a parsed
      body behaves as one with both fields absent (reading a field of an
      undefined body raises, which lands in the same 500 path). */
  datatype RequestBody = RequestBody(title: Option<string>, description: Option<string>)

  /** JavaScript truthiness of a value that is absent, null or a string:
      only a non-empty string is truthy. */
  predicate Truthy(v: Option<string>) {
    v.Some? && v.value != ""
  }

  /** The presence check of the create and full-update handlers. */
  predicate HasRequiredFields(b: RequestBody) {
    Truthy(b.title) && Truthy(b.description)
  }

  /** The filter the list handler passes to `select`: none when `search` is
      absent or empty, otherwise the search term under both `title` and
      `description`. */
  function SearchFilter(search: Option<string>): (r: Option<Filter>)
    ensures r.None? <==> (search.None? || search.value == "")
    ensures r.Some? ==>
      && r.value.Keys == {TitleField, DescriptionField}
      && r.value[TitleField] == search.value
      && r.value[DescriptionField] == search.value
  {
    if Truthy(search) then Some(map[TitleField := search.value, DescriptionField := search.value])
    else None
  }

  /** The record the create handler builds: a fresh id, the given text, not
      completed, created and updated now. */
  function NewTask(id: Id, b: RequestBody, now: Time): (t: Task)
    requires HasRequiredFields(b)
    ensures t.id == id && t.title == b.title.value && t.description == b.description.value
    ensures t.completedAt.None? && t.createdAt == now && t.updatedAt == now
    ensures Chronological(t)
  {
    Task(id, b.title.value, b.description.value, None, now, now)
  }

  /** What the handlers keep true of the table: ids are unique and every task
      has a non-empty title and description. */
  predicate TableInvariant(ts: seq<Task>) {
    && UniqueIds(ts)
    && forall t :: t in ts ==> t.title != "" && t.description != ""
  }

  /** The clock reading `now` is not earlier than any task's creation. */
  predicate ClockNotBefore(ts: seq<Task>, now: Time) {
    forall t :: t in ts ==> t.createdAt <= now
  }

  predicate AllChronological(ts: seq<Task>) {
    forall t :: t in ts ==> Chronological(t)
  }

  /** The update the full-update handler sends. */
  function ReplacePatch(b: RequestBody, now: Time): Patch {
    Patch(b.title, b.description, None, Some(now))
  }

  /** The update the mark-complete handler sends. */
  function CompletePatch(now: Time): Patch {
    Patch(None, None, Some(now), Some(now))
  }

  /** An update keeps the table invariant when it does not blank out a title
      or a description; and it keeps every task chronological when its
      timestamps are not earlier than any creation time. */
  lemma UpdatedKeepsInvariants(ts: seq<Task>, id: Id, p: Patch)
    requires p.title.Some? ==> p.title.value != ""
    requires p.description.Some? ==> p.description.value != ""
    ensures TableInvariant(ts) ==> TableInvariant(Updated(ts, id, p))
    ensures AllChronological(ts)
            && (p.updatedAt.Some? ==> ClockNotBefore(ts, p.updatedAt.value))
            && (p.completedAt.Some? ==> ClockNotBefore(ts, p.completedAt.value))
            ==> AllChronological(Updated(ts, id, p))
  {
    var r := Updated(ts, id, p);
    forall t | t in r ensures t in ts || exists k :: 0 <= k < |ts| && t == Merge(ts[k], p) {
      var k :| 0 <= k < |r| && r[k] == t;
      if ts[k].id != id {
        assert t == ts[k];
      } else {
        var i := IndexOf(ts, id).value;
        assert k == i || t == ts[k] by {
          if k != i { assert r == ts[i := Merge(ts[i], p)]; }
        }
        if k == i { assert r == ts[i := Merge(ts[i], p)]; }
      }
    }
    if AllChronological(ts)
       && (p.updatedAt.Some? ==> ClockNotBefore(ts, p.updatedAt.value))
       && (p.completedAt.Some? ==> ClockNotBefore(ts, p.completedAt.value))
    {
      forall k | 0 <= k < |ts| ensures Chronological(Merge(ts[k], p)) {
        MergeKeepsChronological(ts[k], p);
      }
    }
  }

  class TaskRoutes {
    const database: Database

    ghost predicate Valid()
      reads this, database
    {
      TableInvariant(database.tasks)
    }

    /** Opens the store on the table its file holds; a table that only the
        handlers have written satisfies the invariant. */
    constructor (loaded: seq<Task>)
      requires TableInvariant(loaded)
      ensures Valid() && fresh(database) && database.tasks == loaded
    {
      database := new Database(loaded);
    }

    /** GET /tasks: answers 200 with the whole table when `search` is absent
        or empty, otherwise with the records that `select` matches against
        the filter `{ title: search, description: search }`. Nothing
        changes. */
    method ListTasks(search: Option<string>, matches: (Filter, Task) -> bool) returns (response: Response)
      ensures response.status == Ok200 && response.body.Json?
      ensures !Truthy(search) ==> response.body.tasks == database.tasks
      ensures Truthy(search) ==>
        response.body.tasks
          == Filtered(database.tasks, map[TitleField := search.value, DescriptionField := search.value], matches)
      ensures forall t :: t in response.body.tasks ==> t in database.tasks
    {
      var tasks := database.Select(SearchFilter(search), matches);
      response := Response(Ok200, Json(tasks));
    }

    /** POST /tasks: a missing or empty title or description answers 500 and
        changes nothing; otherwise the new task is appended and the answer is
        201. */
    method CreateTask(body: RequestBody, freshId: Id, now: Time, storeFails: bool) returns (response: Response)
      requires Valid()
      requires !HasId(database.tasks, freshId)
      modifies database
      ensures Valid()
      ensures !HasRequiredFields(body) || storeFails ==>
        response == ServerError && database.tasks == old(database.tasks)
      ensures HasRequiredFields(body) && !storeFails ==>
        && response == Created
        && database.tasks == old(database.tasks) + [NewTask(freshId, body, now)]
        && Find(database.tasks, freshId) == Some(NewTask(freshId, body, now))
        && (forall id :: id != freshId ==> Find(database.tasks, id) == old(Find(database.tasks, id)))
      ensures ClockNotBefore(old(database.tasks), now) && AllChronological(old(database.tasks))
              ==> AllChronological(database.tasks)
    {
      if !HasRequiredFields(body) {
        response := ServerError;
        return;
      }
      var task := NewTask(freshId, body, now);
      if storeFails {
        response := ServerError;
        return;
      }
      database.Insert(task);
      InsertedFresh(old(database.tasks), task);
      response := Created;
    }

    /** DELETE /tasks/:id: an unknown id answers 404 and changes nothing;
        otherwise that task is removed, every other task stays, and the
        answer is 204. */
    method DeleteTask(id: Id, storeFails: bool) returns (response: Response)
      requires Valid()
      modifies database
      ensures Valid()
      ensures !HasId(old(database.tasks), id) ==>
        response == NotFound && database.tasks == old(database.tasks)
      ensures HasId(old(database.tasks), id) && storeFails ==>
        response == ServerError && database.tasks == old(database.tasks)
      ensures HasId(old(database.tasks), id) && !storeFails ==>
        && response == NoContent
        && database.tasks == Removed(old(database.tasks), id)
        && !HasId(database.tasks, id)
        && multiset(database.tasks) + multiset{old(Find(database.tasks, id)).value}
           == multiset(old(database.tasks))
        && (forall other :: other != id ==> Find(database.tasks, other) == old(Find(database.tasks, other)))
      ensures AllChronological(old(database.tasks)) ==> AllChronological(database.tasks)
    {
      var found := database.SelectById(id);
      if found == [] {
        response := NotFound;
        return;
      }
      if storeFails {
        response := ServerError;
        return;
      }
      database.Delete(id);
      RemovedDropsId(old(database.tasks), id);
      RemovedTakesOne(old(database.tasks), id);
      RemovedKeepsOthers(old(database.tasks), id);
      response := NoContent;
    }

    /** PUT /tasks/:id: the existence check comes first, so an unknown id
        answers 404 whatever the body holds; a missing field then answers 500
        and changes nothing; otherwise the title and description are replaced,
        `updatedAt` is set to now, and the answer is 204. */
    method UpdateTask(id: Id, body: RequestBody, now: Time, storeFails: bool) returns (response: Response)
      requires Valid()
      modifies database
      ensures Valid()
      ensures !HasId(old(database.tasks), id) ==>
        response == NotFound && database.tasks == old(database.tasks)
      ensures HasId(old(database.tasks), id) && (!HasRequiredFields(body) || storeFails) ==>
        response == ServerError && database.tasks == old(database.tasks)
      ensures HasId(old(database.tasks), id) && HasRequiredFields(body) && !storeFails ==>
        && response == NoContent
        && database.tasks == Updated(old(database.tasks), id, ReplacePatch(body, now))
        && Find(database.tasks, id)
           == Some(old(Find(database.tasks, id)).value.(
                title := body.title.value, description := body.description.value, updatedAt := now))
        && |database.tasks| == |old(database.tasks)|
        && (forall k :: 0 <= k < |database.tasks| && old(database.tasks)[k].id != id ==>
              database.tasks[k] == old(database.tasks)[k])
        && (forall other :: other != id ==> Find(database.tasks, other) == old(Find(database.tasks, other)))
      ensures ClockNotBefore(old(database.tasks), now) && AllChronological(old(database.tasks))
              ==> AllChronological(database.tasks)
    {
      var found := database.SelectById(id);
      if found == [] {
        response := NotFound;
        return;
      }
      if !HasRequiredFields(body) {
        response := ServerError;
        return;
      }
      if storeFails {
        response := ServerError;
        return;
      }
      database.Update(id, ReplacePatch(body, now));
      UpdatedKeepsInvariants(old(database.tasks), id, ReplacePatch(body, now));
      UpdatedKeepsOthers(old(database.tasks), id, ReplacePatch(body, now));
      response := NoContent;
    }

    /** PATCH /tasks/:id/complete: an unknown id answers 404 and changes
        nothing; otherwise `completedAt` and `updatedAt` are set to now (also
        when the task was already complete), the rest of the task is kept,
        and the answer is 204. */
    method CompleteTask(id: Id, now: Time, storeFails: bool) returns (response: Response)
      requires Valid()
      modifies database
      ensures Valid()
      ensures !HasId(old(database.tasks), id) ==>
        response == NotFound && database.tasks == old(database.tasks)
      ensures HasId(old(database.tasks), id) && storeFails ==>
        response == ServerError && database.tasks == old(database.tasks)
      ensures HasId(old(database.tasks), id) && !storeFails ==>
        && response == NoContent
        && database.tasks == Updated(old(database.tasks), id, CompletePatch(now))
        && Find(database.tasks, id)
           == Some(old(Find(database.tasks, id)).value.(completedAt := Some(now), updatedAt := now))
        && |database.tasks| == |old(database.tasks)|
        && (forall k :: 0 <= k < |database.tasks| && old(database.tasks)[k].id != id ==>
              database.tasks[k] == old(database.tasks)[k])
        && (forall other :: other != id ==> Find(database.tasks, other) == old(Find(database.tasks, other)))
      ensures ClockNotBefore(old(database.tasks), now) && AllChronological(old(database.tasks))
              ==> AllChronological(database.tasks)
    {
      var found := database.SelectById(id);
      if found == [] {
        response := NotFound;
        return;
      }
      if storeFails {
        response := ServerError;
        return;
      }
      database.Update(id, CompletePatch(now));
      UpdatedKeepsInvariants(old(database.tasks), id, CompletePatch(now));
      UpdatedKeepsOthers(old(database.tasks), id, CompletePatch(now));
      response := NoContent;
    }
  }
}
