/** The task table the handlers read and write.

    The store's own source is not part of this model. The semantics below are
    ASSUMED, not taken from its code: lookup by id is exact equality on `id`;
    insert appends; update merges the patch into the first record with that
    id (and does nothing when there is none); delete removes the first record
    with that id (and does nothing when there is none). The text matching
    that a search filter performs is left abstract: it is a parameter. */
module Store {
  import opened Tasks

  /** A key of a select filter. */
  datatype Field = IdField | TitleField | DescriptionField

  /** A select filter: field name to the value searched for. */
  type Filter = map<Field, string>

  predicate HasId(ts: seq<Task>, id: Id) {
    exists k :: 0 <= k < |ts| && ts[k].id == id
  }

  /** No two records share an id. */
  predicate UniqueIds(ts: seq<Task>) {
    forall i, j :: 0 <= i < j < |ts| ==> ts[i].id != ts[j].id
  }

  /** The position of the first record with `id`, if any. */
  function IndexOf(ts: seq<Task>, id: Id): (r: Option<nat>)
    ensures r.None? <==> !HasId(ts, id)
    ensures r.Some? ==> r.value < |ts| && ts[r.value].id == id
    ensures r.Some? ==> forall k :: 0 <= k < r.value ==> ts[k].id != id
  {
    if |ts| == 0 then None
    else if ts[0].id == id then Some(0)
    else
      match IndexOf(ts[1..], id)
      case None => None
      case Some(k) => Some(k + 1)
  }

  /** The record with `id`, if any (the first one, should there be several). */
  function Find(ts: seq<Task>, id: Id): (r: Option<Task>)
    ensures r.None? <==> !HasId(ts, id)
    ensures r.Some? ==> r.value in ts && r.value.id == id
  {
    match IndexOf(ts, id)
    case None => None
    case Some(i) => Some(ts[i])
  }

  /** What `select` with the filter `{ id }` returns: the records whose id is
      `id`, in table order. */
  function MatchingId(ts: seq<Task>, id: Id): (r: seq<Task>)
    ensures |r| <= |ts|
    ensures forall k :: 0 <= k < |r| ==> r[k].id == id && r[k] in ts
    ensures r == [] <==> !HasId(ts, id)
    ensures r != [] ==> Find(ts, id) == Some(r[0])
  {
    if |ts| == 0 then []
    else (if ts[0].id == id then [ts[0]] else []) + MatchingId(ts[1..], id)
  }

  /** What `select` returns under a filter: the records the filter matches,
      in table order. `matches` is the store's matching of one record against
      a filter, which this model does not fix. */
  function Filtered(ts: seq<Task>, f: Filter, matches: (Filter, Task) -> bool): (r: seq<Task>)
    ensures |r| <= |ts|
    ensures forall t :: t in r ==> t in ts && matches(f, t)
    ensures forall t :: t in ts && matches(f, t) ==> t in r
  {
    if |ts| == 0 then []
    else (if matches(f, ts[0]) then [ts[0]] else []) + Filtered(ts[1..], f, matches)
  }

  /** The table after `update(id, p)`. */
  function Updated(ts: seq<Task>, id: Id, p: Patch): (r: seq<Task>)
    ensures |r| == |ts|
    ensures forall k :: 0 <= k < |ts| ==> r[k].id == ts[k].id && r[k].createdAt == ts[k].createdAt
    ensures forall k :: 0 <= k < |ts| && ts[k].id != id ==> r[k] == ts[k]
    ensures !HasId(ts, id) ==> r == ts
    ensures HasId(ts, id) ==> Find(r, id) == Some(Merge(Find(ts, id).value, p))
  {
    match IndexOf(ts, id)
    case None => ts
    case Some(i) => ts[i := Merge(ts[i], p)]
  }

  /** The table after `delete(id)`: the first record with that id is taken
      out. */
  function Removed(ts: seq<Task>, id: Id): (r: seq<Task>)
    ensures !HasId(ts, id) ==> r == ts
    ensures HasId(ts, id) ==> |r| == |ts| - 1
    ensures forall t :: t in r ==> t in ts
    ensures forall t :: t in ts && t.id != id ==> t in r
  {
    if |ts| == 0 then []
    else if ts[0].id == id then ts[1..]
    else [ts[0]] + Removed(ts[1..], id)
  }

  /** With unique ids, `select` by id yields at most one record. */
  lemma {:induction false} MatchingIdAtMostOne(ts: seq<Task>, id: Id)
    requires UniqueIds(ts)
    ensures |MatchingId(ts, id)| <= 1
  {
    if |ts| > 0 {
      UniqueTail(ts);
      MatchingIdAtMostOne(ts[1..], id);
    }
  }

  /** With unique ids, a record of the table is the one found under its id. */
  lemma {:induction false} FindUnique(ts: seq<Task>, t: Task)
    requires UniqueIds(ts) && t in ts
    ensures Find(ts, t.id) == Some(t)
  {
    var k :| 0 <= k < |ts| && ts[k] == t;
    var i := IndexOf(ts, t.id).value;
    assert ts[i].id == ts[k].id;
  }

  /** The ids of a table with unique ids stay unique in what follows its
      first record, and the first id does not recur there. */
  lemma UniqueTail(ts: seq<Task>)
    requires UniqueIds(ts) && |ts| > 0
    ensures UniqueIds(ts[1..]) && !HasId(ts[1..], ts[0].id)
  {
    var rest := ts[1..];
    forall i, j | 0 <= i < j < |rest| ensures rest[i].id != rest[j].id {
      assert rest[i] == ts[i + 1] && rest[j] == ts[j + 1];
    }
    forall k | 0 <= k < |rest| ensures rest[k].id != ts[0].id {
      assert rest[k] == ts[k + 1];
    }
  }

  /** Putting a record whose id is new in front keeps the ids unique: the
      step of `RemovedDropsId` where a delete rebuilds the table as its first
      record followed by the rest with the id removed. */
  lemma UniqueCons(t: Task, ts: seq<Task>)
    requires UniqueIds(ts) && !HasId(ts, t.id)
    ensures UniqueIds([t] + ts)
  {
    var s := [t] + ts;
    forall i, j | 0 <= i < j < |s| ensures s[i].id != s[j].id {
      assert s[j] == ts[j - 1];
      if i > 0 { assert s[i] == ts[i - 1]; }
    }
  }

  /** Records drawn from a table without `id` do not carry `id` either. */
  lemma NoIdInSubset(sub: seq<Task>, ts: seq<Task>, id: Id)
    requires forall t :: t in sub ==> t in ts
    requires !HasId(ts, id)
    ensures !HasId(sub, id)
  {
    forall k | 0 <= k < |sub| ensures sub[k].id != id {
      assert sub[k] in ts;
    }
  }

  /** Deleting an id from a table with unique ids keeps the ids unique and
      leaves no record with that id. */
  lemma {:induction false} RemovedDropsId(ts: seq<Task>, id: Id)
    requires UniqueIds(ts)
    ensures UniqueIds(Removed(ts, id))
    ensures !HasId(Removed(ts, id), id)
  {
    if |ts| > 0 {
      UniqueTail(ts);
      var rest := ts[1..];
      if ts[0].id != id {
        RemovedDropsId(rest, id);
        var r' := Removed(rest, id);
        NoIdInSubset(r', rest, ts[0].id);
        UniqueCons(ts[0], r');
        assert Removed(ts, id) == [ts[0]] + r';
        assert !HasId([ts[0]] + r', id) by {
          forall k | 0 <= k < |r'| + 1 ensures ([ts[0]] + r')[k].id != id {
            if k > 0 { assert ([ts[0]] + r')[k] == r'[k - 1]; }
          }
        }
      }
    }
  }

  /** Deleting an id that is present takes exactly the record found under it
      out of the table. */
  lemma {:induction false} RemovedTakesOne(ts: seq<Task>, id: Id)
    requires HasId(ts, id)
    ensures multiset(Removed(ts, id)) + multiset{Find(ts, id).value} == multiset(ts)
  {
    assert ts == [ts[0]] + ts[1..];
    if ts[0].id != id {
      var rest := ts[1..];
      assert HasId(rest, id) by {
        var k :| 0 <= k < |ts| && ts[k].id == id;
        assert rest[k - 1] == ts[k];
      }
      RemovedTakesOne(rest, id);
      assert Find(ts, id) == Find(rest, id);
    }
  }

  /** Deleting an id from a table with unique ids leaves the record found
      under every other id as it was. */
  lemma RemovedKeepsOthers(ts: seq<Task>, id: Id)
    requires UniqueIds(ts)
    ensures forall other :: other != id ==> Find(Removed(ts, id), other) == Find(ts, other)
  {
    var r := Removed(ts, id);
    RemovedDropsId(ts, id);
    forall other | other != id ensures Find(r, other) == Find(ts, other) {
      if HasId(ts, other) {
        FindUnique(r, Find(ts, other).value);
      }
    }
  }

  /** An update of one id, on a table with unique ids, leaves the records
      found under every other id as they were. */
  lemma UpdatedKeepsOthers(ts: seq<Task>, id: Id, p: Patch)
    requires UniqueIds(ts)
    ensures UniqueIds(Updated(ts, id, p))
    ensures forall other :: other != id ==> Find(Updated(ts, id, p), other) == Find(ts, other)
  {
    var r := Updated(ts, id, p);
    forall other | other != id ensures Find(r, other) == Find(ts, other) {
      if HasId(ts, other) {
        var t := Find(ts, other).value;
        var k :| 0 <= k < |ts| && ts[k] == t;
        assert r[k] == t;
        FindUnique(r, t);
      } else {
        assert !HasId(r, other);
      }
    }
  }

  /** Appending a record whose id is new keeps the ids unique and makes it the
      one found under its id; the records already there are still found. */
  lemma InsertedFresh(ts: seq<Task>, t: Task)
    requires UniqueIds(ts) && !HasId(ts, t.id)
    ensures UniqueIds(ts + [t])
    ensures Find(ts + [t], t.id) == Some(t)
    ensures forall id :: id != t.id ==> Find(ts + [t], id) == Find(ts, id)
  {
    var s := ts + [t];
    assert forall k :: 0 <= k < |ts| ==> s[k] == ts[k];
    assert s[|ts|] == t;
    assert UniqueIds(s);
    FindUnique(s, t);
    forall id | id != t.id ensures Find(s, id) == Find(ts, id) {
      if HasId(ts, id) {
        FindUnique(s, Find(ts, id).value);
      } else {
        assert !HasId(s, id);
      }
    }
  }

  /** The store: one table of task records, held in memory. Persistence to
      the JSON file, and other tables than "tasks", are not part of this
      model. */
  class Database {
    var tasks: seq<Task>

    /** Opens the store on the table loaded from its file. */
    constructor (loaded: seq<Task>)
      ensures tasks == loaded
    {
      tasks := loaded;
    }

    /** `select("tasks", filter)`: the whole table when there is no filter,
        otherwise the matching records. */
    method Select(filter: Option<Filter>, matches: (Filter, Task) -> bool) returns (r: seq<Task>)
      ensures filter.None? ==> r == tasks
      ensures filter.Some? ==> r == Filtered(tasks, filter.value, matches)
    {
      if filter.None? {
        r := tasks;
      } else {
        r := Filtered(tasks, filter.value, matches);
      }
    }

    /** `select("tasks", { id })`. */
    method SelectById(id: Id) returns (r: seq<Task>)
      ensures r == [] <==> !HasId(tasks, id)
      ensures forall k :: 0 <= k < |r| ==> r[k].id == id && r[k] in tasks
      ensures r != [] ==> Find(tasks, id) == Some(r[0])
    {
      r := MatchingId(tasks, id);
    }

    /** `insert("tasks", t)`. */
    method Insert(t: Task)
      modifies this
      ensures tasks == old(tasks) + [t]
    {
      tasks := tasks + [t];
    }

    /** `update("tasks", id, p)`. */
    method Update(id: Id, p: Patch)
      modifies this
      ensures tasks == Updated(old(tasks), id, p)
    {
      tasks := Updated(tasks, id, p);
    }

    /** `delete("tasks", id)`. */
    method Delete(id: Id)
      modifies this
      ensures tasks == Removed(old(tasks), id)
    {
      tasks := Removed(tasks, id);
    }
  }
}
