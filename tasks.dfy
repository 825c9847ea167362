/** The task record, the one entity of the task API, and the partial updates
    the handlers merge into it. */
module Tasks {

  datatype Option<T> = None | Some(value: T)

  /** An opaque task identifier (a random UUID in the running service). */
  type Id = string

  /** A reading of the wall clock, in milliseconds since the epoch. */
  type Time = int

  /** A stored task. `completedAt` is `None` (JSON null) until the task is
      marked complete. */
  datatype Task = Task(
    id: Id,
    title: string,
    description: string,
    completedAt: Option<Time>,
    createdAt: Time,
    updatedAt: Time)

  /** The fields an update hands to the store; `None` means the field is not
      in the update object, so the stored value is kept. There is no `id` or
      `createdAt` here: no handler sends them. */
  datatype Patch = Patch(
    title: Option<string>,
    description: Option<string>,
    completedAt: Option<Time>,
    updatedAt: Option<Time>)

  function Override<T>(current: T, replacement: Option<T>): T {
    if replacement.Some? then replacement.value else current
  }

  /** The record after the fields of `p` are merged into `t`. */
  function Merge(t: Task, p: Patch): (r: Task)
    ensures r.id == t.id && r.createdAt == t.createdAt
    ensures p == Patch(None, None, None, None) ==> r == t
  {
    Task(
      t.id,
      Override(t.title, p.title),
      Override(t.description, p.description),
      if p.completedAt.Some? then Some(p.completedAt.value) else t.completedAt,
      t.createdAt,
      Override(t.updatedAt, p.updatedAt))
  }

  /** The time-ordering invariant of a task: it was not updated or completed
      before it was created. */
  predicate Chronological(t: Task) {
    && t.createdAt <= t.updatedAt
    && (t.completedAt.Some? ==> t.createdAt <= t.completedAt.value)
  }

  /** Merging a patch whose timestamps do not precede the creation time keeps
      a task chronological. */
  lemma MergeKeepsChronological(t: Task, p: Patch)
    requires Chronological(t)
    requires p.updatedAt.Some? ==> t.createdAt <= p.updatedAt.value
    requires p.completedAt.Some? ==> t.createdAt <= p.completedAt.value
    ensures Chronological(Merge(t, p))
  {
  }
}
