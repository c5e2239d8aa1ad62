/**
 * The entities of the earlier iterations kept in the default package: a Task
 * with an id, a name, a description and a status, and no times.  The ids come
 * from the same kind of static counter as the current entities
 * (Entities.IdCounter, `++totalTasksCount`).
 *
 * The registries of that iteration store epics that keep the ids of their
 * subtasks and subtasks that keep their epic's id; those two classes are not
 * part of this model beyond the fields the registries use.  The epic that
 * owns its subtask objects (src/Epic.java) is module LegacyEpic.
 */
module LegacyEntities {
  import opened Wrappers
  import opened Decimal
  import opened Entities
  import opened Rows

  /** An entity object of the earlier iteration; the constructor is its runtime class. */
  datatype Entity =
    | Task(id: Int32, name: string, description: string, status: Status)
    | Epic(id: Int32, name: string, description: string, status: Status, subtaskIds: set<int>)
    | Subtask(id: Int32, name: string, description: string, status: Status, epicId: int)

  /** equals: the same runtime class and the same id. */
  predicate Equals(a: Entity, b: Entity) {
    && (a.Task? <==> b.Task?) && (a.Epic? <==> b.Epic?) && (a.Subtask? <==> b.Subtask?)
    && a.id == b.id
  }

  /** equals is an equivalence, and two tasks with different ids or classes differ. */
  lemma EqualsRules(a: Entity, b: Entity, c: Entity)
    ensures Equals(a, a)
    ensures Equals(a, b) ==> Equals(b, a)
    ensures Equals(a, b) && Equals(b, c) ==> Equals(a, c)
    ensures a.id != b.id ==> !Equals(a, b)
    ensures a.Task? && b.Task? ==> (Equals(a, b) <==> a.id == b.id)
  {
  }

  /** Task(name, description): a fresh id and status NEW. */
  method NewTask(counter: IdCounter, name: string, description: string) returns (t: Entity)
    modifies counter
    ensures t == Entity.Task(counter.total, name, description, NEW)
    ensures counter.total == Successor(old(counter.total))
    ensures old(counter.total) < INT_MAX ==> t.id > old(counter.total)
  {
    FreshIdsIncrease(counter.total);
    var id := counter.NextId();
    t := Entity.Task(id, name, description, NEW);
  }

  /** Task(name, description, status): a fresh id and the given status. */
  method NewTaskWithStatus(counter: IdCounter, name: string, description: string, status: Status) returns (t: Entity)
    modifies counter
    ensures t == Entity.Task(counter.total, name, description, status)
    ensures counter.total == Successor(old(counter.total))
    ensures old(counter.total) < INT_MAX ==> t.id > old(counter.total)
  {
    FreshIdsIncrease(counter.total);
    var id := counter.NextId();
    t := Entity.Task(id, name, description, status);
  }

  /**
   * Task(name, description, statusText): the id is drawn before
   * Status.valueOf runs, so a text that names no status fails with the
   * counter already advanced.
   */
  method NewTaskNamed(counter: IdCounter, name: string, description: string, status: string) returns (r: Result<Entity>)
    modifies counter
    ensures counter.total == Successor(old(counter.total))
    ensures r.Failure? <==> StatusValueOf(status).Failure?
    ensures r.Failure? ==> r.error == IllegalArgument
    ensures r.Success? ==> r.value == Entity.Task(counter.total, name, description, StatusValueOf(status).value)
  {
    var id := counter.NextId();
    var parsed := StatusValueOf(status);
    if parsed.Failure? {
      return Failure(IllegalArgument);
    }
    r := Success(Entity.Task(id, name, description, parsed.value));
  }

  /** setName: only the name changes; the class and the id stay. */
  function WithName(t: Entity, name: string): (r: Entity)
    ensures r.name == name && r.description == t.description && r.status == t.status
    ensures Equals(r, t) && r.(name := t.name) == t
  {
    t.(name := name)
  }

  /** setDescription: only the description changes. */
  function WithDescription(t: Entity, description: string): (r: Entity)
    ensures r.description == description && r.name == t.name && r.status == t.status
    ensures Equals(r, t) && r.(description := t.description) == t
  {
    t.(description := description)
  }

  /** setStatus(Status): only the status changes. */
  function WithStatus(t: Entity, status: Status): (r: Entity)
    ensures r.status == status && r.name == t.name && r.description == t.description
    ensures Equals(r, t) && r.(status := t.status) == t
  {
    t.(status := status)
  }

  /** setStatus(String): Status.valueOf of the text, IllegalArgumentException for an unknown name. */
  function WithStatusNamed(t: Entity, status: string): (r: Result<Entity>)
    ensures r.Failure? <==> StatusValueOf(status).Failure?
    ensures r.Success? ==> r.value == WithStatus(t, StatusValueOf(status).value)
  {
    match StatusValueOf(status)
    case Failure(_) => Failure(IllegalArgument)
    case Success(s) => Success(WithStatus(t, s))
  }
}
