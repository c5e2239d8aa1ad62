/**
 * The entity model of the tracker (package `tasks`): Task, and its two
 * subclasses Epic and Subtask, with the process-wide id counter that every
 * constructor consults.
 *
 * Entities are values here.  The Java objects are shared and mutable (a
 * registry stores the caller's object), so a change a caller makes to an
 * object after handing it over is not reflected; every change the registry
 * itself makes is modelled as replacing the stored value.
 */
module Entities {
  import opened Wrappers
  import opened Decimal

  /** A Java `int`. */
  type Int32 = x: int | IsInt32(x)

  datatype Status = NEW | IN_PROGRESS | DONE

  /** The runtime class of an entity object (also the `Type` written to a snapshot). */
  datatype Kind = TASK | EPIC | SUBTASK

  /**
   * An entity object; the constructor is its runtime class.  Times and
   * durations are whole minutes: `start` stands for the LocalDateTime start
   * time and `duration` for the Duration, both nullable.  An Epic keeps the
   * ids of its subtasks and a stored end time; a Subtask keeps its epic's id.
   */
  datatype Task =
    | Task(id: Int32, name: string, description: string, status: Status,
           start: Option<int>, duration: Option<int>)
    | Epic(id: Int32, name: string, description: string, status: Status,
           start: Option<int>, duration: Option<int>,
           subtaskIds: set<int>, endTime: Option<int>)
    | Subtask(id: Int32, name: string, description: string, status: Status,
              start: Option<int>, duration: Option<int>, epicId: Int32)

  function KindOf(t: Task): Kind {
    match t
    case Task(_, _, _, _, _, _) => TASK
    case Epic(_, _, _, _, _, _, _, _) => EPIC
    case Subtask(_, _, _, _, _, _, _) => SUBTASK
  }

  /**
   * getEndTime: start + duration, or null when either is missing; an Epic
   * overrides it to return its stored end time instead.
   */
  function EndTime(t: Task): Option<int> {
    if t.Epic? then t.endTime
    else if t.start.Some? && t.duration.Some? then Some(t.start.value + t.duration.value)
    else None
  }

  /** isPrioritized: the entity has both a start and an end. */
  predicate IsPrioritized(t: Task) {
    t.start.Some? && EndTime(t).Some?
  }

  /** equals: same runtime class and same id, whatever the other fields hold. */
  predicate Equals(a: Task, b: Task) {
    KindOf(a) == KindOf(b) && a.id == b.id
  }

  /** End time and schedulability, as Task and Epic define them. */
  lemma EndTimeRules(t: Task)
    ensures !t.Epic? ==> (EndTime(t).Some? <==> t.start.Some? && t.duration.Some?)
    ensures !t.Epic? && EndTime(t).Some? ==> EndTime(t).value == t.start.value + t.duration.value
    ensures t.Epic? ==> EndTime(t) == t.endTime
    ensures !t.Epic? ==> (IsPrioritized(t) <==> t.start.Some? && t.duration.Some?)
  {
  }

  /** equals is an equivalence that looks at the class and the id only. */
  lemma EqualsIsIdentity(a: Task, b: Task, c: Task)
    ensures Equals(a, a)
    ensures Equals(a, b) ==> Equals(b, a)
    ensures Equals(a, b) && Equals(b, c) ==> Equals(a, c)
    ensures Equals(a, b) ==> a.id == b.id
    ensures Equals(a, a.(name := b.name, description := b.description, status := b.status))
    ensures a.Task? && b.Subtask? ==> !Equals(a, b)
  {
  }

  // ----- Epic: the set of subtask ids (a HashSet mutated in place) -----

  /** Epic.addSubtask(id). */
  function AddSubtaskId(e: Task, id: int): Task
    requires e.Epic?
  {
    e.(subtaskIds := e.subtaskIds + {id})
  }

  /** Epic.removeSubtask(id). */
  function RemoveSubtaskId(e: Task, id: int): Task
    requires e.Epic?
  {
    e.(subtaskIds := e.subtaskIds - {id})
  }

  /** Epic.clearSubtasks(). */
  function ClearSubtaskIds(e: Task): Task
    requires e.Epic?
  {
    e.(subtaskIds := {})
  }

  /** The three operations have plain set semantics and touch nothing else. */
  lemma SubtaskIdSetLaws(e: Task, id: int)
    requires e.Epic?
    ensures AddSubtaskId(AddSubtaskId(e, id), id) == AddSubtaskId(e, id)
    ensures id in e.subtaskIds ==> AddSubtaskId(e, id) == e
    ensures id !in e.subtaskIds ==> RemoveSubtaskId(e, id) == e
    ensures RemoveSubtaskId(AddSubtaskId(e, id), id) == RemoveSubtaskId(e, id)
    ensures ClearSubtaskIds(e).subtaskIds == {}
    ensures Equals(AddSubtaskId(e, id), e) && Equals(RemoveSubtaskId(e, id), e)
  {
  }

  // ----- the process-wide id counter -----

  /** ++totalTasksCount on a Java int: the value after INT_MAX is INT_MIN. */
  function Successor(x: Int32): Int32 {
    assert IsInt32(x);
    if x < INT_MAX then x + 1 else INT_MIN
  }

  /**
   * Task.totalTasksCount, the static counter behind getNextId and setNextId.
   * Its value is the last id handed out or observed.
   */
  class IdCounter {
    var total: Int32

    constructor ()
      ensures total == 0
    {
      total := 0;
    }

    /** getNextId: pre-increment and return. */
    method NextId() returns (id: Int32)
      modifies this
      ensures id == Successor(old(total)) && total == id
    {
      total := Successor(total);
      id := total;
    }

    /** What the explicit-id constructors do: `if (id > totalTasksCount) setNextId(id)`. */
    method Observe(id: Int32)
      modifies this
      ensures total == if id > old(total) then id else old(total)
      ensures total >= id && total >= old(total)
    {
      if id > total {
        total := id;
      }
    }
  }

  /**
   * Once the counter has observed an explicit id, the next fresh id is
   * larger, unless the counter sits at INT_MAX and wraps.
   */
  lemma FreshIdAfterObserve(total: Int32, id: Int32)
    requires (if id > total then id else total) < INT_MAX
    ensures Successor(if id > total then id else total) > id
    ensures Successor(if id > total then id else total) > total
  {
  }

  /** Two ids drawn one after the other increase, unless the first is INT_MAX. */
  lemma FreshIdsIncrease(total: Int32)
    ensures total < INT_MAX ==> Successor(total) > total
    ensures total == INT_MAX ==> Successor(total) == INT_MIN
  {
  }

  // ----- constructors -----

  /** new Task(name, description, status); the two-argument form passes NEW. */
  method NewTask(counter: IdCounter, name: string, description: string, status: Status)
    returns (t: Task)
    modifies counter
    ensures counter.total == Successor(old(counter.total))
    ensures t == Task(counter.total, name, description, status, None, None)
  {
    var id := counter.NextId();
    t := Task(id, name, description, status, None, None);
  }

  /**
   * new Task(id, name, description, status, start, duration), also used by
   * Task(id, name, description) with status NEW and no time window.
   */
  method TaskWithId(counter: IdCounter, id: Int32, name: string, description: string,
                    status: Status, start: Option<int>, duration: Option<int>)
    returns (t: Task)
    modifies counter
    ensures counter.total == if id > old(counter.total) then id else old(counter.total)
    ensures t == Task(id, name, description, status, start, duration)
  {
    t := Task(id, name, description, status, start, duration);
    counter.Observe(id);
  }

  /** new Epic(name, description): a fresh id, status NEW, no subtasks, no time window. */
  method NewEpic(counter: IdCounter, name: string, description: string) returns (e: Task)
    modifies counter
    ensures counter.total == Successor(old(counter.total))
    ensures e == Epic(counter.total, name, description, NEW, None, None, {}, None)
  {
    var id := counter.NextId();
    e := Epic(id, name, description, NEW, None, None, {}, None);
  }

  /** new Epic(id, name, description): the explicit id advances the counter. */
  method EpicWithId(counter: IdCounter, id: Int32, name: string, description: string)
    returns (e: Task)
    modifies counter
    ensures counter.total == if id > old(counter.total) then id else old(counter.total)
    ensures e == Epic(id, name, description, NEW, None, None, {}, None)
  {
    e := Epic(id, name, description, NEW, None, None, {}, None);
    counter.Observe(id);
  }

  /**
   * new Subtask(name, description, status, start, duration, epicId): a fresh
   * id.  These constructors call a Task constructor with exactly those five
   * arguments, which src/tasks/Task.java does not declare; the model supplies
   * it as the fresh-id constructor that keeps the given fields.
   */
  method NewSubtask(counter: IdCounter, name: string, description: string, status: Status,
                    start: Option<int>, duration: Option<int>, epicId: Int32)
    returns (s: Task)
    modifies counter
    ensures counter.total == Successor(old(counter.total))
    ensures s == Subtask(counter.total, name, description, status, start, duration, epicId)
  {
    var id := counter.NextId();
    s := Subtask(id, name, description, status, start, duration, epicId);
  }

  /** Epic.cloneWithNextId: the name and description under a fresh id, nothing else. */
  method CloneEpicWithNextId(counter: IdCounter, epic: Task) returns (e: Task)
    requires epic.Epic?
    modifies counter
    ensures e.Epic? && e.id == counter.total && counter.total == Successor(old(counter.total))
    ensures e.name == epic.name && e.description == epic.description
    ensures e.status == NEW && e.subtaskIds == {} && e.start.None? && e.duration.None? && e.endTime.None?
  {
    e := NewEpic(counter, epic.name, epic.description);
  }

  /** Subtask.cloneWithNextId: every field but the id is copied, the id is fresh. */
  method CloneSubtaskWithNextId(counter: IdCounter, subtask: Task) returns (s: Task)
    requires subtask.Subtask?
    modifies counter
    ensures s.Subtask? && s.id == counter.total && counter.total == Successor(old(counter.total))
    ensures s == subtask.(id := s.id)
  {
    s := NewSubtask(counter, subtask.name, subtask.description, subtask.status,
                    subtask.start, subtask.duration, subtask.epicId);
  }
}
