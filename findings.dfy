/**
 * The registry operations whose prioritized-set and history bookkeeping the
 * source gets wrong, modelled as the code is written, each with the input
 * that shows the defect.  The rest of the model (module Registry) uses the
 * corrected behaviour, and module RegistryLaws proves what the corrected
 * operations keep.
 *
 * An exception in the middle of an operation leaves behind whatever the
 * operation had already changed, so the as-written operations that can throw
 * return the state at the throw together with the fault.
 */
module AsWritten {
  import opened Wrappers
  import opened Sets
  import opened Entities
  import opened Aggregation
  import opened Schedule
  import opened History
  import opened Registry
  import opened RegistryLaws
  import opened Snapshot
  import opened Loading
  import opened Reload

  /** The registry after an operation, and the exception it threw, if any. */
  datatype Outcome = Outcome(store: Store, fault: Option<Fault>)

  /**
   * TreeSet.remove(x) under the start-time comparator: the element with x's
   * start leaves, whichever entity it is; comparing an undated x with an
   * element throws, so an undated x fails on a non-empty set.
   */
  function TreeRemove(q: seq<Task>, x: Task): (r: Result<seq<Task>>)
    ensures r.Failure? <==> x.start.None? && q != []
    ensures r.Success? ==> forall y :: y in r.value <==> y in q && (x.start.None? || y.start != x.start)
    ensures r.Success? && Sorted(q) ==> Sorted(r.value)
  {
    if x.start.Some? then Success(RemoveByStart(q, x.start.value))
    else if q == [] then Success(q)
    else Failure(NullPointer)
  }

  // ----- updateSubtask -----

  /**
   * updateSubtask as written: the new version is stored, the epic it names is
   * recomputed (a missing epic is computeEpicFields(null)), then the new
   * version, not the old one, is removed from the prioritized set before it
   * is added.
   */
  ghost function UpdateSubtask(s: Store, subtask: Task): Outcome
    requires Linked(s) && Schedule.Valid(s.schedule) && subtask.Subtask?
  {
    if subtask.id !in s.subtasks || IsIntersectedTask(s.schedule, subtask) then Outcome(s, None)
    else
      var subs := s.subtasks[subtask.id := subtask];
      if subtask.epicId !in s.epics then Outcome(s.(subtasks := subs), Some(NullPointer))
      else
        var s1 := s.(subtasks := subs,
                     epics := s.epics[subtask.epicId := ComputeEpicFields(s.epics[subtask.epicId], subs)]);
        match TreeRemove(s.schedule, subtask)
        case Failure(e) => Outcome(s1, Some(e))
        case Success(q) => Outcome(s1.(schedule := Admit(q, subtask)), None)
  }

  /**
   * A dated subtask moved to another start keeps its old version in the
   * prioritized set next to the new one: the set no longer matches the
   * stored subtasks.
   */
  lemma StaleVersionStays(s: Store, subtask: Task)
    requires Inv(s) && subtask.Subtask? && subtask.id in s.subtasks
    requires subtask.epicId == s.subtasks[subtask.id].epicId
    requires !IsIntersectedTask(s.schedule, subtask)
    requires IsPrioritized(s.subtasks[subtask.id])
    requires subtask.start.Some? && subtask.start != s.subtasks[subtask.id].start
    ensures var r := UpdateSubtask(s, subtask);
      && r.fault == None
      && s.subtasks[subtask.id] in r.store.schedule
      && r.store.subtasks[subtask.id] == subtask
      && !Scheduled(r.store)
  {
    var previous := s.subtasks[subtask.id];
    assert previous in s.schedule;
    var r := UpdateSubtask(s, subtask);
    assert previous != r.store.subtasks[previous.id];
    assert !Stored(r.store, previous);
  }

  /**
   * A subtask given another epic's id is stored under the new epic, which
   * does not list it, while the old epic still does.
   */
  lemma EpicMoveUnlinks(s: Store, subtask: Task)
    requires Inv(s) && subtask.Subtask? && subtask.id in s.subtasks
    requires subtask.epicId in s.epics && subtask.epicId != s.subtasks[subtask.id].epicId
    requires !IsIntersectedTask(s.schedule, subtask)
    ensures var r := UpdateSubtask(s, subtask).store;
      && r.subtasks[subtask.id].epicId == subtask.epicId
      && subtask.id !in r.epics[subtask.epicId].subtaskIds
      && subtask.id in r.epics[s.subtasks[subtask.id].epicId].subtaskIds
      && !Linked(r)
  {
    var previous := s.subtasks[subtask.id].epicId;
    assert subtask.id in s.epics[previous].subtaskIds;
    assert subtask.id !in s.epics[subtask.epicId].subtaskIds;
  }

  /**
   * A version naming an epic the registry does not hold is stored, and then
   * computeEpicFields(null) throws before the prioritized set is touched;
   * the corrected operation refuses the version and changes nothing.
   */
  lemma UnknownEpicThrows(s: Store, subtask: Task)
    requires Inv(s) && subtask.Subtask? && subtask.id in s.subtasks
    requires subtask.epicId !in s.epics && !IsIntersectedTask(s.schedule, subtask)
    ensures UpdateSubtask(s, subtask) == Outcome(s.(subtasks := s.subtasks[subtask.id := subtask]), Some(NullPointer))
    ensures Registry.UpdateSubtask(s, subtask) == s
  {
    assert s.subtasks[subtask.id].epicId in s.epics;
  }

  // ----- removeSubtask -----

  /**
   * removeSubtask as written: for a stored id, the epic drops it and is
   * recomputed, a subtask with a start is removed from the prioritized set
   * by that start, whether or not it was ever admitted there, and the
   * subtask leaves the map and the history.
   */
  ghost function RemoveSubtask(s: Store, id: int): Store
    requires Linked(s)
  {
    if id !in s.subtasks then s
    else
      var subtask := s.subtasks[id];
      var epic := RemoveSubtaskId(s.epics[subtask.epicId], id);
      var q := if subtask.start.Some? then RemoveByStart(s.schedule, subtask.start.value) else s.schedule;
      s.(epics := s.epics[subtask.epicId := ComputeEpicFields(epic, s.subtasks)],
         schedule := q,
         subtasks := s.subtasks - {id},
         history := Without(s.history, id))
  }

  /**
   * Removing a subtask that has a start but no duration (never admitted to
   * the prioritized set) evicts the other entity with that start, which
   * stays stored.
   */
  lemma SameStartSubtaskEvicts(s: Store, id: int, other: Task)
    requires Inv(s) && id in s.subtasks && s.subtasks[id].start.Some? && !IsPrioritized(s.subtasks[id])
    requires other in s.schedule && other.start == s.subtasks[id].start
    ensures var r := RemoveSubtask(s, id);
      other !in r.schedule && Stored(r, other) && !Scheduled(r)
  {
    var r := RemoveSubtask(s, id);
    assert Stored(s, other) && IsPrioritized(other);
    assert other != s.subtasks[id];
    assert Stored(r, other);
  }

  /** An epic with no subtasks. */
  const Holder := Epic(3, "C", "", NEW, None, None, {}, None)
  /** A subtask of Holder starting at 9:00 without a duration. */
  const StartOnlySubtask := Subtask(4, "D", "", NEW, Some(540), None, 3)

  /**
   * The input: addTask(Dated), addEpic(Holder), addSubtask(StartOnlySubtask)
   * (not admitted, having no end), removeSubtask(4).  Dated stays stored but
   * leaves the prioritized set.
   */
  lemma SubtaskEvictionWitness()
    ensures var s := AddSubtask(AddEpic(AddTask(Empty, Dated).0, Holder).0, StartOnlySubtask).0;
      && Inv(s) && s.tasks == map[1 := Dated] && s.subtasks == map[4 := StartOnlySubtask]
      && s.schedule == [Dated]
      && RemoveSubtask(s, 4).schedule == []
      && Registry.RemoveSubtask(s, 4).schedule == [Dated]
  {
    EmptyInv();
    var s1 := AddTask(Empty, Dated).0;
    AddTaskKeepsInv(Empty, Dated);
    assert s1.schedule == [Dated];
    AddEpicKeepsInv(s1, Holder);
    var s2 := AddEpic(s1, Holder).0;
    assert s2.schedule == [Dated] && s2.tasks == map[1 := Dated] && s2.subtasks == map[];
    AddSubtaskKeepsInv(s2, StartOnlySubtask);
    var s := AddSubtask(s2, StartOnlySubtask).0;
    assert s.schedule == [Dated];
    SameStartSubtaskEvicts(s, 4, Dated);
    assert Registry.RemoveSubtask(s, 4).schedule == Evict([Dated], StartOnlySubtask);
    assert Dated in Evict([Dated], StartOnlySubtask);
  }

  // ----- removeTask -----

  /**
   * removeTask as written: an unknown id dereferences null; a task with a
   * start is removed from the prioritized set by its start, whether or not
   * it was ever admitted there.
   */
  function RemoveTask(s: Store, id: int): Result<Store> {
    if id !in s.tasks then Failure(NullPointer)
    else
      var task := s.tasks[id];
      var q := if task.start.Some? then RemoveByStart(s.schedule, task.start.value) else s.schedule;
      Success(s.(schedule := q, tasks := s.tasks - {id}, history := Without(s.history, id)))
  }

  /**
   * Removing a task that has a start but no duration (never admitted to the
   * prioritized set) evicts the other entity with that start, which stays
   * stored.
   */
  lemma SameStartEvicted(s: Store, id: int, other: Task)
    requires Inv(s) && id in s.tasks && s.tasks[id].start.Some? && !IsPrioritized(s.tasks[id])
    requires other in s.schedule && other.start == s.tasks[id].start
    ensures RemoveTask(s, id).Success?
    ensures var r := RemoveTask(s, id).value;
      other !in r.schedule && Stored(r, other) && !Scheduled(r)
  {
    var r := RemoveTask(s, id).value;
    assert Stored(s, other) && IsPrioritized(other);
    assert other != s.tasks[id];
    assert Stored(r, other);
  }

  /** A task with a 30-minute window at 9:00. */
  const Dated := Task(1, "A", "", NEW, Some(540), Some(30))
  /** A task starting at 9:00 without a duration. */
  const StartOnly := Task(2, "B", "", NEW, Some(540), None)

  /**
   * The input: addTask(Dated), addTask(StartOnly) (admitted, having no end),
   * removeTask(2).  Dated stays stored but leaves the prioritized set.
   */
  lemma EvictionWitness()
    ensures var s := AddTask(AddTask(Empty, Dated).0, StartOnly).0;
      && Inv(s) && s.tasks == map[1 := Dated, 2 := StartOnly] && s.schedule == [Dated]
      && RemoveTask(s, 2).Success? && RemoveTask(s, 2).value.schedule == []
      && Registry.RemoveTask(s, 2).Success? && Registry.RemoveTask(s, 2).value.schedule == [Dated]
  {
    EmptyInv();
    var s1 := AddTask(Empty, Dated).0;
    AddTaskKeepsInv(Empty, Dated);
    assert s1.schedule == [Dated];
    AddTaskKeepsInv(s1, StartOnly);
    var s := AddTask(s1, StartOnly).0;
    assert s.schedule == [Dated];
    SameStartEvicted(s, 2, Dated);
    assert Registry.RemoveTask(s, 2).value.schedule == Evict([Dated], StartOnly);
    assert Dated in Evict([Dated], StartOnly);
  }

  // ----- updateTask -----

  /**
   * updateTask as written: for a stored id and no clash, the old version,
   * if it has a start, is removed from the prioritized set by that start,
   * whether or not it was ever admitted there; then the new version is
   * stored and admitted.
   */
  function UpdateTask(s: Store, task: Task): Store
    requires Schedule.Valid(s.schedule)
  {
    if task.id !in s.tasks || IsIntersectedTask(s.schedule, task) then s
    else
      var previous := s.tasks[task.id];
      var q := if previous.start.Some? then RemoveByStart(s.schedule, previous.start.value) else s.schedule;
      s.(tasks := s.tasks[task.id := task], schedule := Admit(q, task))
  }

  /**
   * Updating a task whose old version has a start but no duration (never
   * admitted) to a version without a window evicts the other entity with
   * the old start, which stays stored.
   */
  lemma OldStartEvicted(s: Store, task: Task, other: Task)
    requires Inv(s) && task.Task? && task.id in s.tasks && !IsPrioritized(task)
    requires s.tasks[task.id].start.Some? && !IsPrioritized(s.tasks[task.id])
    requires other in s.schedule && other.start == s.tasks[task.id].start
    ensures var r := UpdateTask(s, task);
      other !in r.schedule && Stored(r, other) && !Scheduled(r)
  {
    var r := UpdateTask(s, task);
    assert Stored(s, other) && IsPrioritized(other);
    assert other != s.tasks[task.id];
    assert Stored(r, other);
  }

  /** StartOnly's next version, without a window. */
  const Undated := Task(2, "B", "", NEW, None, None)

  /**
   * The input: addTask(Dated), addTask(StartOnly), updateTask(Undated).
   * Dated stays stored but leaves the prioritized set.
   */
  lemma UpdateEvictionWitness()
    ensures var s := AddTask(AddTask(Empty, Dated).0, StartOnly).0;
      && Inv(s) && s.schedule == [Dated]
      && UpdateTask(s, Undated).schedule == []
      && Registry.UpdateTask(s, Undated).schedule == [Dated]
  {
    EmptyInv();
    var s1 := AddTask(Empty, Dated).0;
    AddTaskKeepsInv(Empty, Dated);
    assert s1.schedule == [Dated];
    AddTaskKeepsInv(s1, StartOnly);
    var s := AddTask(s1, StartOnly).0;
    assert s.schedule == [Dated];
    OldStartEvicted(s, Undated, Dated);
    assert Registry.UpdateTask(s, Undated).schedule == Evict([Dated], StartOnly);
    assert Dated in Evict([Dated], StartOnly);
  }

  // ----- clearEpicSubtasks -----

  /**
   * The forEach of clearEpicSubtasks over the epic's ids in `order`: each
   * subtask is removed from the prioritized set (by start, throwing when it
   * is undated and the set is not empty), from the map and from the history.
   */
  function RemoveEach(s: Store, order: seq<int>): Outcome
    decreases |order|
  {
    if order == [] then Outcome(s, None)
    else
      var sid := order[0];
      var removed := if sid in s.subtasks then TreeRemove(s.schedule, s.subtasks[sid]) else Success(s.schedule);
      match removed
      case Failure(e) => Outcome(s, Some(e))
      case Success(q) =>
        RemoveEach(s.(schedule := q, subtasks := s.subtasks - {sid}, history := Without(s.history, sid)), order[1..])
  }

  /** clearEpicSubtasks as written, with `order` the iteration order of the epic's subtask set. */
  function ClearEpicSubtasks(s: Store, id: int, order: seq<int>): Outcome
    requires Kinds(s)
  {
    if id !in s.epics then Outcome(s, None)
    else
      var c := RemoveEach(s, order);
      if c.fault.Some? then c
      else Outcome(c.store.(epics := c.store.epics[id := ClearSubtaskIds(s.epics[id]).(status := NEW)]), None)
  }

  /**
   * An epic whose first subtask in iteration order is undated cannot be
   * cleared while anything is scheduled: the removal throws before any
   * subtask leaves.
   */
  lemma UndatedSubtaskThrows(s: Store, id: int, order: seq<int>)
    requires Inv(s) && id in s.epics && |order| > 0 && order[0] in s.epics[id].subtaskIds
    requires s.subtasks[order[0]].start.None? && s.schedule != []
    ensures ClearEpicSubtasks(s, id, order) == Outcome(s, Some(NullPointer))
    ensures Registry.ClearEpicSubtasks(s, id).subtasks.Keys == s.subtasks.Keys - s.epics[id].subtaskIds
  {
    ClearOwnedKeepsInv(s, {id});
    assert forall sid :: sid in Owned(s, {id}) <==> sid in s.epics[id].subtaskIds;
  }

  // ----- clearTasks -----

  /** TreeSet.add of every candidate that has a start, in stream order (reloadPrioritizedTasks). */
  function Rebuilt(candidates: seq<Task>): (r: seq<Task>)
    ensures Sorted(r)
    ensures forall x | x in r :: x in candidates && x.start.Some?
    decreases |candidates|
  {
    if candidates == [] then []
    else
      var last := candidates[|candidates| - 1];
      var q := Rebuilt(candidates[..|candidates| - 1]);
      if last.start.Some? then Insert(q, last) else q
  }

  /**
   * clearTasks as written: the tasks map is emptied, the prioritized set is
   * rebuilt from the subtasks (visited in `order`) filtered on the start
   * only, and the history is left as it was.
   */
  function ClearTasks(s: Store, order: seq<int>): Store
    requires forall k | 0 <= k < |order| :: order[k] in s.subtasks
  {
    s.(tasks := map[], schedule := Rebuilt(seq(|order|, k requires 0 <= k < |order| => s.subtasks[order[k]])))
  }

  /**
   * A registry whose only subtask has a start and no duration puts that
   * subtask into the prioritized set when the tasks are cleared; the next
   * dated candidate's clash test reads its missing end.
   */
  lemma StartOnlyScheduled(s: Store, sid: int)
    requires Inv(s) && s.subtasks.Keys == {sid}
    requires s.subtasks[sid].start.Some? && s.subtasks[sid].duration.None?
    ensures ClearTasks(s, [sid]).schedule == [s.subtasks[sid]]
    ensures !AllPrioritized(ClearTasks(s, [sid]).schedule)
    ensures forall x | x in Registry.ClearTasks(s).schedule :: IsPrioritized(x)
  {
    var x := s.subtasks[sid];
    assert seq(1, k requires 0 <= k < 1 => s.subtasks[[sid][k]]) == [x];
    assert Rebuilt([x]) == Insert([], x);
    ClearTasksKeepsInv(s);
  }

  /**
   * A task read through getTask and then cleared stays in the history, so
   * the file save writes next names an id no row carries, and loading that
   * file fails with add(null).
   */
  lemma ClearedTaskBreaksReload(s: Store, eo: seq<int>, so: seq<int>, total: Int32)
    requires Inv(s) && Enumerates(eo, s.epics) && Enumerates(so, s.subtasks)
    requires Carried(s.epics, EPIC) && Carried(s.subtasks, SUBTASK)
    requires exists t :: t in s.history && t.id in s.tasks
    ensures Inv(Empty)
    ensures Load(Empty, total, SaveLines(ClearTasks(s, so), eo, so, [])) == Failure(NullPointer)
  {
    var kept := Registry.ClearTasks(s).(history := s.history);
    ClearTasksKeepsInv(s);
    assert Inv(kept);
    assert SaveLines(ClearTasks(s, so), eo, so, []) == SaveLines(kept, eo, so, []);
    var t :| t in s.history && t.id in s.tasks;
    assert !Contains(kept, t.id);
    SaveThenLoad(kept, eo, so, [], total);
  }

  // ----- clearEpics -----

  /**
   * clearEpics as written: the epics and subtasks maps are emptied, the
   * prioritized set is rebuilt from the tasks (visited in `order`) filtered
   * on the start only, and the history is left as it was.
   */
  function ClearEpics(s: Store, order: seq<int>): Store
    requires forall k | 0 <= k < |order| :: order[k] in s.tasks
  {
    s.(epics := map[], subtasks := map[],
       schedule := Rebuilt(seq(|order|, k requires 0 <= k < |order| => s.tasks[order[k]])))
  }

  /**
   * An epic or subtask read through a get and then cleared by clearEpics
   * stays in the history, so the file save writes next names an id no row
   * carries, and loading that file fails with add(null).
   */
  lemma ClearedEpicBreaksReload(s: Store, to: seq<int>, total: Int32)
    requires Inv(s) && Enumerates(to, s.tasks) && Carried(s.tasks, TASK)
    requires exists t :: t in s.history && (t.id in s.epics || t.id in s.subtasks)
    ensures Inv(Empty)
    ensures Load(Empty, total, SaveLines(ClearEpics(s, to), [], [], to)) == Failure(NullPointer)
  {
    var kept := Registry.ClearEpics(s).(history := s.history);
    HistoryKeptInv(s);
    assert SaveLines(ClearEpics(s, to), [], [], to) == SaveLines(kept, [], [], to);
    var t :| t in s.history && (t.id in s.epics || t.id in s.subtasks);
    assert !Contains(kept, t.id);
    SaveThenLoad(kept, [], [], to, total);
  }

  /** clearEpics with the history left as it was still keeps the rest of the invariant. */
  lemma HistoryKeptInv(s: Store)
    requires Inv(s)
    ensures Inv(Registry.ClearEpics(s).(history := s.history))
  {
    ClearEpicsKeepsInv(s);
  }
}
