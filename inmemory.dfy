/**
 * The in-memory task manager (InMemoryTaskManager of package `services`) as
 * the object it is: three maps and a prioritized set that its methods update
 * in place, and a history manager it forwards views and removals to.
 *
 * Each method is proved against the value-level operation of module Registry:
 * `Model()` reads the fields as a Store, and every method leaves `Model()`
 * equal to that operation applied to the Store it started from.  What the
 * operations promise (the invariant, the cascades, the refusals) is proved
 * about the Store functions in module RegistryLaws.
 */
module Manager {
  import opened Wrappers
  import opened Entities
  import opened Aggregation
  import opened Schedule
  import opened History
  import opened Registry
  import opened RegistryLaws
  import opened Sets

  /** A getter's outcome agrees with the value-level operation: the same entity and new state, or the same fault and no change. */
  ghost predicate Answers(spec: Result<(Store, Task)>, r: Result<Task>, before: Store, after: Store) {
    match spec
    case Success(p) => r == Success(p.1) && after == p.0
    case Failure(e) => r == Failure(e) && after == before
  }

  class InMemoryTaskManager {
    var tasks: map<int, Task>
    var epics: map<int, Task>
    var subtasks: map<int, Task>
    var prioritizedTasks: seq<Task>
    const historyManager: HistoryManager
    /**
     * The ids whose history entry is the Epic object this manager stores, not
     * merely an object with that id: getEpic records the stored object, so its
     * later changes in place show in getHistory.
     */
    var liveEpics: set<int>

    /** The manager's state as a value. */
    ghost function Model(): Store
      reads this, historyManager
    {
      Store(tasks, epics, subtasks, prioritizedTasks, historyManager.Contents())
    }

    ghost predicate Valid()
      reads this, historyManager, historyManager.nodes
    {
      historyManager.Valid() && Inv(Model())
    }

    /** A new manager: nothing stored or scheduled, the given history kept. */
    constructor (h: HistoryManager)
      requires h.Valid()
      ensures Valid() && historyManager == h && liveEpics == {}
      ensures Model() == Store(map[], map[], map[], [], h.Contents())
    {
      tasks := map[];
      epics := map[];
      subtasks := map[];
      prioritizedTasks := [];
      historyManager := h;
      liveEpics := {};
      new;
      h.Linkage();
    }

    /** isTaskContains */
    predicate IsTaskContains(task: Task)
      reads this
    {
      task.id in tasks || task.id in epics || task.id in subtasks
    }

    /** isIntersectedTask, on the current prioritized set. */
    predicate IsIntersectedTask(task: Task)
      reads this
      requires AllPrioritized(prioritizedTasks)
    {
      Schedule.IsIntersectedTask(prioritizedTasks, task)
    }

    /**
     * computeEpicFields: one pass over the epic's subtasks collecting their
     * statuses, the starts and ends of the dated ones and the sum of their
     * durations; the epic with the fields derived from them is returned.
     */
    method ComputeEpicFields(epic: Task) returns (r: Task)
      requires epic.Epic? && epic.subtaskIds <= subtasks.Keys
      requires forall id | id in epic.subtaskIds :: subtasks[id].Subtask?
      ensures r == Aggregation.ComputeEpicFields(epic, subtasks)
    {
      var ids := epic.subtaskIds;
      var statuses, dates, total := CollectSubtasks(ids);
      var status := EpicStatus(statuses);
      if dates != {} {
        assert Least(dates) in dates && Greatest(dates) in dates;
        var first :| first in dates && forall y | y in dates :: first <= y;
        var last :| last in dates && forall y | y in dates :: y <= last;
        Extremes(dates, first, last);
        r := Epic(epic.id, epic.name, epic.description, status, Some(first), Some(total), ids, Some(last));
      } else {
        r := Epic(epic.id, epic.name, epic.description, status, epic.start, epic.duration, ids, epic.endTime);
      }
    }

    /** The loop of computeEpicFields: the statuses, the dates of the dated subtasks and the sum of their durations. */
    method CollectSubtasks(ids: set<int>) returns (statuses: set<Status>, dates: set<int>, total: int)
      requires ids <= subtasks.Keys && forall id | id in ids :: subtasks[id].Subtask?
      ensures statuses == StatusesOf(ids, subtasks)
      ensures dates == Dates(ids, subtasks)
      ensures dates == {} <==> DatedOf(ids, subtasks) == {}
      ensures total == TotalDuration(ids, subtasks)
    {
      statuses, dates, total := {}, {}, 0;
      var rest := ids;
      while rest != {}
        invariant rest <= ids
        invariant statuses == StatusesOf(ids - rest, subtasks)
        invariant dates == Dates(ids - rest, subtasks)
        invariant total == TotalDuration(ids - rest, subtasks)
        decreases |rest|
      {
        var id := Choose(rest);
        VisitNext(ids, rest, subtasks, id);
        statuses, dates, total := Visit(subtasks[id], statuses, dates, total);
        rest := rest - {id};
      }
      assert ids - rest == ids;
      DatesOfDated(ids, subtasks);
    }

    /** The body of the loop of computeEpicFields for one subtask. */
    static method Visit(subtask: Task, statuses: set<Status>, dates: set<int>, total: int)
      returns (statuses': set<Status>, dates': set<int>, total': int)
      requires subtask.Subtask?
      ensures statuses' == statuses + {subtask.status}
      ensures dates' == dates + (if IsPrioritized(subtask) then {subtask.start.value, EndTime(subtask).value} else {})
      ensures total' == total + Contribution(subtask)
    {
      statuses' := statuses + {subtask.status};
      dates', total' := dates, total;
      var startTime := subtask.start;
      var endTime := EndTime(subtask);
      if startTime.Some? && endTime.Some? {
        EndTimeRules(subtask);
        dates' := dates + {startTime.value, endTime.value};
        total' := total + subtask.duration.value;
      }
    }

    /** addPrioritizedTask: only an entity with a start and an end enters the set. */
    method AddPrioritizedTask(task: Task)
      requires Sorted(prioritizedTasks)
      modifies this
      ensures liveEpics == old(liveEpics)
      ensures prioritizedTasks == Admit(old(prioritizedTasks), task)
      ensures tasks == old(tasks) && epics == old(epics) && subtasks == old(subtasks)
    {
      if task.start.Some? && EndTime(task).Some? {
        prioritizedTasks := Insert(prioritizedTasks, task);
      }
    }

    // ----- epics -----

    method GetEpics() returns (r: map<int, Task>)
      ensures r == epics
    {
      r := epics;
    }

    method AddEpic(epic: Task) returns (id: int)
      requires Valid() && epic.Epic? && epic.subtaskIds == {}
      modifies this
      ensures liveEpics == old(liveEpics)
      ensures (Model(), id) == Registry.AddEpic(old(Model()), epic)
      ensures Valid()
    {
      AddEpicKeepsInv(Model(), epic);
      if IsTaskContains(epic) {
        return -1;
      }
      epics := epics[epic.id := epic];
      id := epic.id;
    }

    method GetEpic(id: int) returns (r: Result<Task>)
      requires Valid()
      modifies this, historyManager, historyManager.nodes
      ensures Answers(Registry.GetEpic(old(Model()), id), r, old(Model()), Model())
      ensures liveEpics == if r.Success? then old(liveEpics) + {id} else old(liveEpics)
      ensures Valid()
    {
      GetKeepsInv(Model(), id);
      if id !in epics {
        return Failure(NullPointer);
      }
      var epic := epics[id];
      historyManager.Add(epic);
      liveEpics := liveEpics + {id};
      r := Success(epic);
    }

    method UpdateEpic(epic: Task)
      requires Valid() && epic.Epic?
      modifies this
      ensures liveEpics == old(liveEpics)
      ensures Model() == Registry.UpdateEpic(old(Model()), epic)
      ensures Valid()
    {
      UpdateEpicKeepsInv(Model(), epic);
      var id := epic.id;
      if id in epics {
        var target := epics[id];
        epics := epics[id := Epic(id, epic.name, epic.description, target.status, target.start, target.duration,
                                  target.subtaskIds, target.endTime)];
      }
    }

    method RemoveEpic(id: int)
      requires Valid()
      modifies this, historyManager, historyManager.nodes
      ensures liveEpics == old(liveEpics)
      ensures Model() == Registry.RemoveEpic(old(Model()), id)
      ensures Valid()
    {
      RemoveEpicKeepsInv(Model(), id);
      ClearEpicSubtasks(id);
      ForgetEpic(id);
    }

    /** removeEpic after its subtasks are cleared: the epic leaves the map and its id the history. */
    method ForgetEpic(id: int)
      requires historyManager.Valid()
      modifies this, historyManager, historyManager.nodes
      ensures liveEpics == old(liveEpics)
      ensures historyManager.Valid() && historyManager.Contents() == Without(old(historyManager.Contents()), id)
      ensures epics == old(epics) - {id}
      ensures tasks == old(tasks) && subtasks == old(subtasks) && prioritizedTasks == old(prioritizedTasks)
    {
      epics := epics - {id};
      historyManager.Remove(id);
    }

    method ClearEpics()
      requires Valid()
      modifies this, historyManager, historyManager.nodes
      ensures liveEpics == old(liveEpics)
      ensures Model() == Registry.ClearEpics(old(Model()))
      ensures Valid()
    {
      ghost var s := Model();
      ClearEpicsKeepsInv(s);
      ForgetAll(epics.Keys + subtasks.Keys);
      DropEpics();
    }

    /** clearEpics on the maps and the prioritized set: no epics or subtasks, and the set rebuilt from the tasks. */
    method DropEpics()
      requires forall id | id in tasks :: tasks[id].Task? && tasks[id].id == id
      requires Schedule.Valid(prioritizedTasks)
      requires forall x :: x in prioritizedTasks <==>
        IsPrioritized(x) && (x.Task? ==> x.id in tasks && tasks[x.id] == x)
                         && (x.Subtask? ==> x.id in subtasks && subtasks[x.id] == x) && !x.Epic?
      modifies this
      ensures liveEpics == old(liveEpics)
      ensures epics == map[] && subtasks == map[] && tasks == old(tasks)
      ensures prioritizedTasks == Filter(old(prioritizedTasks), (x: Task) => x.Task?)
    {
      ghost var q := prioritizedTasks;
      FilterKeepsValid(q, (x: Task) => x.Task?);
      epics := map[];
      subtasks := map[];
      ReloadPrioritizedTasks();
      SortedUnique(prioritizedTasks, Filter(q, (x: Task) => x.Task?));
    }

    /** The given ids leave the history one at a time, as a series of remove calls. */
    method ForgetAll(ids: set<int>)
      requires historyManager.Valid()
      modifies historyManager, historyManager.nodes
      ensures historyManager.Valid()
      ensures historyManager.Contents() == WithoutAll(old(historyManager.Contents()), ids)
    {
      ghost var h := historyManager.Contents();
      ghost var done: set<int> := {};
      var rest := ids;
      WithoutAllStep(h, {}, 0);
      while rest != {}
        invariant done + rest == ids
        invariant historyManager.Valid()
        invariant forall n | n in historyManager.nodes :: n in old(historyManager.nodes)
        invariant historyManager.Contents() == WithoutAll(h, done)
        decreases |rest|
      {
        var id := Choose(rest);
        historyManager.Remove(id);
        WithoutAllStep(h, done, id);
        done := done + {id};
        rest := rest - {id};
      }
      assert done == ids;
    }

    /** getEpicSubtasks: the epic's subtasks by id, or an empty map for an unknown epic. */
    method GetEpicSubtasks(epicId: int) returns (r: map<int, Task>)
      requires Valid()
      ensures forall id :: id in r <==> epicId in epics && id in subtasks && subtasks[id].epicId == epicId
      ensures forall id | id in r :: r[id] == subtasks[id]
    {
      if epicId !in epics {
        return map[];
      }
      r := map id | id in epics[epicId].subtaskIds :: subtasks[id];
    }

    // ----- subtasks -----

    method GetSubtasks() returns (r: map<int, Task>)
      ensures r == subtasks
    {
      r := subtasks;
    }

    method AddSubtask(subtask: Task) returns (id: int)
      requires Valid() && subtask.Subtask?
      modifies this
      ensures liveEpics == old(liveEpics)
      ensures (Model(), id) == Registry.AddSubtask(old(Model()), subtask)
      ensures Valid()
    {
      AddSubtaskKeepsInv(Model(), subtask);
      if subtask.epicId !in epics || IsTaskContains(subtask) || IsIntersectedTask(subtask) {
        return -1;
      }
      StoreSubtask(subtask);
      id := subtask.id;
    }

    /** The accepted path of addSubtask: the subtask is stored, its epic lists it and is recomputed, and it is scheduled. */
    method StoreSubtask(subtask: Task)
      requires Kinds(Model()) && Linked(Model()) && Schedule.Valid(prioritizedTasks) && subtask.Subtask?
      requires subtask.epicId in epics && !IsTaskContains(subtask)
      requires !Schedule.IsIntersectedTask(prioritizedTasks, subtask)
      modifies this
      ensures liveEpics == old(liveEpics)
      ensures (Model(), subtask.id) == Registry.AddSubtask(old(Model()), subtask)
    {
      var epic := AddSubtaskId(epics[subtask.epicId], subtask.id);
      subtasks := subtasks[subtask.id := subtask];
      epic := ComputeEpicFields(epic);
      epics := epics[subtask.epicId := epic];
      AddPrioritizedTask(subtask);
    }

    method GetSubtask(id: int) returns (r: Result<Task>)
      requires Valid()
      modifies historyManager, historyManager.nodes
      ensures Answers(Registry.GetSubtask(old(Model()), id), r, old(Model()), Model())
      ensures Valid()
    {
      GetKeepsInv(Model(), id);
      if id !in subtasks {
        return Failure(NullPointer);
      }
      var subtask := subtasks[id];
      historyManager.Add(subtask);
      r := Success(subtask);
    }

    method UpdateSubtask(subtask: Task)
      requires Valid() && subtask.Subtask?
      modifies this
      ensures liveEpics == old(liveEpics)
      ensures Model() == Registry.UpdateSubtask(old(Model()), subtask)
      ensures Valid()
    {
      UpdateSubtaskKeepsInv(Model(), subtask);
      var id := subtask.id;
      if id in subtasks && !IsIntersectedTask(subtask) && subtasks[id].epicId == subtask.epicId {
        ReplaceSubtask(subtask);
      }
    }

    /** The accepted path of updateSubtask: the map, the epic and the prioritized set take the new version. */
    method ReplaceSubtask(subtask: Task)
      requires Kinds(Model()) && Linked(Model()) && Schedule.Valid(prioritizedTasks) && subtask.Subtask?
      requires subtask.id in subtasks && subtasks[subtask.id].epicId == subtask.epicId
      requires !Schedule.IsIntersectedTask(prioritizedTasks, subtask)
      modifies this
      ensures liveEpics == old(liveEpics)
      ensures Model() == Registry.UpdateSubtask(old(Model()), subtask)
    {
      var previous := subtasks[subtask.id];
      subtasks := subtasks[subtask.id := subtask];
      var epic := ComputeEpicFields(epics[subtask.epicId]);
      epics := epics[subtask.epicId := epic];
      prioritizedTasks := Evict(prioritizedTasks, previous);
      AddPrioritizedTask(subtask);
    }

    method RemoveSubtask(id: int)
      requires Valid()
      modifies this, historyManager, historyManager.nodes
      ensures liveEpics == old(liveEpics)
      ensures Model() == Registry.RemoveSubtask(old(Model()), id)
      ensures Valid()
    {
      RemoveSubtaskKeepsInv(Model(), id);
      if id in subtasks {
        DetachSubtask(id);
      }
    }

    /** removeSubtask of a stored id: the epic drops the subtask and is recomputed, the set, the map and the history lose it. */
    method DetachSubtask(id: int)
      requires historyManager.Valid() && Kinds(Model()) && Linked(Model()) && id in subtasks
      modifies this, historyManager, historyManager.nodes
      ensures liveEpics == old(liveEpics)
      ensures historyManager.Valid() && Model() == Registry.RemoveSubtask(old(Model()), id)
    {
      UnlinkSubtask(id);
      historyManager.Remove(id);
    }

    /** removeSubtask on the maps and the set: the epic drops the subtask and is recomputed, the set and the map lose it. */
    method UnlinkSubtask(id: int)
      requires Kinds(Model()) && Linked(Model()) && id in subtasks
      modifies this
      ensures liveEpics == old(liveEpics)
      ensures var s := old(Model()); var r := Registry.RemoveSubtask(s, id);
        epics == r.epics && prioritizedTasks == r.schedule && subtasks == r.subtasks && tasks == r.tasks
    {
      var subtask := subtasks[id];
      var epicId := subtask.epicId;
      var epic := RemoveSubtaskId(epics[epicId], id);
      epic := ComputeEpicFields(epic);
      epics := epics[epicId := epic];
      prioritizedTasks := Evict(prioritizedTasks, subtask);
      subtasks := subtasks - {id};
    }

    /**
     * clearEpicSubtasks: each of the epic's subtasks leaves the prioritized
     * set, the map and the history; then the epic is emptied and set to NEW.
     */
    method ClearEpicSubtasks(id: int)
      requires Valid()
      modifies this, historyManager, historyManager.nodes
      ensures liveEpics == old(liveEpics)
      ensures Model() == Registry.ClearEpicSubtasks(old(Model()), id)
      ensures forall n | n in historyManager.nodes :: n in old(historyManager.nodes)
      ensures Valid()
    {
      if id in epics {
        ClearOwnedKeepsInv(Model(), {id});
      }
      DropEpicSubtasks(id);
    }

    /** clearEpicSubtasks on the fields: nothing for an unknown epic. */
    method DropEpicSubtasks(id: int)
      requires historyManager.Valid() && Kinds(Model()) && Linked(Model()) && Sorted(prioritizedTasks)
      modifies this, historyManager, historyManager.nodes
      ensures liveEpics == old(liveEpics)
      ensures historyManager.Valid()
      ensures Model() == Registry.ClearEpicSubtasks(old(Model()), id)
      ensures forall n | n in historyManager.nodes :: n in old(historyManager.nodes)
    {
      if id !in epics {
        return;
      }
      ghost var s := Model();
      var epic := epics[id];
      ghost var order := PurgeSubtasks(epic.subtaskIds);
      DropsIsPurge(s, order, epic.subtaskIds);
      epics := epics[id := Epic(id, epic.name, epic.description, NEW, epic.start, epic.duration, {}, epic.endTime)];
      ClearOwnedIsPurge(s, id);
    }

    /**
     * The loop of clearEpicSubtasks: each of the given subtasks leaves the
     * prioritized set, the map and the history, in the order `order` lists
     * them.
     */
    method PurgeSubtasks(ids: set<int>) returns (ghost order: seq<int>)
      requires historyManager.Valid() && ids <= subtasks.Keys
      modifies this, historyManager, historyManager.nodes
      ensures liveEpics == old(liveEpics)
      ensures forall x :: x in order <==> x in ids
      ensures historyManager.Valid() && Model() == Drops(old(Model()), order)
      ensures forall n | n in historyManager.nodes :: n in old(historyManager.nodes)
    {
      ghost var s := Model();
      var rest := ids;
      order := [];
      while rest != {}
        invariant liveEpics == old(liveEpics)
        invariant rest <= ids && rest <= subtasks.Keys
        invariant forall x :: x in order <==> x in ids && x !in rest
        invariant historyManager.Valid() && Model() == Drops(s, order)
        invariant forall n | n in historyManager.nodes :: n in old(historyManager.nodes)
        decreases |rest|
      {
        var sid := Choose(rest);
        DropSubtask(sid);
        assert (order + [sid])[..|order|] == order;
        order := order + [sid];
        rest := rest - {sid};
      }
    }

    /** One step of clearEpicSubtasks: the subtask leaves the prioritized set, the map and the history. */
    method DropSubtask(sid: int)
      requires historyManager.Valid() && sid in subtasks
      modifies this, historyManager, historyManager.nodes
      ensures liveEpics == old(liveEpics)
      ensures historyManager.Valid() && Model() == DropOne(old(Model()), sid)
      ensures forall n | n in historyManager.nodes :: n in old(historyManager.nodes)
    {
      prioritizedTasks := Evict(prioritizedTasks, subtasks[sid]);
      subtasks := subtasks - {sid};
      historyManager.Remove(sid);
    }

    /** clearSubtasks: clearEpicSubtasks for every epic. */
    method ClearSubtasks()
      requires Valid()
      modifies this, historyManager, historyManager.nodes
      ensures liveEpics == old(liveEpics)
      ensures Model() == Registry.ClearSubtasks(old(Model()))
      ensures Valid()
    {
      ghost var s := Model();
      ghost var order := ClearEveryEpic();
      ClearEachAll(s, order);
    }

    /** The loop of clearSubtasks: clearEpicSubtasks for each epic, in the order `order` lists them. */
    method ClearEveryEpic() returns (ghost order: seq<int>)
      requires historyManager.Valid() && Clearable(Model())
      modifies this, historyManager, historyManager.nodes
      ensures liveEpics == old(liveEpics)
      ensures Distinct(order) && forall x :: x in order <==> x in old(epics).Keys
      ensures historyManager.Valid() && Model() == ClearEach(old(Model()), order)
    {
      ghost var s := Model();
      var rest := epics.Keys;
      order := [];
      while rest != {}
        invariant liveEpics == old(liveEpics)
        invariant rest <= s.epics.Keys && Distinct(order)
        invariant forall x :: x in order <==> x in s.epics.Keys && x !in rest
        invariant historyManager.Valid() && Model() == ClearEach(s, order)
        invariant forall n | n in historyManager.nodes :: n in old(historyManager.nodes)
        decreases |rest|
      {
        var e := Choose(rest);
        Advance(s.epics.Keys, rest, order, e);
        ClearNext(s, order, e);
        order := order + [e];
        rest := rest - {e};
      }
    }

    /** One turn of the loop of clearSubtasks, stated on the epics cleared so far. */
    method ClearNext(ghost s: Store, ghost order: seq<int>, e: int)
      requires Clearable(s) && historyManager.Valid() && Model() == ClearEach(s, order)
      modifies this, historyManager, historyManager.nodes
      ensures liveEpics == old(liveEpics)
      ensures historyManager.Valid() && Model() == ClearEach(s, order + [e])
      ensures forall n | n in historyManager.nodes :: n in old(historyManager.nodes)
    {
      assert (order + [e])[..|order|] == order;
      DropEpicSubtasks(e);
    }

    // ----- tasks -----

    method GetTasks() returns (r: map<int, Task>)
      ensures r == tasks
    {
      r := tasks;
    }

    method AddTask(task: Task) returns (id: int)
      requires Valid()
      modifies this
      ensures liveEpics == old(liveEpics)
      ensures (Model(), id) == Registry.AddTask(old(Model()), task)
      ensures Valid()
    {
      AddTaskKeepsInv(Model(), task);
      if IsTaskContains(task) || !task.Task? || IsIntersectedTask(task) {
        return -1;
      }
      tasks := tasks[task.id := task];
      AddPrioritizedTask(task);
      id := task.id;
    }

    method GetTask(id: int) returns (r: Result<Task>)
      requires Valid()
      modifies historyManager, historyManager.nodes
      ensures Answers(Registry.GetTask(old(Model()), id), r, old(Model()), Model())
      ensures Valid()
    {
      GetKeepsInv(Model(), id);
      if id !in tasks {
        return Failure(NullPointer);
      }
      var task := tasks[id];
      historyManager.Add(task);
      r := Success(task);
    }

    method UpdateTask(task: Task)
      requires Valid() && task.Task?
      modifies this
      ensures liveEpics == old(liveEpics)
      ensures Model() == Registry.UpdateTask(old(Model()), task)
      ensures Valid()
    {
      UpdateTaskKeepsInv(Model(), task);
      var id := task.id;
      if id !in tasks || IsIntersectedTask(task) {
        return;
      }
      var oldTask := tasks[id];
      prioritizedTasks := Evict(prioritizedTasks, oldTask);
      tasks := tasks[id := task];
      AddPrioritizedTask(task);
    }

    /** removeTask: an unknown id fails with a null dereference and changes nothing. */
    method RemoveTask(id: int) returns (r: Result<()>)
      requires Valid()
      modifies this, historyManager, historyManager.nodes
      ensures liveEpics == old(liveEpics)
      ensures r.Failure? ==> Registry.RemoveTask(old(Model()), id) == Failure(r.error) && Model() == old(Model())
      ensures r.Success? ==> Registry.RemoveTask(old(Model()), id) == Success(Model())
      ensures Valid()
    {
      RemoveTaskKeepsInv(Model(), id);
      if id !in tasks {
        return Failure(NullPointer);
      }
      DetachTask(id);
      r := Success(());
    }

    /** removeTask of a stored id: the task leaves the prioritized set, the map and the history. */
    method DetachTask(id: int)
      requires historyManager.Valid() && id in tasks
      modifies this, historyManager, historyManager.nodes
      ensures liveEpics == old(liveEpics)
      ensures historyManager.Valid() && Success(Model()) == Registry.RemoveTask(old(Model()), id)
    {
      var task := tasks[id];
      prioritizedTasks := Evict(prioritizedTasks, task);
      tasks := tasks - {id};
      historyManager.Remove(id);
    }

    method ClearTasks()
      requires Valid()
      modifies this, historyManager, historyManager.nodes
      ensures liveEpics == old(liveEpics)
      ensures Model() == Registry.ClearTasks(old(Model()))
      ensures Valid()
    {
      ghost var s := Model();
      ClearTasksKeepsInv(s);
      ForgetAll(tasks.Keys);
      DropTasks();
    }

    /** clearTasks on the map and the prioritized set: no tasks, and the set rebuilt from the subtasks. */
    method DropTasks()
      requires forall id | id in subtasks :: subtasks[id].Subtask? && subtasks[id].id == id
      requires Schedule.Valid(prioritizedTasks)
      requires forall x :: x in prioritizedTasks <==>
        IsPrioritized(x) && (x.Task? ==> x.id in tasks && tasks[x.id] == x)
                         && (x.Subtask? ==> x.id in subtasks && subtasks[x.id] == x) && !x.Epic?
      modifies this
      ensures liveEpics == old(liveEpics)
      ensures tasks == map[] && epics == old(epics) && subtasks == old(subtasks)
      ensures prioritizedTasks == Filter(old(prioritizedTasks), (x: Task) => x.Subtask?)
    {
      ghost var q := prioritizedTasks;
      FilterKeepsValid(q, (x: Task) => x.Subtask?);
      tasks := map[];
      ReloadPrioritizedTasks();
      SortedUnique(prioritizedTasks, Filter(q, (x: Task) => x.Subtask?));
    }

    method ClearAllData()
      requires Valid()
      modifies this, historyManager
      ensures liveEpics == old(liveEpics)
      ensures Model() == Registry.ClearAllData(old(Model()))
      ensures Valid()
    {
      tasks := map[];
      epics := map[];
      subtasks := map[];
      prioritizedTasks := [];
      historyManager.Clear();
      EmptyInv();
    }

    // ----- history and the prioritized set -----

    /**
     * getHistory: the viewed entities, oldest first, one entry per id.  The
     * source's list holds objects, so an epic recorded as the stored object is
     * read here through the epics map and shows every change made to it since.
     */
    method GetHistory() returns (r: seq<Task>)
      requires Valid()
      ensures r == LiveHistory(Model(), liveEpics)
      ensures IdsOf(r) == IdsOf(Model().history) && DistinctIds(r)
    {
      var viewed := historyManager.GetHistory();
      r := LiveHistory(Store(tasks, epics, subtasks, prioritizedTasks, viewed), liveEpics);
      LiveHistorySpec(Model(), liveEpics);
    }

    /**
     * reloadPrioritizedTasks: the set is emptied and refilled from the stored
     * tasks, then the stored subtasks, each entering when it has a start and
     * an end.  The stored entities must already have pairwise different
     * starts, which holds when they all sit in a valid schedule.
     */
    method ReloadPrioritizedTasks()
      requires forall id | id in tasks :: tasks[id].Task? && tasks[id].id == id
      requires forall id | id in subtasks :: subtasks[id].Subtask? && subtasks[id].id == id
      requires Schedule.Valid(prioritizedTasks)
      requires forall id | id in tasks && IsPrioritized(tasks[id]) :: tasks[id] in prioritizedTasks
      requires forall id | id in subtasks && IsPrioritized(subtasks[id]) :: subtasks[id] in prioritizedTasks
      modifies this
      ensures liveEpics == old(liveEpics)
      ensures Sorted(prioritizedTasks)
      ensures forall x :: x in prioritizedTasks <==> IsPrioritized(x) && Stored(Model(), x)
      ensures tasks == old(tasks) && epics == old(epics) && subtasks == old(subtasks)
    {
      ghost var q := prioritizedTasks;
      prioritizedTasks := [];
      AdmitAll(tasks, q);
      AdmitAll(subtasks, q);
    }

    /**
     * One loop of reloadPrioritizedTasks: every entry of `m` with a start and
     * an end joins the set.  All of them, and all already in the set, sit in
     * the valid schedule `q`, so none is refused for a clash.
     */
    method AdmitAll(m: map<int, Task>, ghost q: seq<Task>)
      requires forall id | id in m :: m[id].id == id
      requires Schedule.Valid(q) && Sorted(prioritizedTasks)
      requires forall id | id in m && IsPrioritized(m[id]) :: m[id] in q
      requires forall y | y in prioritizedTasks :: y in q && !(y.id in m && m[y.id] == y)
      modifies this
      ensures liveEpics == old(liveEpics)
      ensures Sorted(prioritizedTasks)
      ensures forall x :: x in prioritizedTasks <==>
        x in old(prioritizedTasks) || (IsPrioritized(x) && x.id in m && m[x.id] == x)
      ensures tasks == old(tasks) && epics == old(epics) && subtasks == old(subtasks)
    {
      var rest := m.Keys;
      while rest != {}
        invariant liveEpics == old(liveEpics)
        invariant rest <= m.Keys && Sorted(prioritizedTasks)
        invariant forall y | y in prioritizedTasks :: y in q
        invariant forall x :: x in prioritizedTasks <==>
          x in old(prioritizedTasks) || (IsPrioritized(x) && x.id in m && m[x.id] == x && x.id !in rest)
        invariant tasks == old(tasks) && epics == old(epics) && subtasks == old(subtasks)
        decreases |rest|
      {
        var id := Choose(rest);
        var t := m[id];
        if t.start.Some? && EndTime(t).Some? {
          DistinctStarts(q, prioritizedTasks, t);
          prioritizedTasks := Insert(prioritizedTasks, t);
        }
        rest := rest - {id};
      }
    }

    /** getPrioritizedTasks: every stored task and subtask with a start and an end, by start, none clashing. */
    method GetPrioritizedTasks() returns (r: seq<Task>)
      requires Valid()
      ensures Schedule.Valid(r)
      ensures forall x :: x in r <==> IsPrioritized(x) && Stored(Model(), x)
    {
      r := prioritizedTasks;
    }
  }

  /** One more subtask visited by the loop of computeEpicFields, stated on the set still to visit. */
  lemma VisitNext(ids: set<int>, rest: set<int>, subs: map<int, Task>, id: int)
    requires ids <= subs.Keys && rest <= ids && id in rest
    ensures StatusesOf(ids - (rest - {id}), subs) == StatusesOf(ids - rest, subs) + {subs[id].status}
    ensures Dates(ids - (rest - {id}), subs) == Dates(ids - rest, subs)
      + (if IsPrioritized(subs[id]) then {subs[id].start.value, EndTime(subs[id]).value} else {})
    ensures TotalDuration(ids - (rest - {id}), subs) == TotalDuration(ids - rest, subs) + Contribution(subs[id])
  {
    VisitOne(ids - rest, subs, id);
    assert ids - (rest - {id}) == (ids - rest) + {id};
  }

  /** SortedSet.first and SortedSet.last: the least and the greatest element. */
  lemma Extremes(d: set<int>, first: int, last: int)
    requires first in d && forall y | y in d :: first <= y
    requires last in d && forall y | y in d :: y <= last
    ensures first == Least(d) && last == Greatest(d)
  {
  }

  /** In a valid schedule, an element other than `t` never starts where `t` does. */
  lemma DistinctStarts(q: seq<Task>, p: seq<Task>, t: Task)
    requires Schedule.Valid(q) && t in q
    requires forall y | y in p :: y in q && y != t
    ensures StartFree(p, t.start)
  {
    forall y | y in p
      ensures y.start != t.start
    {
      ConflictRules(y, t);
    }
  }
}
