/**
 * The two registries of the earlier iterations as the objects they are:
 * src/TaskManager.java, three hash maps that its methods update in place,
 * and src/InMemoryTaskManager.java, the same maps and the same operations
 * plus a history that every getter appends to.
 *
 * Every method of TaskManager is proved against the value-level operation of
 * module LegacyRegistry: `Model()` reads the three maps as a Registry, and
 * each method leaves it equal to that operation applied to the Registry it
 * started from.  InMemoryTaskManager keeps its maps in a TaskManager, since
 * their code is the same line for line, and adds what differs: the history
 * and the status pass that dereferences a missing epic.
 */
module LegacyManagers {
  import opened Wrappers
  import opened Sets
  import opened Entities
  import opened Aggregation
  import opened LegacyEntities
  import opened LegacyHistory
  import opened LegacyRegistry

  /** The pass of clearAllSubtasks so far: the epics outside `rest` are cleared, the others as they were. */
  ghost predicate ClearedBut(before: map<int, Entity>, m: map<int, Entity>, rest: set<int>) {
    && rest <= before.Keys && m.Keys == before.Keys
    && forall e | e in before :: before[e].Epic? && m[e] == if e in rest then before[e] else Cleared(before[e])
  }

  /** Clearing one more epic of `rest`. */
  lemma ClearOne(before: map<int, Entity>, m: map<int, Entity>, rest: set<int>, e: int)
    requires ClearedBut(before, m, rest) && e in rest
    ensures m[e].Epic? && ClearedBut(before, m[e := Cleared(m[e])], rest - {e})
  {
  }

  /** After the pass every epic is cleared. */
  lemma ClearedAll(before: map<int, Entity>, m: map<int, Entity>)
    requires ClearedBut(before, m, {})
    ensures m == map e | e in before :: Cleared(before[e])
  {
    var cleared := map e | e in before :: Cleared(before[e]);
    assert m.Keys == cleared.Keys;
    assert forall e | e in m :: m[e] == cleared[e];
  }

  class TaskManager {
    var tasks: map<int, Entity>
    var epics: map<int, Entity>
    var subtasks: map<int, Entity>

    /** The manager's state as a value. */
    ghost function Model(): Registry
      reads this
    {
      Registry(tasks, epics, subtasks)
    }

    /** TaskManager(): three empty maps. */
    constructor ()
      ensures Model() == Empty
    {
      tasks := map[];
      epics := map[];
      subtasks := map[];
    }

    /** isTaskContains */
    predicate IsTaskContains(task: Entity)
      reads this
    {
      task.id in tasks || task.id in epics || task.id in subtasks
    }

    method AddEpic(epic: Entity) returns (id: int)
      requires epic.Epic?
      modifies this
      ensures (Model(), id) == LegacyRegistry.AddEpic(old(Model()), epic)
    {
      if IsTaskContains(epic) {
        return -1;
      }
      epics := epics[epic.id := epic];
      id := epic.id;
    }

    method GetEpicById(id: int) returns (r: Option<Entity>)
      ensures r == Lookup(epics, id)
    {
      r := if id in epics then Some(epics[id]) else None;
    }

    method UpdateEpic(epic: Entity)
      modifies this
      ensures Model() == LegacyRegistry.UpdateEpic(old(Model()), epic)
    {
      if epic.id in epics {
        var target := epics[epic.id];
        target := WithName(target, epic.name);
        target := WithDescription(target, epic.description);
        epics := epics[epic.id := target];
      }
    }

    method RemoveEpic(id: int)
      requires Listed(Model())
      modifies this
      ensures Model() == LegacyRegistry.RemoveEpic(old(Model()), id)
    {
      ClearEpicSubtasks(id);
      epics := epics - {id};
    }

    method ClearEpics()
      modifies this
      ensures Model() == LegacyRegistry.ClearEpics(old(Model()))
    {
      epics := map[];
      subtasks := map[];
    }

    /**
     * calculateEpicStatus(epicId): a pass over the epic's subtasks that
     * collects their statuses into a set, then the rule on that set's size.
     */
    method CalculateEpicStatus(epicId: int)
      requires Listed(Model())
      modifies this
      ensures Model() == LegacyRegistry.CalculateEpicStatus(old(Model()), epicId)
    {
      if epicId !in epics {
        return;
      }
      var epic := epics[epicId];
      var ids := epic.subtaskIds;
      if ids == {} {
        epics := epics[epicId := WithStatus(epic, NEW)];
        return;
      }
      var statuses := CollectStatuses(ids);
      ghost var some := Pick(ids);
      assert subtasks[some].status in statuses;
      var size := |statuses|;
      var status;
      if size == 1 && NEW in statuses {
        status := NEW;
      } else if size == 1 && DONE in statuses {
        status := DONE;
      } else {
        status := IN_PROGRESS;
      }
      epics := epics[epicId := WithStatus(epic, status)];
    }

    /** The loop of calculateEpicStatus: the set of the listed subtasks' statuses. */
    method CollectStatuses(ids: set<int>) returns (statuses: set<Status>)
      requires ids <= subtasks.Keys
      ensures statuses == Statuses(ids, subtasks)
    {
      statuses := {};
      var rest := ids;
      while rest != {}
        invariant rest <= ids
        invariant statuses == Statuses(ids - rest, subtasks)
        decreases |rest|
      {
        var sid := Choose(rest);
        StatusesStep(ids - rest, sid, subtasks);
        statuses := statuses + {subtasks[sid].status};
        rest := rest - {sid};
        assert ids - rest == (ids - (rest + {sid})) + {sid};
      }
      assert ids - rest == ids;
    }

    /** getEpicSubtasks: a pass over the epic's ids that copies each listed subtask into a new map. */
    method GetEpicSubtasks(epicId: int) returns (result: map<int, Entity>)
      requires Listed(Model())
      ensures result == EpicSubtasks(Model(), epicId)
    {
      result := map[];
      if epicId !in epics {
        return;
      }
      var ids := epics[epicId].subtaskIds;
      var rest := ids;
      while rest != {}
        invariant rest <= ids
        invariant result == map sid | sid in ids - rest :: subtasks[sid]
        decreases |rest|
      {
        var sid := Choose(rest);
        result := result[sid := subtasks[sid]];
        rest := rest - {sid};
      }
    }

    method AddSubtask(subtask: Entity) returns (id: int)
      requires Listed(Model()) && subtask.Subtask?
      modifies this
      ensures (Model(), id) == LegacyRegistry.AddSubtask(old(Model()), subtask)
    {
      var epicId := subtask.epicId;
      if epicId in epics && !IsTaskContains(subtask) {
        var epic := epics[epicId];
        epics := epics[epicId := epic.(subtaskIds := epic.subtaskIds + {subtask.id})];
        subtasks := subtasks[subtask.id := subtask];
        CalculateEpicStatus(epicId);
        return subtask.id;
      }
      return -1;
    }

    method GetSubtaskById(id: int) returns (r: Option<Entity>)
      ensures r == Lookup(subtasks, id)
    {
      r := if id in subtasks then Some(subtasks[id]) else None;
    }

    method UpdateSubtask(subtask: Entity)
      requires Listed(Model()) && subtask.Subtask?
      modifies this
      ensures Model() == LegacyRegistry.UpdateSubtask(old(Model()), subtask)
    {
      if subtask.id in subtasks {
        subtasks := subtasks[subtask.id := subtask];
        CalculateEpicStatus(subtask.epicId);
      }
    }

    /** removeSubtask: a NullPointerException for an unknown id or a subtask whose epic is gone, before any change. */
    method RemoveSubtask(id: int) returns (fault: Option<Fault>)
      requires Listed(Model()) && Kinds(Model())
      modifies this
      ensures fault.Some? <==> LegacyRegistry.RemoveSubtask(old(Model()), id).Failure?
      ensures fault.Some? ==> fault.value == NullPointer && Model() == old(Model())
      ensures fault.None? ==> Model() == LegacyRegistry.RemoveSubtask(old(Model()), id).value
    {
      if id !in subtasks {
        return Some(NullPointer);
      }
      var epicId := subtasks[id].epicId;
      if epicId !in epics {
        return Some(NullPointer);
      }
      var epic := epics[epicId];
      epics := epics[epicId := epic.(subtaskIds := epic.subtaskIds - {id})];
      CalculateEpicStatus(epicId);
      subtasks := subtasks - {id};
      fault := None;
    }

    /** clearEpicSubtasks: a pass over the epic's ids removing each from the subtasks map. */
    method ClearEpicSubtasks(id: int)
      requires Listed(Model())
      modifies this
      ensures Model() == LegacyRegistry.ClearEpicSubtasks(old(Model()), id)
    {
      if id !in epics {
        return;
      }
      var epic := epics[id];
      var ids := epic.subtaskIds;
      var rest := ids;
      while rest != {}
        invariant rest <= ids
        invariant subtasks == old(subtasks) - (ids - rest)
        invariant tasks == old(tasks) && epics == old(epics)
        decreases |rest|
      {
        var sid := Choose(rest);
        subtasks := subtasks - {sid};
        rest := rest - {sid};
      }
      assert ids - rest == ids;
      epics := epics[id := Cleared(epic)];
    }

    /** clearAllSubtasks: a pass over the epics clearing each, then the subtasks map. */
    method ClearAllSubtasks()
      requires Kinds(Model())
      modifies this
      ensures Model() == LegacyRegistry.ClearAllSubtasks(old(Model()))
    {
      ghost var before := epics;
      var rest := epics.Keys;
      while rest != {}
        invariant ClearedBut(before, epics, rest)
        invariant tasks == old(tasks) && subtasks == old(subtasks)
        decreases |rest|
      {
        var e := Choose(rest);
        ClearOne(before, epics, rest, e);
        epics := epics[e := Cleared(epics[e])];
        rest := rest - {e};
      }
      subtasks := map[];
      ClearedAll(before, epics);
    }

    method AddTask(task: Entity) returns (id: int)
      modifies this
      ensures (Model(), id) == LegacyRegistry.AddTask(old(Model()), task)
    {
      if IsTaskContains(task) {
        return -1;
      }
      if task.id !in tasks {
        tasks := tasks[task.id := task];
      }
      id := task.id;
    }

    method GetTaskById(id: int) returns (r: Option<Entity>)
      ensures r == Lookup(tasks, id)
    {
      r := if id in tasks then Some(tasks[id]) else None;
    }

    method UpdateTask(task: Entity)
      modifies this
      ensures Model() == LegacyRegistry.UpdateTask(old(Model()), task)
    {
      if task.id in tasks {
        tasks := tasks[task.id := task];
      }
    }

    method RemoveTask(id: int)
      modifies this
      ensures Model() == LegacyRegistry.RemoveTask(old(Model()), id)
    {
      tasks := tasks - {id};
    }

    method ClearTasks()
      modifies this
      ensures Model() == LegacyRegistry.ClearTasks(old(Model()))
    {
      tasks := map[];
    }

    method ClearAllData()
      modifies this
      ensures Model() == LegacyRegistry.ClearAllData(old(Model()))
    {
      tasks := map[];
      epics := map[];
      subtasks := map[];
    }
  }

  /** One more subtask read by the status pass adds its status to the set. */
  lemma StatusesStep(done: set<int>, sid: int, subs: map<int, Entity>)
    requires done <= subs.Keys && sid in subs
    ensures Statuses(done + {sid}, subs) == Statuses(done, subs) + {subs[sid].status}
  {
  }

  class InMemoryTaskManager {
    const registry: TaskManager
    const historyManager: HistoryManager

    /** The three maps as a value. */
    ghost function Model(): Registry
      reads this, registry
    {
      registry.Model()
    }

    /** The entries of the history, null for a view of an unknown id. */
    ghost function History(): seq<Option<Entity>>
      reads this, historyManager
    {
      historyManager.history
    }

    ghost predicate Valid()
      reads this, historyManager
    {
      historyManager.Valid()
    }

    /** InMemoryTaskManager(): empty maps and the default (empty) history. */
    constructor ()
      ensures Valid() && Model() == Empty && History() == []
      ensures fresh(registry) && fresh(historyManager)
    {
      registry := new TaskManager();
      historyManager := new HistoryManager();
    }

    method AddEpic(epic: Entity) returns (id: int)
      requires epic.Epic?
      modifies registry
      ensures (Model(), id) == LegacyRegistry.AddEpic(old(Model()), epic)
    {
      id := registry.AddEpic(epic);
    }

    /** getEpic: the epic or null, and that answer appended to the history. */
    method GetEpic(id: int) returns (r: Option<Entity>)
      requires Valid()
      modifies historyManager
      ensures Valid() && r == Lookup(Model().epics, id)
      ensures History() == Appended(old(History()), r)
    {
      r := registry.GetEpicById(id);
      historyManager.Add(r);
    }

    method UpdateEpic(epic: Entity)
      modifies registry
      ensures Model() == LegacyRegistry.UpdateEpic(old(Model()), epic)
    {
      registry.UpdateEpic(epic);
    }

    method RemoveEpic(id: int)
      requires Listed(Model())
      modifies registry
      ensures Model() == LegacyRegistry.RemoveEpic(old(Model()), id)
    {
      registry.RemoveEpic(id);
    }

    method ClearEpics()
      modifies registry
      ensures Model() == LegacyRegistry.ClearEpics(old(Model()))
    {
      registry.ClearEpics();
    }

    method GetEpicSubtasks(epicId: int) returns (result: map<int, Entity>)
      requires Listed(Model())
      ensures result == EpicSubtasks(Model(), epicId)
    {
      result := registry.GetEpicSubtasks(epicId);
    }

    method AddSubtask(subtask: Entity) returns (id: int)
      requires Listed(Model()) && subtask.Subtask?
      modifies registry
      ensures (Model(), id) == LegacyRegistry.AddSubtask(old(Model()), subtask)
    {
      id := registry.AddSubtask(subtask);
    }

    /** getSubtask: the subtask or null, and that answer appended to the history. */
    method GetSubtask(id: int) returns (r: Option<Entity>)
      requires Valid()
      modifies historyManager
      ensures Valid() && r == Lookup(Model().subtasks, id)
      ensures History() == Appended(old(History()), r)
    {
      r := registry.GetSubtaskById(id);
      historyManager.Add(r);
    }

    /**
     * updateSubtask: as in TaskManager, except that the status pass is
     * handed epics.get(epicId) itself, so a stored subtask whose new version
     * names an unknown epic is put and then dereferences null.
     */
    method UpdateSubtask(subtask: Entity) returns (fault: Option<Fault>)
      requires Listed(Model()) && subtask.Subtask?
      modifies registry
      ensures Model() == LegacyRegistry.UpdateSubtask(old(Model()), subtask)
      ensures fault.Some? <==> subtask.id in old(Model()).subtasks && subtask.epicId !in old(Model()).epics
      ensures fault.Some? ==> fault.value == NullPointer
    {
      fault := None;
      if subtask.id in registry.subtasks && subtask.epicId !in registry.epics {
        fault := Some(NullPointer);
      }
      registry.UpdateSubtask(subtask);
    }

    method RemoveSubtask(id: int) returns (fault: Option<Fault>)
      requires Listed(Model()) && Kinds(Model())
      modifies registry
      ensures fault.Some? <==> LegacyRegistry.RemoveSubtask(old(Model()), id).Failure?
      ensures fault.Some? ==> fault.value == NullPointer && Model() == old(Model())
      ensures fault.None? ==> Model() == LegacyRegistry.RemoveSubtask(old(Model()), id).value
    {
      fault := registry.RemoveSubtask(id);
    }

    method ClearEpicSubtasks(id: int)
      requires Listed(Model())
      modifies registry
      ensures Model() == LegacyRegistry.ClearEpicSubtasks(old(Model()), id)
    {
      registry.ClearEpicSubtasks(id);
    }

    /** clearSubtasks */
    method ClearSubtasks()
      requires Kinds(Model())
      modifies registry
      ensures Model() == LegacyRegistry.ClearAllSubtasks(old(Model()))
    {
      registry.ClearAllSubtasks();
    }

    method AddTask(task: Entity) returns (id: int)
      modifies registry
      ensures (Model(), id) == LegacyRegistry.AddTask(old(Model()), task)
    {
      id := registry.AddTask(task);
    }

    /** getTask: the task or null, and that answer appended to the history. */
    method GetTask(id: int) returns (r: Option<Entity>)
      requires Valid()
      modifies historyManager
      ensures Valid() && r == Lookup(Model().tasks, id)
      ensures History() == Appended(old(History()), r)
    {
      r := registry.GetTaskById(id);
      historyManager.Add(r);
    }

    method UpdateTask(task: Entity)
      modifies registry
      ensures Model() == LegacyRegistry.UpdateTask(old(Model()), task)
    {
      registry.UpdateTask(task);
    }

    method RemoveTask(id: int)
      modifies registry
      ensures Model() == LegacyRegistry.RemoveTask(old(Model()), id)
    {
      registry.RemoveTask(id);
    }

    method ClearTasks()
      modifies registry
      ensures Model() == LegacyRegistry.ClearTasks(old(Model()))
    {
      registry.ClearTasks();
    }

    method ClearAllData()
      modifies registry
      ensures Model() == LegacyRegistry.ClearAllData(old(Model()))
    {
      registry.ClearAllData();
    }

    /** getHistory: at most ten entries. */
    method GetHistory() returns (h: seq<Option<Entity>>)
      requires Valid()
      ensures h == History() && |h| <= HISTORY_ITEMS_COUNT
    {
      h := historyManager.GetHistory();
    }
  }
}
