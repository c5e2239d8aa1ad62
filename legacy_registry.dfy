/**
 * The registry of the earlier iterations on values: the three id-keyed maps
 * of src/TaskManager.java (and of src/InMemoryTaskManager.java, which adds a
 * history and nothing else to them), one function per public operation, the
 * invariant they keep and what each promises.  There is no scheduling and
 * no time window; an epic's status is the registries' rule over the statuses
 * of its subtasks (Aggregation.EpicStatus).
 */
module LegacyRegistry {
  import opened Wrappers
  import opened Entities
  import opened Aggregation
  import opened LegacyEntities

  datatype Registry = Registry(tasks: map<int, Entity>, epics: map<int, Entity>, subtasks: map<int, Entity>)

  /** A new registry: three empty maps. */
  const Empty := Registry(map[], map[], map[])

  // ----- the invariant -----

  /** Every map holds entities of its own class, each under its own id. */
  predicate Kinds(r: Registry) {
    && (forall id | id in r.tasks :: r.tasks[id].Task? && r.tasks[id].id == id)
    && (forall id | id in r.epics :: r.epics[id].Epic? && r.epics[id].id == id)
    && (forall id | id in r.subtasks :: r.subtasks[id].Subtask? && r.subtasks[id].id == id)
  }

  /** An id is used by at most one of the three maps. */
  predicate Unique(r: Registry) {
    && r.tasks.Keys !! r.epics.Keys
    && r.tasks.Keys !! r.subtasks.Keys
    && r.epics.Keys !! r.subtasks.Keys
  }

  /** Each epic lists exactly the stored subtasks that name it. */
  predicate Linked(r: Registry) {
    && (forall e | e in r.epics :: r.epics[e].Epic? && r.epics[e].subtaskIds <= r.subtasks.Keys)
    && (forall e, sid | e in r.epics && sid in r.epics[e].subtaskIds ::
          r.subtasks[sid].Subtask? && r.subtasks[sid].epicId == e)
    && (forall sid | sid in r.subtasks ::
          && r.subtasks[sid].Subtask?
          && r.subtasks[sid].epicId in r.epics
          && sid in r.epics[r.subtasks[sid].epicId].subtaskIds)
  }

  /** The statuses of the subtasks listed in `ids`. */
  function Statuses(ids: set<int>, subs: map<int, Entity>): set<Status>
    requires ids <= subs.Keys
  {
    set id | id in ids :: subs[id].status
  }

  /** An epic with subtasks shows the status calculateEpicStatus derives from them. */
  predicate Derived(r: Registry)
    requires Linked(r)
  {
    forall e | e in r.epics && r.epics[e].subtaskIds != {} ::
      r.epics[e].status == EpicStatus(Statuses(r.epics[e].subtaskIds, r.subtasks))
  }

  predicate Inv(r: Registry) {
    Kinds(r) && Unique(r) && Linked(r) && Derived(r)
  }

  // ----- operations -----

  /** isTaskContains: the id is used by any of the three maps. */
  predicate Contains(r: Registry, id: int) {
    id in r.tasks || id in r.epics || id in r.subtasks
  }

  /** A map lookup: the stored entity, or null. */
  function Lookup(m: map<int, Entity>, id: int): Option<Entity> {
    if id in m then Some(m[id]) else None
  }

  /** The epics all list stored subtasks, as the status pass needs to read them. */
  predicate Listed(r: Registry) {
    forall e | e in r.epics :: r.epics[e].Epic? && r.epics[e].subtaskIds <= r.subtasks.Keys
  }

  /**
   * calculateEpicStatus(epicId): nothing for an unknown epic; NEW without
   * subtasks; otherwise the registries' rule over the subtasks' statuses.
   */
  function CalculateEpicStatus(r: Registry, epicId: int): Registry
    requires Listed(r)
  {
    if epicId !in r.epics then r
    else
      var epic := r.epics[epicId];
      var status := if epic.subtaskIds == {} then NEW else EpicStatus(Statuses(epic.subtaskIds, r.subtasks));
      r.(epics := r.epics[epicId := WithStatus(epic, status)])
  }

  /** addEpic: -1 for a used id; otherwise the epic is stored and its id returned. */
  function AddEpic(r: Registry, epic: Entity): (Registry, int)
    requires epic.Epic?
  {
    if Contains(r, epic.id) then (r, -1) else (r.(epics := r.epics[epic.id := epic]), epic.id)
  }

  /** updateEpic: the stored epic takes the name and the description, nothing else. */
  function UpdateEpic(r: Registry, epic: Entity): Registry {
    if epic.id in r.epics then
      r.(epics := r.epics[epic.id := WithDescription(WithName(r.epics[epic.id], epic.name), epic.description)])
    else r
  }

  /** An epic after clearSubtasks and setStatus(NEW). */
  function Cleared(epic: Entity): (r: Entity)
    requires epic.Epic?
    ensures r.Epic? && LegacyEntities.Equals(r, epic) && r.subtaskIds == {} && r.status == NEW
    ensures r.name == epic.name && r.description == epic.description
  {
    WithStatus(epic.(subtaskIds := {}), NEW)
  }

  /** clearEpicSubtasks: the epic's subtasks leave the map, its set is emptied and its status set to NEW. */
  function ClearEpicSubtasks(r: Registry, id: int): Registry
    requires Listed(r)
  {
    if id !in r.epics then r
    else
      var epic := r.epics[id];
      r.(subtasks := r.subtasks - epic.subtaskIds,
         epics := r.epics[id := Cleared(epic)])
  }

  /** removeEpic: its subtasks cleared first, then the epic removed. */
  function RemoveEpic(r: Registry, id: int): Registry
    requires Listed(r)
  {
    var c := ClearEpicSubtasks(r, id);
    c.(epics := c.epics - {id})
  }

  /** clearEpics: no epics and no subtasks. */
  function ClearEpics(r: Registry): Registry {
    r.(epics := map[], subtasks := map[])
  }

  /** getEpicSubtasks: the epic's subtasks by id, empty for an unknown epic. */
  function EpicSubtasks(r: Registry, epicId: int): map<int, Entity>
    requires Listed(r)
  {
    if epicId in r.epics then map sid | sid in r.epics[epicId].subtaskIds :: r.subtasks[sid] else map[]
  }

  /**
   * addSubtask: -1 for an unknown epic or a used id; otherwise the epic
   * lists it, it is stored, and the epic's status is recalculated.
   */
  function AddSubtask(r: Registry, subtask: Entity): (Registry, int)
    requires Listed(r) && subtask.Subtask?
  {
    if subtask.epicId !in r.epics || Contains(r, subtask.id) then (r, -1)
    else
      var epic := r.epics[subtask.epicId];
      var linked := r.(epics := r.epics[subtask.epicId := epic.(subtaskIds := epic.subtaskIds + {subtask.id})],
                       subtasks := r.subtasks[subtask.id := subtask]);
      (CalculateEpicStatus(linked, subtask.epicId), subtask.id)
  }

  /**
   * updateSubtask: a stored id takes the new version and the epic the new
   * version names is recalculated; an unknown id changes nothing.
   */
  function UpdateSubtask(r: Registry, subtask: Entity): Registry
    requires Listed(r) && subtask.Subtask?
  {
    if subtask.id !in r.subtasks then r
    else CalculateEpicStatus(r.(subtasks := r.subtasks[subtask.id := subtask]), subtask.epicId)
  }

  /**
   * removeSubtask: an unknown id, or a subtask whose epic is gone,
   * dereferences null; otherwise the epic drops the id and is recalculated,
   * and the subtask leaves the map.
   */
  function RemoveSubtask(r: Registry, id: int): Result<Registry>
    requires Listed(r) && Kinds(r)
  {
    if id !in r.subtasks || r.subtasks[id].epicId !in r.epics then Failure(NullPointer)
    else
      var epicId := r.subtasks[id].epicId;
      var epic := r.epics[epicId];
      var unlinked := r.(epics := r.epics[epicId := epic.(subtaskIds := epic.subtaskIds - {id})]);
      var c := CalculateEpicStatus(unlinked, epicId);
      Success(c.(subtasks := c.subtasks - {id}))
  }

  /** clearAllSubtasks (clearSubtasks): every epic empty and NEW, no subtasks. */
  function ClearAllSubtasks(r: Registry): Registry
    requires Kinds(r)
  {
    r.(epics := map e | e in r.epics :: Cleared(r.epics[e]), subtasks := map[])
  }

  /** addTask: -1 for a used id; otherwise the object is stored under its id (whatever its class). */
  function AddTask(r: Registry, task: Entity): (Registry, int) {
    if Contains(r, task.id) then (r, -1) else (r.(tasks := r.tasks[task.id := task]), task.id)
  }

  /** updateTask: a stored id takes the new version. */
  function UpdateTask(r: Registry, task: Entity): Registry {
    if task.id in r.tasks then r.(tasks := r.tasks[task.id := task]) else r
  }

  /** removeTask: the id leaves the tasks map, if it was there. */
  function RemoveTask(r: Registry, id: int): Registry {
    r.(tasks := r.tasks - {id})
  }

  /** clearTasks. */
  function ClearTasks(r: Registry): Registry {
    r.(tasks := map[])
  }

  /** clearAllData. */
  function ClearAllData(r: Registry): Registry {
    Empty
  }

  // ----- properties -----

  /** The registries' rule over a set of subtasks: NEW exactly when all are NEW, DONE exactly when all are DONE. */
  lemma StatusRule(ids: set<int>, subs: map<int, Entity>)
    requires ids <= subs.Keys
    ensures EpicStatus(Statuses(ids, subs)) == NEW <==> forall id | id in ids :: subs[id].status == NEW
    ensures EpicStatus(Statuses(ids, subs)) == DONE <==> ids != {} && forall id | id in ids :: subs[id].status == DONE
  {
    var ss := Statuses(ids, subs);
    EpicStatusRule(ss);
    assert forall id | id in ids :: subs[id].status in ss;
    if ids != {} {
      var id :| id in ids;
      assert subs[id].status in ss;
    }
  }

  /** The statuses read only the listed subtasks. */
  lemma StatusesFrame(ids: set<int>, subs: map<int, Entity>, subs': map<int, Entity>)
    requires ids <= subs.Keys && ids <= subs'.Keys
    requires forall id | id in ids :: subs[id].status == subs'[id].status
    ensures Statuses(ids, subs) == Statuses(ids, subs')
  {
  }

  lemma EmptyInv()
    ensures Inv(Empty)
  {
  }

  /**
   * calculateEpicStatus leaves everything but the epic's status alone, and
   * the epic then shows the rule's status.
   */
  lemma CalculateSpec(r: Registry, epicId: int)
    requires Listed(r)
    ensures var c := CalculateEpicStatus(r, epicId);
      && c.tasks == r.tasks && c.subtasks == r.subtasks && c.epics.Keys == r.epics.Keys
      && (forall e | e in r.epics && e != epicId :: c.epics[e] == r.epics[e])
      && (epicId in r.epics ==>
            c.epics[epicId] == WithStatus(r.epics[epicId],
              if r.epics[epicId].subtaskIds == {} then NEW
              else EpicStatus(Statuses(r.epics[epicId].subtaskIds, r.subtasks))))
  {
  }

  /** addEpic: refused exactly for a used id; an epic without subtasks keeps the invariant. */
  lemma AddEpicKeepsInv(r: Registry, epic: Entity)
    requires Inv(r) && epic.Epic? && epic.subtaskIds == {}
    ensures Contains(r, epic.id) ==> AddEpic(r, epic) == (r, -1)
    ensures !Contains(r, epic.id) ==> AddEpic(r, epic) == (r.(epics := r.epics[epic.id := epic]), epic.id)
    ensures Inv(AddEpic(r, epic).0)
  {
    if !Contains(r, epic.id) {
      var a := AddEpic(r, epic).0;
      assert forall e | e in r.epics :: a.epics[e] == r.epics[e];
    }
  }

  /** updateEpic changes no id set, no status and no link. */
  lemma UpdateEpicKeepsInv(r: Registry, epic: Entity)
    requires Inv(r)
    ensures var u := UpdateEpic(r, epic);
      && Inv(u) && u.epics.Keys == r.epics.Keys && u.tasks == r.tasks && u.subtasks == r.subtasks
      && (epic.id in r.epics ==>
            u.epics[epic.id] == WithDescription(WithName(r.epics[epic.id], epic.name), epic.description))
  {
  }

  /**
   * addSubtask: refused exactly for an unknown epic or a used id;
   * otherwise the subtask is stored, its epic lists it and shows the rule's
   * status, and the invariant holds.
   */
  lemma AddSubtaskKeepsInv(r: Registry, subtask: Entity)
    requires Inv(r) && subtask.Subtask?
    ensures var (a, id) := AddSubtask(r, subtask);
      && (subtask.epicId !in r.epics || Contains(r, subtask.id) ==> a == r && id == -1)
      && (subtask.epicId in r.epics && !Contains(r, subtask.id) ==>
            && id == subtask.id && a.subtasks == r.subtasks[id := subtask]
            && a.epics[subtask.epicId].subtaskIds == r.epics[subtask.epicId].subtaskIds + {id})
      && Inv(a)
  {
    if subtask.epicId in r.epics && !Contains(r, subtask.id) {
      var eid := subtask.epicId;
      var epic := r.epics[eid];
      var linked := r.(epics := r.epics[eid := epic.(subtaskIds := epic.subtaskIds + {subtask.id})],
                       subtasks := r.subtasks[subtask.id := subtask]);
      var a := AddSubtask(r, subtask).0;
      assert a == CalculateEpicStatus(linked, eid);
      forall e | e in r.epics && e != eid && r.epics[e].subtaskIds != {}
        ensures a.epics[e].status == EpicStatus(Statuses(a.epics[e].subtaskIds, a.subtasks))
      {
        assert a.epics[e] == r.epics[e];
        assert subtask.id !in r.epics[e].subtaskIds;
        StatusesFrame(r.epics[e].subtaskIds, r.subtasks, a.subtasks);
      }
      assert Linked(a);
    }
  }

  /**
   * updateSubtask: a stored subtask whose new version names the same epic
   * is replaced, its epic recalculated, and the invariant holds.
   */
  lemma UpdateSubtaskKeepsInv(r: Registry, subtask: Entity)
    requires Inv(r) && subtask.Subtask?
    requires subtask.id in r.subtasks ==> r.subtasks[subtask.id].epicId == subtask.epicId
    ensures var u := UpdateSubtask(r, subtask);
      && Inv(u)
      && (subtask.id in r.subtasks ==> u.subtasks == r.subtasks[subtask.id := subtask])
      && (subtask.id !in r.subtasks ==> u == r)
  {
    if subtask.id in r.subtasks {
      var eid := subtask.epicId;
      var replaced := r.(subtasks := r.subtasks[subtask.id := subtask]);
      var u := UpdateSubtask(r, subtask);
      assert u == CalculateEpicStatus(replaced, eid);
      forall e | e in r.epics && e != eid && r.epics[e].subtaskIds != {}
        ensures u.epics[e].status == EpicStatus(Statuses(u.epics[e].subtaskIds, u.subtasks))
      {
        assert u.epics[e] == r.epics[e];
        assert subtask.id !in r.epics[e].subtaskIds;
        StatusesFrame(r.epics[e].subtaskIds, r.subtasks, u.subtasks);
      }
      assert Linked(u);
    }
  }

  /**
   * removeSubtask: fails exactly for an unknown id; otherwise the subtask is
   * gone, its epic no longer lists it, and the invariant holds.
   */
  lemma RemoveSubtaskKeepsInv(r: Registry, id: int)
    requires Inv(r)
    ensures RemoveSubtask(r, id).Failure? <==> id !in r.subtasks
    ensures RemoveSubtask(r, id).Success? ==>
      var d := RemoveSubtask(r, id).value;
      var eid := r.subtasks[id].epicId;
      && d.subtasks == r.subtasks - {id}
      && d.epics.Keys == r.epics.Keys
      && d.epics[eid].subtaskIds == r.epics[eid].subtaskIds - {id}
      && Inv(d)
  {
    if id in r.subtasks {
      var eid := r.subtasks[id].epicId;
      var d := RemoveSubtask(r, id).value;
      forall e | e in r.epics && e != eid && r.epics[e].subtaskIds != {}
        ensures d.epics[e].status == EpicStatus(Statuses(d.epics[e].subtaskIds, d.subtasks))
      {
        assert d.epics[e] == r.epics[e];
        assert id !in r.epics[e].subtaskIds;
        StatusesFrame(r.epics[e].subtaskIds, r.subtasks, d.subtasks);
      }
      if d.epics[eid].subtaskIds != {} {
        StatusesFrame(d.epics[eid].subtaskIds, r.subtasks, d.subtasks);
      }
      assert Linked(d);
    }
  }

  /** Two epics never list the same subtask. */
  lemma DisjointSubtasks(r: Registry, e: int, f: int)
    requires Linked(r) && e in r.epics && f in r.epics && e != f
    ensures r.epics[e].subtaskIds !! r.epics[f].subtaskIds
  {
    forall sid | sid in r.epics[e].subtaskIds
      ensures sid !in r.epics[f].subtaskIds
    {
      assert r.subtasks[sid].epicId == e;
    }
  }

  /**
   * clearEpicSubtasks: the epic's subtasks are gone, it lists none and is
   * NEW, every other epic and subtask stays, and the invariant holds.
   */
  lemma ClearEpicSubtasksKeepsInv(r: Registry, id: int)
    requires Inv(r)
    ensures var c := ClearEpicSubtasks(r, id);
      && Inv(c) && c.tasks == r.tasks && c.epics.Keys == r.epics.Keys
      && (id in r.epics ==>
            && c.subtasks.Keys == r.subtasks.Keys - r.epics[id].subtaskIds
            && c.epics[id].subtaskIds == {} && c.epics[id].status == NEW)
      && (forall e | e in r.epics && e != id :: c.epics[e] == r.epics[e])
      && (forall sid | sid in c.subtasks :: c.subtasks[sid] == r.subtasks[sid])
  {
    if id in r.epics {
      var c := ClearEpicSubtasks(r, id);
      forall e | e in r.epics && e != id
        ensures c.epics[e] == r.epics[e] && r.epics[e].subtaskIds <= c.subtasks.Keys
      {
        DisjointSubtasks(r, e, id);
      }
      assert Linked(c);
      forall e | e in r.epics && e != id && r.epics[e].subtaskIds != {}
        ensures c.epics[e].status == EpicStatus(Statuses(c.epics[e].subtaskIds, c.subtasks))
      {
        StatusesFrame(r.epics[e].subtaskIds, r.subtasks, c.subtasks);
      }
    }
  }

  /** removeEpic: the epic and its subtasks are gone, everything else stays, and the invariant holds. */
  lemma RemoveEpicKeepsInv(r: Registry, id: int)
    requires Inv(r)
    ensures var d := RemoveEpic(r, id);
      && Inv(d) && d.tasks == r.tasks && d.epics.Keys == r.epics.Keys - {id}
      && (id in r.epics ==> d.subtasks.Keys == r.subtasks.Keys - r.epics[id].subtaskIds)
      && (id !in r.epics ==> d == r)
  {
    ClearEpicSubtasksKeepsInv(r, id);
    var c := ClearEpicSubtasks(r, id);
    var d := RemoveEpic(r, id);
    if id in r.epics {
      assert forall sid | sid in c.subtasks :: c.subtasks[sid].epicId != id;
      assert Linked(d);
    }
  }

  /** clearAllSubtasks: no subtasks, every epic empty and NEW, and the invariant holds. */
  lemma ClearAllSubtasksKeepsInv(r: Registry)
    requires Inv(r)
    ensures var c := ClearAllSubtasks(r);
      && Inv(c) && c.subtasks == map[] && c.tasks == r.tasks && c.epics.Keys == r.epics.Keys
      && (forall e | e in c.epics :: c.epics[e].subtaskIds == {} && c.epics[e].status == NEW
            && c.epics[e] == Cleared(r.epics[e]))
  {
  }

  /** The clears and removals of tasks and epics keep the invariant. */
  lemma ClearsKeepInv(r: Registry, id: int)
    requires Inv(r)
    ensures Inv(ClearEpics(r)) && Inv(ClearTasks(r)) && Inv(ClearAllData(r)) && Inv(RemoveTask(r, id))
  {
  }

  /**
   * addTask: refused exactly for a used id; otherwise the object is stored
   * whatever its class, so the invariant holds exactly when it is a plain
   * task.
   */
  lemma AddTaskKeepsInv(r: Registry, task: Entity)
    requires Inv(r)
    ensures Contains(r, task.id) ==> AddTask(r, task) == (r, -1)
    ensures !Contains(r, task.id) ==> AddTask(r, task) == (r.(tasks := r.tasks[task.id := task]), task.id)
    ensures task.Task? ==> Inv(AddTask(r, task).0)
    ensures !Contains(r, task.id) && !task.Task? ==> !Kinds(AddTask(r, task).0)
  {
    if !Contains(r, task.id) && !task.Task? {
      assert AddTask(r, task).0.tasks[task.id] == task;
    }
  }

  /**
   * updateTask: a stored id takes the new version whatever its class, and
   * nothing else changes; the invariant holds exactly when it is a plain
   * task.
   */
  lemma UpdateTaskKeepsInv(r: Registry, task: Entity)
    requires Inv(r)
    ensures var u := UpdateTask(r, task);
      && (task.id in r.tasks ==> u.tasks == r.tasks[task.id := task])
      && (task.id !in r.tasks ==> u == r)
      && u.epics == r.epics && u.subtasks == r.subtasks
      && (task.Task? ==> Inv(u))
      && (task.id in r.tasks && !task.Task? ==> !Kinds(u))
  {
    if task.id in r.tasks && !task.Task? {
      assert UpdateTask(r, task).tasks[task.id] == task;
    }
  }

  /**
   * updateSubtask accepts a version naming another epic: the old epic still
   * lists the id and the new one does not.  Removing the subtask then takes
   * the id from the new epic's set only, so the old epic lists an id nothing
   * stores, and its next calculateEpicStatus reads a null subtask.
   */
  lemma MoveThenRemoveDangles(r: Registry, subtask: Entity)
    requires Inv(r) && subtask.Subtask? && subtask.id in r.subtasks
    requires subtask.epicId in r.epics && subtask.epicId != r.subtasks[subtask.id].epicId
    ensures var u := UpdateSubtask(r, subtask);
      && subtask.id in u.epics[r.subtasks[subtask.id].epicId].subtaskIds
      && subtask.id !in u.epics[subtask.epicId].subtaskIds
      && Listed(u) && Kinds(u) && !Linked(u)
      && RemoveSubtask(u, subtask.id).Success?
      && !Listed(RemoveSubtask(u, subtask.id).value)
  {
    var previous := r.subtasks[subtask.id].epicId;
    var u := UpdateSubtask(r, subtask);
    assert subtask.id in r.epics[previous].subtaskIds;
    assert subtask.id !in r.epics[subtask.epicId].subtaskIds;
    assert u.epics[previous] == r.epics[previous];
    var d := RemoveSubtask(u, subtask.id).value;
    assert d.epics[previous] == u.epics[previous];
    assert subtask.id !in d.subtasks;
  }
}
