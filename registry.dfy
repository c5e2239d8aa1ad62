/**
 * The registry (InMemoryTaskManager of package `services`) on values: its
 * three id-keyed maps, its prioritized set and its access history, with one
 * function per public operation and the invariant every operation keeps.
 *
 * Where the source's prioritized-set bookkeeping goes wrong (see module
 * AsWritten), the functions here do what the code evidently means: an entity
 * leaves the set by identity, not by start time, and only an entity with a
 * start and an end enters it.
 */
module Registry {
  import opened Wrappers
  import opened Entities
  import opened Aggregation
  import opened Schedule
  import opened History

  datatype Store = Store(
    tasks: map<int, Task>,
    epics: map<int, Task>,
    subtasks: map<int, Task>,
    schedule: seq<Task>,
    history: seq<Task>)

  /** A new registry: nothing stored, nothing scheduled, nothing viewed. */
  const Empty := Store(map[], map[], map[], [], [])

  /** Every history entry names an entity the registry still holds. */
  predicate HistoryStored(s: Store) {
    forall t | t in s.history :: Contains(s, t.id)
  }

  // ----- the invariant -----

  /** Every map holds entities of its own class, each under its own id. */
  predicate Kinds(s: Store) {
    && (forall id | id in s.tasks :: s.tasks[id].Task? && s.tasks[id].id == id)
    && (forall id | id in s.epics :: s.epics[id].Epic? && s.epics[id].id == id)
    && (forall id | id in s.subtasks :: s.subtasks[id].Subtask? && s.subtasks[id].id == id)
  }

  /** An id is used by at most one of the three maps. */
  predicate Unique(s: Store) {
    && s.tasks.Keys !! s.epics.Keys
    && s.tasks.Keys !! s.subtasks.Keys
    && s.epics.Keys !! s.subtasks.Keys
  }

  /** Each epic lists exactly the stored subtasks that name it as their epic. */
  predicate Linked(s: Store) {
    && (forall e | e in s.epics :: s.epics[e].Epic? && s.epics[e].subtaskIds <= s.subtasks.Keys)
    && (forall e, sid | e in s.epics && sid in s.epics[e].subtaskIds ::
          s.subtasks[sid].Subtask? && s.subtasks[sid].epicId == e)
    && (forall sid | sid in s.subtasks ::
          && s.subtasks[sid].Subtask?
          && s.subtasks[sid].epicId in s.epics
          && sid in s.epics[s.subtasks[sid].epicId].subtaskIds)
  }

  /** An epic with subtasks shows the fields computeEpicFields derives from them. */
  ghost predicate Derived(s: Store)
    requires Linked(s)
  {
    forall e | e in s.epics && s.epics[e].subtaskIds != {} ::
      s.epics[e] == ComputeEpicFields(s.epics[e], s.subtasks)
  }

  /** `x` is the task or subtask stored under its id. */
  predicate Stored(s: Store, x: Task) {
    || (x.Task? && x.id in s.tasks && s.tasks[x.id] == x)
    || (x.Subtask? && x.id in s.subtasks && s.subtasks[x.id] == x)
  }

  /**
   * The prioritized set is a valid schedule holding exactly the stored tasks
   * and subtasks that have a start and an end.
   */
  ghost predicate Scheduled(s: Store) {
    && Schedule.Valid(s.schedule)
    && (forall x :: x in s.schedule <==> IsPrioritized(x) && Stored(s, x))
  }

  ghost predicate Inv(s: Store) {
    && Kinds(s) && Unique(s) && Linked(s) && Derived(s) && Scheduled(s)
    && DistinctIds(s.history)
  }

  // ----- operations -----

  /** isTaskContains: the id is used by any of the three maps. */
  predicate Contains(s: Store, id: int) {
    id in s.tasks || id in s.epics || id in s.subtasks
  }

  /** What a get call does when the entity is there: it is recorded in the history. */
  function Viewed(s: Store, t: Task): (Store, Task) {
    (s.(history := Added(s.history, t)), t)
  }

  /**
   * A history entry as the source's list shows it now.  The list holds
   * objects.  An entry whose id is in `live` is the stored Epic object itself
   * (getEpic recorded it), which updateEpic, computeEpicFields and
   * clearEpicSubtasks change in place, so it reads as the epic the registry
   * holds today.  Any other entry (a task or subtask, which an update replaces
   * by a put, or an Epic object the map does not hold) reads as recorded.
   */
  function Live(s: Store, live: set<int>, t: Task): Task {
    if t.Epic? && t.id in live && t.id in s.epics then s.epics[t.id] else t
  }

  /** getHistory: the history with every entry read through Live. */
  function LiveHistory(s: Store, live: set<int>): (r: seq<Task>)
    ensures |r| == |s.history|
  {
    seq(|s.history|, i requires 0 <= i < |s.history| => Live(s, live, s.history[i]))
  }

  /** addEpic: -1 for a used id; otherwise the epic is stored and its id returned. */
  function AddEpic(s: Store, epic: Task): (Store, int)
    requires epic.Epic? && epic.subtaskIds == {}
  {
    if Contains(s, epic.id) then (s, -1)
    else (s.(epics := s.epics[epic.id := epic]), epic.id)
  }

  /** getEpic: an unknown id reaches history.add(null), which throws. */
  function GetEpic(s: Store, id: int): Result<(Store, Task)> {
    if id in s.epics then Success(Viewed(s, s.epics[id])) else Failure(NullPointer)
  }

  /** updateEpic: only the stored epic's name and description change. */
  function UpdateEpic(s: Store, epic: Task): Store
    requires epic.Epic?
  {
    if epic.id in s.epics then
      s.(epics := s.epics[epic.id := s.epics[epic.id].(name := epic.name, description := epic.description)])
    else s
  }

  /** The subtasks owned by the epics in `es`. */
  function Owned(s: Store, es: set<int>): set<int> {
    set sid | sid in s.subtasks && s.subtasks[sid].Subtask? && s.subtasks[sid].epicId in es
  }

  /**
   * clearEpicSubtasks applied to every epic in `es`: their subtasks leave the
   * subtasks map, the prioritized set and the history; each epic's set is
   * emptied and its status set to NEW, its time window left as it was.
   */
  function ClearOwned(s: Store, es: set<int>): Store
    requires Kinds(s) && es <= s.epics.Keys
  {
    var gone := Owned(s, es);
    Store(
      s.tasks,
      map e | e in s.epics :: if e in es then ClearSubtaskIds(s.epics[e]).(status := NEW) else s.epics[e],
      map sid | sid in s.subtasks && sid !in gone :: s.subtasks[sid],
      Filter(s.schedule, (x: Task) => !(x.Subtask? && x.id in gone)),
      WithoutAll(s.history, gone))
  }

  /** clearEpicSubtasks: a no-op for an unknown epic. */
  function ClearEpicSubtasks(s: Store, id: int): Store
    requires Kinds(s)
  {
    if id in s.epics then ClearOwned(s, {id}) else s
  }

  /** removeEpic: its subtasks are cleared, then the epic goes, then any history entry with its id. */
  function RemoveEpic(s: Store, id: int): Store
    requires Kinds(s)
  {
    var c := ClearEpicSubtasks(s, id);
    c.(epics := c.epics - {id}, history := Without(c.history, id))
  }

  /**
   * clearEpics: no epics and no subtasks; the prioritized set is rebuilt
   * from the tasks; the cleared epics and subtasks leave the history (the
   * source keeps them there, see module AsWritten).
   */
  function ClearEpics(s: Store): Store {
    s.(epics := map[], subtasks := map[], schedule := Filter(s.schedule, (x: Task) => x.Task?),
       history := WithoutAll(s.history, s.epics.Keys + s.subtasks.Keys))
  }

  /**
   * addSubtask: -1 for an unknown epic, a used id or a clash; otherwise the
   * epic lists the subtask, the subtask is stored, the epic's fields are
   * recomputed and the subtask is scheduled if it has a start and an end.
   */
  ghost function AddSubtask(s: Store, subtask: Task): (Store, int)
    requires Linked(s) && Schedule.Valid(s.schedule) && subtask.Subtask?
  {
    if subtask.epicId !in s.epics || Contains(s, subtask.id) || IsIntersectedTask(s.schedule, subtask)
    then (s, -1)
    else
      var subs := s.subtasks[subtask.id := subtask];
      var epic := AddSubtaskId(s.epics[subtask.epicId], subtask.id);
      (s.(epics := s.epics[subtask.epicId := ComputeEpicFields(epic, subs)],
          subtasks := subs,
          schedule := Admit(s.schedule, subtask)),
       subtask.id)
  }

  /** getSubtask. */
  function GetSubtask(s: Store, id: int): Result<(Store, Task)> {
    if id in s.subtasks then Success(Viewed(s, s.subtasks[id])) else Failure(NullPointer)
  }

  /**
   * updateSubtask: for a stored id and no clash, the new version replaces
   * the old one in the map and in the prioritized set, and its epic is
   * recomputed.  A version naming another epic is refused.
   */
  ghost function UpdateSubtask(s: Store, subtask: Task): Store
    requires Linked(s) && Schedule.Valid(s.schedule) && subtask.Subtask?
  {
    if subtask.id !in s.subtasks || IsIntersectedTask(s.schedule, subtask) then s
    else
      var previous := s.subtasks[subtask.id];
      if previous.epicId != subtask.epicId then s
      else
        var subs := s.subtasks[subtask.id := subtask];
        s.(subtasks := subs,
           epics := s.epics[subtask.epicId := ComputeEpicFields(s.epics[subtask.epicId], subs)],
           schedule := Admit(Evict(s.schedule, previous), subtask))
  }

  /**
   * removeSubtask: for a stored id, the epic drops it and is recomputed, and
   * the subtask leaves the prioritized set, the map and the history.
   */
  ghost function RemoveSubtask(s: Store, id: int): Store
    requires Linked(s)
  {
    if id !in s.subtasks then s
    else
      var subtask := s.subtasks[id];
      var epic := RemoveSubtaskId(s.epics[subtask.epicId], id);
      s.(epics := s.epics[subtask.epicId := ComputeEpicFields(epic, s.subtasks)],
         schedule := Evict(s.schedule, subtask),
         subtasks := s.subtasks - {id},
         history := Without(s.history, id))
  }

  /** clearSubtasks: clearEpicSubtasks for every epic. */
  function ClearSubtasks(s: Store): Store
    requires Kinds(s)
  {
    ClearOwned(s, s.epics.Keys)
  }

  /**
   * addTask: -1 for a used id, an object that is not exactly a Task, or a
   * clash; otherwise the task is stored, scheduled if it has a start and an
   * end, and its id returned.
   */
  function AddTask(s: Store, task: Task): (Store, int)
    requires Schedule.Valid(s.schedule)
  {
    if Contains(s, task.id) || !task.Task? || IsIntersectedTask(s.schedule, task) then (s, -1)
    else (s.(tasks := s.tasks[task.id := task], schedule := Admit(s.schedule, task)), task.id)
  }

  /** getTask. */
  function GetTask(s: Store, id: int): Result<(Store, Task)> {
    if id in s.tasks then Success(Viewed(s, s.tasks[id])) else Failure(NullPointer)
  }

  /** updateTask: for a stored id and no clash, the old version leaves the prioritized set and the new one replaces it. */
  function UpdateTask(s: Store, task: Task): Store
    requires Schedule.Valid(s.schedule) && task.Task?
  {
    if task.id !in s.tasks || IsIntersectedTask(s.schedule, task) then s
    else s.(tasks := s.tasks[task.id := task], schedule := Admit(Evict(s.schedule, s.tasks[task.id]), task))
  }

  /** removeTask: an unknown id dereferences null; otherwise the task leaves the set, the map and the history. */
  function RemoveTask(s: Store, id: int): Result<Store> {
    if id !in s.tasks then Failure(NullPointer)
    else Success(s.(schedule := Evict(s.schedule, s.tasks[id]), tasks := s.tasks - {id},
                    history := Without(s.history, id)))
  }

  /**
   * clearTasks: no tasks; the prioritized set is rebuilt from the subtasks;
   * the cleared tasks leave the history (the source keeps them there, see
   * module AsWritten).
   */
  function ClearTasks(s: Store): Store {
    s.(tasks := map[], schedule := Filter(s.schedule, (x: Task) => x.Subtask?),
       history := WithoutAll(s.history, s.tasks.Keys))
  }

  /** clearAllData: every map, the prioritized set and the history are emptied. */
  function ClearAllData(s: Store): Store {
    Empty
  }
}
