/**
 * FileBackedTaskManager: the in-memory manager whose every change, and every
 * get, is written through to a data file.  The superclass part is the
 * InMemoryTaskManager object `registry`; the data file is the sequence of its
 * lines `data`.  `Save` writes the header, the epic rows, the subtask rows,
 * the task rows and the history line (module Snapshot); `FillDataFromFile`
 * reads a file back through the registry's own add operations and is proved
 * against `Load` (module Loading), whose round trip is proved in module Reload.
 */
module FileBacked {
  import opened Wrappers
  import opened Entities
  import opened History
  import opened Registry
  import opened RegistryLaws
  import opened Rows
  import opened Snapshot
  import opened Loading
  import opened Manager
  import opened Sets

  /**
   * One loop of saveData: the rows of every entity of `m` appended, in the
   * order the map is walked (a HashMap's order, any order here).
   */
  method WriteRows(lines: seq<string>, m: map<int, Task>) returns (r: seq<string>, ghost order: seq<int>)
    ensures Enumerates(order, m)
    ensures r == lines + RowsOf(order, m)
  {
    r := lines;
    order := [];
    var rest := m.Keys;
    while rest != {}
      invariant rest <= m.Keys && Distinct(order)
      invariant forall y :: y in order <==> y in m.Keys && y !in rest
      invariant forall k | 0 <= k < |order| :: order[k] in m
      invariant r == lines + RowsOf(order, m)
      decreases |rest|
    {
      var id := Choose(rest);
      Advance(m.Keys, rest, order, id);
      assert RowsOf(order + [id], m) == RowsOf(order, m) + [ToSaveString(m[id])];
      r := r + [ToSaveString(m[id])];
      order := order + [id];
      rest := rest - {id};
    }
  }

  /** `lines` is what save writes for `s` when it walks the maps in the orders given. */
  ghost predicate SaveOf(lines: seq<string>, s: Store, eo: seq<int>, so: seq<int>, to: seq<int>) {
    && Enumerates(eo, s.epics) && Enumerates(so, s.subtasks) && Enumerates(to, s.tasks)
    && lines == SaveLines(s, eo, so, to)
  }

  /** saveFileHeader, then saveData: the header, the rows of the three maps in turn, the history line. */
  method SaveData(ghost s: Store, epics: map<int, Task>, subtasks: map<int, Task>, tasks: map<int, Task>, history: string)
    returns (lines: seq<string>, ghost eo: seq<int>, ghost so: seq<int>, ghost to: seq<int>)
    requires epics == s.epics && subtasks == s.subtasks && tasks == s.tasks
    requires history == HistoryText(IdsOf(s.history))
    ensures SaveOf(lines, s, eo, so, to)
  {
    lines := [Header()];
    lines, eo := WriteRows(lines, epics);
    lines, so := WriteRows(lines, subtasks);
    lines, to := WriteRows(lines, tasks);
    lines := lines + [history];
  }

  class FileBackedTaskManager {
    /** The superclass part: the maps, the prioritized set and the history manager. */
    const registry: InMemoryTaskManager
    /** The lines of the data file, as last written or read. */
    var data: seq<string>
    /** The orders in which the last save walked the three maps. */
    ghost var epicOrder: seq<int>
    ghost var subtaskOrder: seq<int>
    ghost var taskOrder: seq<int>

    ghost predicate Valid()
      reads registry, registry.historyManager, registry.historyManager.nodes
    {
      registry.Valid()
    }

    /** The data file is what `save` writes for the registry as it is now. */
    ghost predicate Saved()
      reads this, registry, registry.historyManager
    {
      SaveOf(data, registry.Model(), epicOrder, subtaskOrder, taskOrder)
    }

    /** The object before the constructor looks at the file: an empty registry over `h`, the file's lines. */
    constructor (h: HistoryManager, file: seq<string>)
      requires h.Valid()
      ensures Valid() && registry.historyManager == h && fresh(registry) && registry.liveEpics == {}
      ensures registry.Model() == Store(map[], map[], map[], [], h.Contents())
      ensures data == file
    {
      registry := new InMemoryTaskManager(h);
      data := file;
      epicOrder := [];
      subtaskOrder := [];
      taskOrder := [];
    }

    /**
     * save: the header, then every epic, every subtask and every task, then
     * the history line; the file is rewritten from scratch.
     */
    method Save()
      requires registry.historyManager.Valid()
      modifies this
      ensures Saved()
    {
      var lines;
      ghost var eo, so, to;
      lines, eo, so, to := Snapshot();
      data, epicOrder, subtaskOrder, taskOrder := lines, eo, so, to;
    }

    /** What save writes for the registry as it is: the three maps walked in turn, then the history line. */
    method Snapshot() returns (lines: seq<string>, ghost eo: seq<int>, ghost so: seq<int>, ghost to: seq<int>)
      requires registry.historyManager.Valid()
      ensures SaveOf(lines, registry.Model(), eo, so, to)
    {
      var epics := registry.GetEpics();
      var subtasks := registry.GetSubtasks();
      var tasks := registry.GetTasks();
      var history := HistoryToString(registry.historyManager);
      lines, eo, so, to := SaveData(registry.Model(), epics, subtasks, tasks, history);
    }

    // ----- the write-through overrides: the superclass operation, then save -----

    method AddEpic(epic: Task) returns (id: int)
      requires Valid() && epic.Epic? && epic.subtaskIds == {}
      modifies this, registry
      ensures registry.liveEpics == old(registry.liveEpics)
      ensures (registry.Model(), id) == Registry.AddEpic(old(registry.Model()), epic)
      ensures Valid() && Saved()
    {
      id := registry.AddEpic(epic);
      Save();
    }

    method UpdateEpic(epic: Task)
      requires Valid() && epic.Epic?
      modifies this, registry
      ensures registry.liveEpics == old(registry.liveEpics)
      ensures registry.Model() == Registry.UpdateEpic(old(registry.Model()), epic)
      ensures Valid() && Saved()
    {
      registry.UpdateEpic(epic);
      Save();
    }

    method RemoveEpic(id: int)
      requires Valid()
      modifies this, registry, registry.historyManager, registry.historyManager.nodes
      ensures registry.liveEpics == old(registry.liveEpics)
      ensures registry.Model() == Registry.RemoveEpic(old(registry.Model()), id)
      ensures Valid() && Saved()
    {
      registry.RemoveEpic(id);
      Save();
    }

    method ClearEpics()
      requires Valid()
      modifies this, registry, registry.historyManager, registry.historyManager.nodes
      ensures registry.liveEpics == old(registry.liveEpics)
      ensures registry.Model() == Registry.ClearEpics(old(registry.Model()))
      ensures Valid() && Saved()
    {
      registry.ClearEpics();
      Save();
    }

    method AddSubtask(subtask: Task) returns (id: int)
      requires Valid() && subtask.Subtask?
      modifies this, registry
      ensures registry.liveEpics == old(registry.liveEpics)
      ensures (registry.Model(), id) == Registry.AddSubtask(old(registry.Model()), subtask)
      ensures Valid() && Saved()
    {
      id := registry.AddSubtask(subtask);
      Save();
    }

    method UpdateSubtask(subtask: Task)
      requires Valid() && subtask.Subtask?
      modifies this, registry
      ensures registry.liveEpics == old(registry.liveEpics)
      ensures registry.Model() == Registry.UpdateSubtask(old(registry.Model()), subtask)
      ensures Valid() && Saved()
    {
      registry.UpdateSubtask(subtask);
      Save();
    }

    method RemoveSubtask(id: int)
      requires Valid()
      modifies this, registry, registry.historyManager, registry.historyManager.nodes
      ensures registry.liveEpics == old(registry.liveEpics)
      ensures registry.Model() == Registry.RemoveSubtask(old(registry.Model()), id)
      ensures Valid() && Saved()
    {
      registry.RemoveSubtask(id);
      Save();
    }

    method ClearEpicSubtasks(id: int)
      requires Valid()
      modifies this, registry, registry.historyManager, registry.historyManager.nodes
      ensures registry.liveEpics == old(registry.liveEpics)
      ensures registry.Model() == Registry.ClearEpicSubtasks(old(registry.Model()), id)
      ensures Valid() && Saved()
    {
      registry.ClearEpicSubtasks(id);
      Save();
    }

    method ClearSubtasks()
      requires Valid()
      modifies this, registry, registry.historyManager, registry.historyManager.nodes
      ensures registry.liveEpics == old(registry.liveEpics)
      ensures registry.Model() == Registry.ClearSubtasks(old(registry.Model()))
      ensures Valid() && Saved()
    {
      registry.ClearSubtasks();
      Save();
    }

    method AddTask(task: Task) returns (id: int)
      requires Valid()
      modifies this, registry
      ensures registry.liveEpics == old(registry.liveEpics)
      ensures (registry.Model(), id) == Registry.AddTask(old(registry.Model()), task)
      ensures Valid() && Saved()
    {
      id := registry.AddTask(task);
      Save();
    }

    method UpdateTask(task: Task)
      requires Valid() && task.Task?
      modifies this, registry
      ensures registry.liveEpics == old(registry.liveEpics)
      ensures registry.Model() == Registry.UpdateTask(old(registry.Model()), task)
      ensures Valid() && Saved()
    {
      registry.UpdateTask(task);
      Save();
    }

    /** removeTask of an unknown id throws before save, so the file is not rewritten. */
    method RemoveTask(id: int) returns (r: Result<()>)
      requires Valid()
      modifies this, registry, registry.historyManager, registry.historyManager.nodes
      ensures registry.liveEpics == old(registry.liveEpics)
      ensures r.Failure? ==> Registry.RemoveTask(old(registry.Model()), id) == Failure(r.error)
      ensures r.Failure? ==> registry.Model() == old(registry.Model()) && data == old(data)
      ensures r.Success? ==> Registry.RemoveTask(old(registry.Model()), id) == Success(registry.Model()) && Saved()
      ensures Valid()
    {
      r := registry.RemoveTask(id);
      if r.Success? {
        Save();
      }
    }

    method ClearTasks()
      requires Valid()
      modifies this, registry, registry.historyManager, registry.historyManager.nodes
      ensures registry.liveEpics == old(registry.liveEpics)
      ensures registry.Model() == Registry.ClearTasks(old(registry.Model()))
      ensures Valid() && Saved()
    {
      registry.ClearTasks();
      Save();
    }

    method ClearAllData()
      requires Valid()
      modifies this, registry, registry.historyManager
      ensures registry.liveEpics == old(registry.liveEpics)
      ensures registry.Model() == Registry.ClearAllData(old(registry.Model()))
      ensures Valid() && Saved()
    {
      registry.ClearAllData();
      Save();
    }

    /** A get records the view and saves; an unknown id throws before save. */
    method GetEpic(id: int) returns (r: Result<Task>)
      requires Valid()
      modifies this, registry, registry.historyManager, registry.historyManager.nodes
      ensures Answers(Registry.GetEpic(old(registry.Model()), id), r, old(registry.Model()), registry.Model())
      ensures registry.liveEpics == if r.Success? then old(registry.liveEpics) + {id} else old(registry.liveEpics)
      ensures r.Success? ==> Saved()
      ensures r.Failure? ==> data == old(data)
      ensures Valid()
    {
      r := registry.GetEpic(id);
      if r.Success? {
        Save();
      }
    }

    method GetSubtask(id: int) returns (r: Result<Task>)
      requires Valid()
      modifies this, registry.historyManager, registry.historyManager.nodes
      ensures Answers(Registry.GetSubtask(old(registry.Model()), id), r, old(registry.Model()), registry.Model())
      ensures r.Success? ==> Saved()
      ensures r.Failure? ==> data == old(data)
      ensures Valid()
    {
      r := registry.GetSubtask(id);
      if r.Success? {
        Save();
      }
    }

    method GetTask(id: int) returns (r: Result<Task>)
      requires Valid()
      modifies this, registry.historyManager, registry.historyManager.nodes
      ensures Answers(Registry.GetTask(old(registry.Model()), id), r, old(registry.Model()), registry.Model())
      ensures r.Success? ==> Saved()
      ensures r.Failure? ==> data == old(data)
      ensures Valid()
    {
      r := registry.GetTask(id);
      if r.Success? {
        Save();
      }
    }

    // ----- reading a data file -----

    /**
     * fillDataFromFile: each line read in turn (the header and empty lines
     * skipped, rows decoded by their first field and handed to the
     * superclass add, anything else parsed as history ids), then the history
     * ids replayed into the history manager.  The outcome is `Load` of the
     * registry and counter it started from.
     */
    method FillDataFromFile(counter: IdCounter, lines: seq<string>) returns (r: Result<()>)
      requires Valid()
      modifies registry, registry.historyManager, registry.historyManager.nodes, counter
      ensures var expected := Load(old(registry.Model()), old(counter.total), lines);
        && (r.Success? <==> expected.Success?)
        && (r.Failure? ==> r.error == expected.error)
        && (r.Success? ==> Valid() && (registry.Model(), counter.total) == expected.value)
      ensures r.Success? ==>
        registry.liveEpics == LoadRelinked(old(registry.Model()), old(counter.total), lines, old(registry.liveEpics))
    {
      ghost var start := Start(registry.Model(), counter.total);
      ghost var marked := registry.liveEpics;
      var read := ReadLines(counter, lines);
      if read.Failure? {
        LoadOfFill(start.store, start.total, lines);
        return Failure(read.error);
      }
      var loadedTasks, live, loadedHistory := read.value.0, read.value.1, read.value.2;
      ghost var p := Loader(registry.Model(), counter.total, loadedTasks, live, loadedHistory);
      LoadOfFill(start.store, start.total, lines);
      r := ReplayHistory(p, loadedTasks, live, loadedHistory);
      if r.Success? {
        assert Fill(start, lines, |lines|) == Success(p);
        assert LoadRelinked(start.store, start.total, lines, marked) == Relinked(p, |p.history|, marked);
        Relink(p, live, loadedHistory);
      }
    }

    /** The reading loop of fillDataFromFile, line by line until the last or the first failure. */
    method ReadLines(counter: IdCounter, lines: seq<string>) returns (r: Result<(map<int, Task>, set<int>, seq<int>)>)
      requires Valid()
      modifies registry, counter
      ensures registry.liveEpics == old(registry.liveEpics)
      ensures var expected := Fill(Start(old(registry.Model()), old(counter.total)), lines, |lines|);
        && (r.Success? <==> expected.Success?)
        && (r.Failure? ==> r.error == expected.error)
        && (r.Success? ==> Valid() && expected.value == Loader(registry.Model(), counter.total, r.value.0, r.value.1, r.value.2))
    {
      ghost var start := Start(registry.Model(), counter.total);
      var loadedTasks: map<int, Task> := map[];
      var live: set<int> := {};
      var loadedHistory: seq<int> := [];
      var i := 0;
      while i < |lines|
        invariant registry.liveEpics == old(registry.liveEpics)
        invariant 0 <= i <= |lines| && Valid() && Inv(start.store)
        invariant Fill(start, lines, i) == Success(Loader(registry.Model(), counter.total, loadedTasks, live, loadedHistory))
      {
        ghost var q := Loader(registry.Model(), counter.total, loadedTasks, live, loadedHistory);
        FillNext(start, lines, i, q);
        var next := ReadLine(counter, i, lines[i], loadedTasks, live, loadedHistory);
        if next.Failure? {
          FillStops(start, lines, i + 1, |lines|, next.error);
          return Failure(next.error);
        }
        loadedTasks, live, loadedHistory := next.value.0, next.value.1, next.value.2;
        i := i + 1;
      }
      r := Success((loadedTasks, live, loadedHistory));
    }

    /**
     * One turn of the reading loop over line `i`: the header and empty lines
     * skipped, a row decoded and handed to the superclass add, a history line
     * parsed; the collected objects, live ids and history ids after it.
     */
    method ReadLine(counter: IdCounter, i: nat, line: string,
                    loadedTasks: map<int, Task>, live: set<int>, loadedHistory: seq<int>)
      returns (r: Result<(map<int, Task>, set<int>, seq<int>)>)
      requires Valid()
      modifies registry, counter
      ensures registry.liveEpics == old(registry.liveEpics)
      ensures var p := Loader(old(registry.Model()), old(counter.total), loadedTasks, live, loadedHistory);
        && (r.Success? <==> Step(p, i, line).Success?)
        && (r.Failure? ==> r.error == Step(p, i, line).error)
        && (r.Success? ==>
              Valid() && Step(p, i, line).value == Loader(registry.Model(), counter.total, r.value.0, r.value.1, r.value.2))
    {
      match Classify(i, line)
      case Skipped =>
        r := Success((loadedTasks, live, loadedHistory));
      case HistoryRow(text) =>
        var ids := HistoryFromString(text);
        if ids.Failure? {
          return Failure(ids.error);
        }
        r := Success((loadedTasks, live, loadedHistory + ids.value));
      case EntityRow(kind, value) =>
        r := ReadRow(counter, kind, value, loadedTasks, live, loadedHistory);
    }

    /** An object row: createFromString, then the superclass add, the object kept under its id. */
    method ReadRow(counter: IdCounter, kind: Kind, value: string,
                   loadedTasks: map<int, Task>, live: set<int>, loadedHistory: seq<int>)
      returns (r: Result<(map<int, Task>, set<int>, seq<int>)>)
      requires Valid()
      modifies registry, counter
      ensures registry.liveEpics == old(registry.liveEpics)
      ensures var p := Loader(old(registry.Model()), old(counter.total), loadedTasks, live, loadedHistory);
        && (r.Success? <==> RowStep(p, kind, value).Success?)
        && (r.Failure? ==> r.error == RowStep(p, kind, value).error)
        && (r.Success? ==>
              Valid() && RowStep(p, kind, value).value == Loader(registry.Model(), counter.total, r.value.0, r.value.1, r.value.2))
    {
      ghost var p := Loader(registry.Model(), counter.total, loadedTasks, live, loadedHistory);
      var decoded := CreateFromString(counter, kind, value);
      if decoded.Failure? {
        return Failure(decoded.error);
      }
      var task := decoded.value;
      assert counter.total == Counted(p.total, kind, value);
      var admitted := AddLoaded(task);
      r := Success((loadedTasks[task.id := task], if admitted then live + {task.id} else live - {task.id}, loadedHistory));
      assert RowStep(p, kind, value).value == Loader(registry.Model(), counter.total, r.value.0, r.value.1, r.value.2);
    }

    /** super.addEpic, super.addSubtask or super.addTask by the object's class; whether the registry took it. */
    method AddLoaded(task: Task) returns (admitted: bool)
      requires Valid() && (task.Epic? ==> task.subtaskIds == {})
      modifies registry
      ensures registry.liveEpics == old(registry.liveEpics)
      ensures Valid() && registry.Model() == Register(old(registry.Model()), task).0
      ensures admitted <==> registry.Model() != old(registry.Model())
    {
      var before := registry.IsTaskContains(task);
      var id;
      if task.Epic? {
        id := registry.AddEpic(task);
      } else if task.Subtask? {
        id := registry.AddSubtask(task);
      } else {
        id := registry.AddTask(task);
      }
      admitted := !before && registry.IsTaskContains(task);
    }

    /**
     * The replayed ids' standing after the replay: each refers to the stored
     * epic exactly when its row was admitted as one (module Loading, Relinked).
     */
    method Relink(ghost p: Loader, live: set<int>, loadedHistory: seq<int>)
      requires p.live == live && p.history == loadedHistory && p.store.epics == registry.epics
      modifies registry
      ensures registry.liveEpics == Relinked(p, |p.history|, old(registry.liveEpics))
      ensures registry.Model() == old(registry.Model())
    {
      registry.liveEpics := (set id | id in registry.liveEpics && id !in loadedHistory)
        + (set id | id in loadedHistory && id in live && id in registry.epics);
      assert loadedHistory[..|loadedHistory|] == loadedHistory;
    }

    /**
     * The replay loop: historyManager.add of the object collected under each
     * history id, in file order; an id no row carried is add(null).
     */
    method ReplayHistory(ghost p: Loader, loadedTasks: map<int, Task>, live: set<int>, loadedHistory: seq<int>)
      returns (r: Result<()>)
      requires Valid() && p == Loader(registry.Model(), p.total, loadedTasks, live, loadedHistory)
      modifies registry.historyManager, registry.historyManager.nodes
      ensures r.Success? <==> Replay(p, |p.history|).Success?
      ensures r.Failure? ==> r.error == Replay(p, |p.history|).error
      ensures r.Success? ==> Valid() && registry.Model() == Replay(p, |p.history|).value
    {
      ReplayKeepsInv(p, |loadedHistory|);
      var k := 0;
      while k < |loadedHistory|
        invariant 0 <= k <= |loadedHistory| && registry.historyManager.Valid()
        invariant Replay(p, k) == Success(registry.Model())
        invariant forall n | n in registry.historyManager.nodes :: n in old(registry.historyManager.nodes) || fresh(n)
      {
        var id := loadedHistory[k];
        if id !in loadedTasks {
          ReplayStops(p, k);
          return Failure(NullPointer);
        }
        var entry := loadedTasks[id];
        if id in live && id in registry.epics {
          entry := registry.epics[id];
        } else if id in live && id in registry.subtasks {
          entry := registry.subtasks[id];
        } else if id in live && id in registry.tasks {
          entry := registry.tasks[id];
        }
        assert entry == Entry(p, id);
        ghost var s := registry.Model();
        var k' := k + 1;
        ReplayNext(p, k, k', s);
        registry.historyManager.Add(entry);
        assert registry.Model() == s.(history := registry.historyManager.Contents());
        k := k';
      }
      r := Success(());
    }

    /**
     * The constructor FileBackedTaskManager(historyManager, dataFile): an
     * existing file (`Some` of its lines) is read into the new manager, a
     * missing one is created empty.
     */
    static method Open(h: HistoryManager, counter: IdCounter, file: Option<seq<string>>)
      returns (r: Result<FileBackedTaskManager>)
      requires h.Valid()
      modifies h, h.nodes, counter
      ensures file.None? ==> r.Success? && r.value.data == [] && r.value.registry.Model() == Empty.(history := old(h.Contents()))
      ensures file.None? ==> r.value.registry.liveEpics == {}
      ensures file.Some? ==>
        var expected := Load(Empty.(history := old(h.Contents())), old(counter.total), file.value);
        && (r.Success? <==> expected.Success?)
        && (r.Failure? ==> r.error == expected.error)
        && (r.Success? ==> (r.value.registry.Model(), counter.total) == expected.value && r.value.data == file.value)
      ensures file.Some? && r.Success? ==>
        r.value.registry.liveEpics == LoadRelinked(Empty.(history := old(h.Contents())), old(counter.total), file.value, {})
      ensures r.Success? ==> fresh(r.value) && r.value.Valid() && r.value.registry.historyManager == h
    {
      if file.None? {
        var m := new FileBackedTaskManager(h, []);
        return Success(m);
      }
      var m := new FileBackedTaskManager(h, file.value);
      var filled := m.FillDataFromFile(counter, file.value);
      if filled.Failure? {
        return Failure(filled.error);
      }
      r := Success(m);
    }
  }

  /**
   * loadFromFile: a missing file is a ManagerLoadException; an existing one
   * is read into a manager with a new, empty history.
   */
  method LoadFromFile(counter: IdCounter, file: Option<seq<string>>) returns (r: Result<FileBackedTaskManager>)
    modifies counter
    ensures file.None? ==> r == Failure(LoadFailure)
    ensures file.Some? ==>
      var expected := Load(Empty, old(counter.total), file.value);
      && (r.Success? <==> expected.Success?)
      && (r.Failure? ==> r.error == expected.error)
      && (r.Success? ==> (r.value.registry.Model(), counter.total) == expected.value && r.value.data == file.value)
    ensures file.Some? && r.Success? ==> r.value.registry.liveEpics == LoadRelinked(Empty, old(counter.total), file.value, {})
    ensures r.Success? ==> fresh(r.value) && r.value.Valid()
  {
    if file.None? {
      return Failure(LoadFailure);
    }
    var h := new HistoryManager();
    r := FileBackedTaskManager.Open(h, counter, file);
  }
}
