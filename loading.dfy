/**
 * fillDataFromFile of FileBackedTaskManager on values: the lines of a data
 * file are read one at a time into the registry through its own add
 * operations, the history ids are collected on the way, and once every line
 * is read they are replayed into the history in file order.
 */
module Loading {
  import opened Wrappers
  import opened Entities
  import opened History
  import opened Registry
  import opened RegistryLaws
  import opened Rows
  import opened Snapshot

  /**
   * A load between two lines: the registry so far, the id counter, the last
   * object read under each id (loadedTasks), the ids whose last object read
   * is the one the registry holds, and the history ids collected so far
   * (loadedHistory).
   */
  datatype Loader = Loader(
    store: Store,
    total: Int32,
    loaded: map<int, Task>,
    live: set<int>,
    history: seq<int>)

  /** A load that has not read a line yet. */
  function Start(s: Store, total: Int32): Loader {
    Loader(s, total, map[], {}, [])
  }

  /** The counter after createFromString ran the explicit-id constructor, if it did. */
  function Counted(total: Int32, kind: Kind, data: string): Int32 {
    match ConstructedId(kind, data)
    case None => total
    case Some(id) => if id > total then id else total
  }

  /** super.addEpic, super.addSubtask or super.addTask, by the class of the decoded row. */
  ghost function Register(s: Store, t: Task): (r: (Store, int))
    requires Inv(s) && (t.Epic? ==> t.subtaskIds == {})
    ensures Inv(r.0)
    ensures r.0 == s ==> r.1 == -1
    ensures r.0 != s ==> r.1 == t.id && !Contains(s, t.id) && Contains(r.0, t.id)
    ensures forall x | Contains(s, x) :: Contains(r.0, x)
  {
    if t.Epic? then
      AddEpicKeepsInv(s, t);
      AddEpic(s, t)
    else if t.Subtask? then
      AddSubtaskKeepsInv(s, t);
      AddSubtask(s, t)
    else
      AddTaskKeepsInv(s, t);
      AddTask(s, t)
  }

  /**
   * One line of the file: skipped, a row registered and remembered under its
   * id, or history ids appended.  A row that does not decode and a history
   * line that does not parse abort the load.
   */
  ghost function Step(p: Loader, i: nat, line: string): (r: Result<Loader>)
    requires Inv(p.store)
    ensures r.Success? ==> Inv(r.value.store)
  {
    match Classify(i, line)
    case Skipped => Success(p)
    case HistoryRow(text) =>
      (match HistoryIds(text)
       case Failure(e) => Failure(e)
       case Success(ids) => Success(p.(history := p.history + ids)))
    case EntityRow(kind, data) => RowStep(p, kind, data)
  }

  /**
   * One object row: decoded, handed to the registry, remembered under its id
   * and marked live exactly when the registry took it.
   */
  ghost function RowStep(p: Loader, kind: Kind, data: string): (r: Result<Loader>)
    requires Inv(p.store)
    ensures r.Success? ==> Inv(r.value.store)
  {
    match Decode(kind, data)
    case Failure(e) => Failure(e)
    case Success(t) =>
      var s := Register(p.store, t).0;
      Success(Loader(s, Counted(p.total, kind, data), p.loaded[t.id := t],
                     if s == p.store then p.live - {t.id} else p.live + {t.id}, p.history))
  }

  /**
   * A line number wrapped in a constructor: asserting two wrapped numbers
   * equal makes the solver treat the two index expressions as one term.
   */
  datatype Mark = Mark(line: int)

  /** The first `n` lines read, or the first failure among them. */
  ghost function Fill(start: Loader, lines: seq<string>, n: nat): (r: Result<Loader>)
    requires Inv(start.store) && n <= |lines|
    ensures r.Success? ==> Inv(r.value.store)
    decreases n
  {
    if n == 0 then Success(start)
    else
      match Fill(start, lines, n - 1)
      case Failure(e) => Failure(e)
      case Success(p) => Step(p, n - 1, lines[n - 1])
  }

  /** The entity the registry holds under a used id. */
  function Current(s: Store, id: int): Task
    requires Contains(s, id)
  {
    if id in s.epics then s.epics[id] else if id in s.subtasks then s.subtasks[id] else s.tasks[id]
  }

  /**
   * What loadedTasks.get(id) refers to once every row is read: the object
   * the registry holds when the last row with that id was admitted (an epic
   * object keeps changing as its subtasks arrive), the refused object otherwise.
   */
  ghost function Entry(p: Loader, id: int): Task
    requires id in p.loaded
  {
    if id in p.live && Contains(p.store, id) then Current(p.store, id) else p.loaded[id]
  }

  /**
   * The first `n` collected ids replayed into the history with
   * historyManager.add; an id no row carried gives add(null), which throws.
   */
  ghost function Replay(p: Loader, n: nat): (r: Result<Store>)
    requires n <= |p.history|
    ensures r.Success? ==> r.value == p.store.(history := r.value.history)
    decreases n
  {
    if n == 0 then Success(p.store)
    else
      match Replay(p, n - 1)
      case Failure(e) => Failure(e)
      case Success(s) =>
        var id := p.history[n - 1];
        if id !in p.loaded then Failure(NullPointer)
        else Success(Viewed(s, Entry(p, id)).0)
  }

  /** fillDataFromFile on a registry `s`: every line read, then the history replayed; the registry and the counter after it. */
  ghost function Load(s: Store, total: Int32, lines: seq<string>): (r: Result<(Store, Int32)>)
    requires Inv(s)
    ensures r.Success? ==> Inv(r.value.0)
  {
    match Fill(Start(s, total), lines, |lines|)
    case Failure(e) => Failure(e)
    case Success(p) =>
      ReplayKeepsInv(p, |p.history|);
      match Replay(p, |p.history|)
      case Failure(e) => Failure(e)
      case Success(r) => Success((r, p.total))
  }

  /**
   * The ids whose history entry is the registry's own Epic object once the
   * first `n` collected ids are replayed.  A replayed id is one exactly when
   * its last row was admitted as an epic, since loadedTasks then refers to
   * the stored object; a refused row's object is another object with that
   * id.  An id not replayed keeps its standing from `before`.
   */
  ghost function Relinked(p: Loader, n: nat, before: set<int>): set<int>
    requires n <= |p.history|
  {
    (set id | id in before && id !in p.history[..n])
      + (set id | id in p.history[..n] && id in p.live && id in p.store.epics)
  }

  /** The ids marked as the stored epic object after fillDataFromFile read `lines` into `s`. */
  ghost function LoadRelinked(s: Store, total: Int32, lines: seq<string>, before: set<int>): set<int>
    requires Inv(s)
  {
    match Fill(Start(s, total), lines, |lines|)
    case Failure(_) => before
    case Success(p) => Relinked(p, |p.history|, before)
  }

  /** One more line read: the load so far, stepped over that line. */
  lemma FillNext(start: Loader, lines: seq<string>, i: nat, q: Loader)
    requires Inv(start.store) && i < |lines| && Fill(start, lines, i) == Success(q)
    ensures Inv(q.store) && Fill(start, lines, i + 1) == Step(q, i, lines[i])
  {
  }

  /** Once a line fails, every longer prefix fails the same way. */
  lemma {:induction false} FillStops(start: Loader, lines: seq<string>, i: nat, n: nat, e: Fault)
    requires Inv(start.store) && i <= n <= |lines| && Fill(start, lines, i) == Failure(e)
    ensures Fill(start, lines, n) == Failure(e)
    decreases n - i
  {
    if i < n {
      var j: nat := i + 1;
      assert Mark(j - 1) == Mark(i);
      assert Fill(start, lines, j) == Failure(e);
      FillStops(start, lines, j, n, e);
    }
  }

  /** Load is the replay of what the lines filled, or the failure of the filling. */
  lemma LoadOfFill(s: Store, total: Int32, lines: seq<string>)
    requires Inv(s)
    ensures var f := Fill(Start(s, total), lines, |lines|);
      && (f.Failure? ==> Load(s, total, lines) == Failure(f.error))
      && (f.Success? ==>
            var p := f.value;
            Load(s, total, lines) ==
              match Replay(p, |p.history|)
              case Failure(e) => Failure(e)
              case Success(r) => Success((r, p.total)))
  {
  }

  /** One more history id replayed: the entity behind it added to the history. */
  lemma ReplayNext(p: Loader, k: nat, k': nat, s: Store)
    requires k' == k + 1 && k < |p.history| && p.history[k] in p.loaded && Replay(p, k) == Success(s)
    ensures Replay(p, k') == Success(s.(history := Added(s.history, Entry(p, p.history[k]))))
  {
    assert Mark(k + 1) == Mark(k');
  }

  /** A history id no row carried stops the replay with the NullPointerException of add(null). */
  lemma ReplayStops(p: Loader, k: nat)
    requires k < |p.history| && p.history[k] !in p.loaded
    ensures Replay(p, |p.history|) == Failure(NullPointer)
  {
    ReplaySucceeds(p, |p.history|);
  }

  /** The replay only adds entries through add, which keeps the registry's invariant. */
  lemma {:induction false} ReplayKeepsInv(p: Loader, n: nat)
    requires Inv(p.store) && n <= |p.history|
    ensures Replay(p, n).Success? ==> Inv(Replay(p, n).value)
    decreases n
  {
    if n > 0 {
      ReplayKeepsInv(p, n - 1);
      if Replay(p, n - 1).Success? && p.history[n - 1] in p.loaded {
        var s := Replay(p, n - 1).value;
        AddedSpec(s.history, Entry(p, p.history[n - 1]));
      }
    }
  }

  // ----- properties -----

  /** Each object is remembered under its own id. */
  predicate Keyed(m: map<int, Task>) {
    forall id | id in m :: m[id].id == id
  }

  /**
   * The dispatch: line 0 and empty lines change nothing; a row is decoded as
   * the kind its first field names and remembered under its id even when the
   * registry refuses it; any other line appends its ids to the collected ones.
   */
  lemma StepRule(p: Loader, i: nat, line: string)
    requires Inv(p.store)
    ensures i == 0 || line == "" ==> Step(p, i, line) == Success(p)
    ensures Classify(i, line).HistoryRow? ==>
      && (Step(p, i, line).Success? <==> HistoryIds(line).Success?)
      && (Step(p, i, line).Success? ==> Step(p, i, line).value == p.(history := p.history + HistoryIds(line).value))
    ensures Classify(i, line).EntityRow? ==>
      var kind := Classify(i, line).kind;
      var data := Classify(i, line).data;
      && (Step(p, i, line).Success? <==> Decode(kind, data).Success?)
      && (Step(p, i, line).Success? ==>
            var t := Decode(kind, data).value;
            var q := Step(p, i, line).value;
            && KindOf(t) == kind
            && q.loaded == p.loaded[t.id := t]
            && q.history == p.history
            && q.total == Counted(p.total, kind, data)
            && q.total >= t.id
            && (t.id in q.live <==> q.store != p.store))
  {
    ClassifyRule(i, line, TASK, "");
    if Classify(i, line).EntityRow? {
      var kind := Classify(i, line).kind;
      var data := Classify(i, line).data;
      if Decode(kind, data).Success? {
        var t := Decode(kind, data).value;
        DecodedIdCounted(kind, data);
      }
    }
  }

  /** A decoded row ran the explicit-id constructor with the row's id. */
  lemma DecodedIdCounted(kind: Kind, data: string)
    requires Decode(kind, data).Success?
    ensures ConstructedId(kind, data) == Some(Decode(kind, data).value.id)
  {
    if kind == SUBTASK {
      ShortRows(data);
      SubtaskFieldsAsTask(data);
    }
  }

  /** The objects read so far are each under their own id, and every live id is used by the registry. */
  predicate Remembered(p: Loader) {
    && Keyed(p.loaded) && p.live <= p.loaded.Keys
    && (forall id | id in p.live :: Contains(p.store, id))
  }

  lemma StepRemembered(p: Loader, i: nat, line: string)
    requires Inv(p.store) && Remembered(p)
    ensures Step(p, i, line).Success? ==> Remembered(Step(p, i, line).value)
  {
    match Classify(i, line)
    case Skipped =>
    case HistoryRow(_) =>
    case EntityRow(kind, data) =>
      if Decode(kind, data).Success? {
        var t := Decode(kind, data).value;
        var s := Register(p.store, t).0;
        assert forall x | Contains(p.store, x) :: Contains(s, x);
      }
  }

  lemma {:induction false} FillRemembered(start: Loader, lines: seq<string>, n: nat)
    requires Inv(start.store) && n <= |lines| && Remembered(start)
    ensures Fill(start, lines, n).Success? ==> Remembered(Fill(start, lines, n).value)
    decreases n
  {
    if n > 0 {
      FillRemembered(start, lines, n - 1);
      if Fill(start, lines, n - 1).Success? {
        StepRemembered(Fill(start, lines, n - 1).value, n - 1, lines[n - 1]);
      }
    }
  }

  /** The counter is at least every id read so far. */
  predicate Counts(p: Loader) {
    forall id | id in p.loaded :: p.total >= id
  }

  /**
   * Each row's explicit-id constructor moves the counter past the row's id
   * and never back, so after the rows the next fresh id is above all of them.
   */
  lemma {:induction false} FillCounts(start: Loader, lines: seq<string>, n: nat)
    requires Inv(start.store) && n <= |lines| && Counts(start)
    ensures Fill(start, lines, n).Success? ==>
      Counts(Fill(start, lines, n).value) && Fill(start, lines, n).value.total >= start.total
    decreases n
  {
    if n > 0 {
      FillCounts(start, lines, n - 1);
      if Fill(start, lines, n - 1).Success? {
        StepRule(Fill(start, lines, n - 1).value, n - 1, lines[n - 1]);
      }
    }
  }

  /**
   * The replay fails exactly when some collected id was carried by no row,
   * and then with the NullPointerException of add(null).
   */
  lemma {:induction false} ReplaySucceeds(p: Loader, n: nat)
    requires n <= |p.history|
    ensures Replay(p, n).Success? <==> forall k | 0 <= k < n :: p.history[k] in p.loaded
    ensures Replay(p, n).Failure? ==> Replay(p, n).error == NullPointer
    decreases n
  {
    if n > 0 {
      ReplaySucceeds(p, n - 1);
    }
  }

  /** The entity behind a collected id carries that id. */
  lemma EntryId(p: Loader, id: int)
    requires Kinds(p.store) && Keyed(p.loaded) && id in p.loaded
    ensures Entry(p, id).id == id
  {
  }

  /**
   * Into an empty history, distinct collected ids that every row carried are
   * replayed in file order: the history lists their entities, one per id.
   */
  lemma {:induction false} ReplayInOrder(p: Loader, n: nat)
    requires Kinds(p.store) && Keyed(p.loaded) && p.store.history == []
    requires n <= |p.history|
    requires forall k | 0 <= k < n :: p.history[k] in p.loaded
    requires forall i, j | 0 <= i < j < n :: p.history[i] != p.history[j]
    ensures Replay(p, n).Success?
    ensures IdsOf(Replay(p, n).value.history) == p.history[..n]
    ensures forall k | 0 <= k < n :: Replay(p, n).value.history[k] == Entry(p, p.history[k])
    decreases n
  {
    ReplaySucceeds(p, n);
    if n > 0 {
      ReplayInOrder(p, n - 1);
      ReplayOneMore(p, n);
    }
  }

  /** The step of ReplayInOrder: replaying one more distinct id appends its entity. */
  lemma ReplayOneMore(p: Loader, n: nat)
    requires Kinds(p.store) && Keyed(p.loaded)
    requires 0 < n <= |p.history|
    requires forall k | 0 <= k < n :: p.history[k] in p.loaded
    requires forall i, j | 0 <= i < j < n :: p.history[i] != p.history[j]
    requires Replay(p, n - 1).Success?
    requires IdsOf(Replay(p, n - 1).value.history) == p.history[..n - 1]
    requires forall k | 0 <= k < n - 1 :: Replay(p, n - 1).value.history[k] == Entry(p, p.history[k])
    ensures Replay(p, n).Success?
    ensures IdsOf(Replay(p, n).value.history) == p.history[..n]
    ensures forall k | 0 <= k < n :: Replay(p, n).value.history[k] == Entry(p, p.history[k])
  {
    var prev := Replay(p, n - 1).value;
    var h := prev.history;
    var id := p.history[n - 1];
    var e := Entry(p, id);
    EntryId(p, id);
    NotYetReplayed(h, p.history, n);
    WithoutUntracked(h, id);
    assert Replay(p, n) == Success(Viewed(prev, e).0);
    assert Replay(p, n).value.history == h + [e];
    ReplayedSnoc(p, h, n);
  }

  /** An id not among the earlier distinct ones is not yet in the history replayed from them. */
  lemma NotYetReplayed(h: seq<Task>, ids: seq<int>, n: nat)
    requires 0 < n <= |ids| && IdsOf(h) == ids[..n - 1]
    requires forall i, j | 0 <= i < j < n :: ids[i] != ids[j]
    ensures !Tracks(h, ids[n - 1])
  {
    forall k | 0 <= k < |h| ensures h[k].id != ids[n - 1] {
      assert h[k].id == IdsOf(h)[k] == ids[k];
    }
  }

  /** One more entry at the end keeps the history in step with the collected ids. */
  lemma ReplayedSnoc(p: Loader, h: seq<Task>, n: nat)
    requires 0 < n <= |p.history| && forall k | 0 <= k < n :: p.history[k] in p.loaded
    requires Entry(p, p.history[n - 1]).id == p.history[n - 1]
    requires IdsOf(h) == p.history[..n - 1]
    requires forall k | 0 <= k < n - 1 :: h[k] == Entry(p, p.history[k])
    ensures var h' := h + [Entry(p, p.history[n - 1])];
      && IdsOf(h') == p.history[..n]
      && forall k | 0 <= k < n :: h'[k] == Entry(p, p.history[k])
  {
    assert p.history[..n] == p.history[..n - 1] + [p.history[n - 1]];
  }

  /** One more replayed id: marked when its row was admitted as an epic, unmarked otherwise. */
  lemma RelinkedNext(p: Loader, k: nat, before: set<int>)
    requires k < |p.history|
    ensures var id := p.history[k];
      Relinked(p, k + 1, before) ==
        if id in p.live && id in p.store.epics then Relinked(p, k, before) + {id}
        else Relinked(p, k, before) - {id}
  {
    assert p.history[..k + 1] == p.history[..k] + [p.history[k]];
  }

  /**
   * A replayed id whose last row was refused is recorded as that row's
   * object and is not marked, so getHistory returns it as read; a replayed
   * id admitted as an epic is recorded as the stored epic and is marked.
   */
  lemma ReplayedStanding(p: Loader, id: int, before: set<int>)
    requires id in p.loaded && id in p.history
    ensures id !in p.live ==> Entry(p, id) == p.loaded[id] && id !in Relinked(p, |p.history|, before)
    ensures id in p.live && id in p.store.epics ==>
      Entry(p, id) == p.store.epics[id] && id in Relinked(p, |p.history|, before)
  {
    assert p.history[..|p.history|] == p.history;
  }
}
