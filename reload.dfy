/**
 * What a saved file loads back to.  The lines save writes for a registry
 * whose entities the row codec can carry are read by fillDataFromFile into
 * an empty registry: the tasks and subtasks come back as they were, every
 * epic comes back with its name, description, subtasks and status (its time
 * window only when a subtask is dated), the schedule holds the same
 * entities, and the history lists the same ids in the same order — exactly
 * when every history entry names an entity the registry holds.
 */
module Reload {
  import opened Wrappers
  import opened Sets
  import opened Text
  import opened Decimal
  import opened Entities
  import opened Aggregation
  import opened Schedule
  import opened History
  import opened Registry
  import opened RegistryLaws
  import opened Rows
  import opened Snapshot
  import opened Loading

  /** The ids among the first `n` entries of `order`. */
  function Firsts(order: seq<int>, n: nat): set<int>
    requires n <= |order|
  {
    set k | 0 <= k < n :: order[k]
  }

  lemma FirstsSnoc(order: seq<int>, k: nat, n: nat)
    requires n == k + 1 && n <= |order| && Distinct(order)
    ensures Firsts(order, n) == Firsts(order, k) + {order[k]}
    ensures order[k] !in Firsts(order, k)
  {
  }

  lemma FirstsAll(order: seq<int>, m: map<int, Task>, n: nat)
    requires Enumerates(order, m) && n == |order|
    ensures Firsts(order, n) == m.Keys
  {
    forall id | id in m
      ensures id in Firsts(order, n)
    {
      var k :| 0 <= k < |order| && order[k] == id;
    }
  }

  /**
   * The epic a saved epic `e` reloads to: a NEW epic with no window, which
   * becomes what computeEpicFields makes of it once its subtasks are back.
   */
  ghost function ReloadedEpic(e: Task, subs: map<int, Task>): Task
    requires e.Epic? && e.subtaskIds <= subs.Keys
  {
    var blank := Epic(e.id, e.name, e.description, NEW, None, None, e.subtaskIds, None);
    if e.subtaskIds == {} then blank else ComputeEpicFields(blank, subs)
  }

  /**
   * A stored epic reloads with its id, name, description and subtasks; with
   * its status when it has subtasks; as it is when one of them is dated;
   * without a window otherwise.
   */
  lemma ReloadedEpicSpec(s: Store, e: int)
    requires Inv(s) && e in s.epics
    ensures var o := s.epics[e]; var x := ReloadedEpic(o, s.subtasks);
      && x.Epic? && x.id == o.id && x.name == o.name && x.description == o.description
      && x.subtaskIds == o.subtaskIds
      && (o.subtaskIds != {} ==> x.status == o.status)
      && (DatedOf(o.subtaskIds, s.subtasks) != {} ==> x == o)
      && (DatedOf(o.subtaskIds, s.subtasks) == {} ==> x.start.None? && x.duration.None? && x.endTime.None?)
  {
    var o := s.epics[e];
    var blank := Epic(o.id, o.name, o.description, NEW, None, None, o.subtaskIds, None);
    if o.subtaskIds != {} {
      ComputeEpicFieldsSpec(blank, s.subtasks);
      ComputeEpicFieldsSpec(o, s.subtasks);
      if DatedOf(o.subtaskIds, s.subtasks) != {} {
        SameInputsSameFields(o, blank, s.subtasks);
      }
    }
  }

  /** computeEpicFields reads the epic's id, name, description and subtasks, and its window only when none is dated. */
  lemma SameInputsSameFields(x: Task, y: Task, subs: map<int, Task>)
    requires x.Epic? && y.Epic? && x.subtaskIds <= subs.Keys
    requires x.id == y.id && x.name == y.name && x.description == y.description
    requires x.subtaskIds == y.subtaskIds
    requires DatedOf(x.subtaskIds, subs) == {} ==>
      x.start == y.start && x.duration == y.duration && x.endTime == y.endTime
    ensures ComputeEpicFields(x, subs) == ComputeEpicFields(y, subs)
  {
  }

  // ----- the registry while the rows are read -----

  /**
   * A reloaded epic `x` so far, against the saved epic `e`: the same id,
   * name and description; NEW while it has no subtask; no window while none
   * of its subtasks is dated.
   */
  predicate Shaped(x: Task, e: Task, subs: map<int, Task>) {
    && x.Epic? && x.id == e.id && x.name == e.name && x.description == e.description
    && x.subtaskIds <= subs.Keys
    && (x.subtaskIds == {} ==> x.status == NEW)
    && (DatedOf(x.subtaskIds, subs) == {} ==> x.start.None? && x.duration.None? && x.endTime.None?)
  }

  /**
   * The load after the epics `E`, the subtasks `S` and the tasks `T` of `s`
   * were read: those and nothing else are stored, the subtasks and tasks as
   * saved, the epics Shaped; the history is empty; and each id read is live
   * with the reloaded entity remembered under it.
   */
  ghost predicate Partial(q: Loader, s: Store, E: set<int>, S: set<int>, T: set<int>) {
    && E <= s.epics.Keys && S <= s.subtasks.Keys && T <= s.tasks.Keys
    && q.store.epics.Keys == E && q.store.subtasks.Keys == S && q.store.tasks.Keys == T
    && (forall e | e in E :: Shaped(q.store.epics[e], s.epics[e], q.store.subtasks))
    && (forall id | id in S :: q.store.subtasks[id] == s.subtasks[id])
    && (forall id | id in T :: q.store.tasks[id] == s.tasks[id])
    && q.store.history == [] && q.history == []
    && q.loaded.Keys == E + S + T && q.live == E + S + T
    && (forall id | id in q.loaded :: q.loaded[id] == Reloaded(Current(s, id)))
  }

  /** A registry holding only entities of `s` has scheduled nothing a task or subtask of `s` clashes with. */
  lemma NoClash(r: Store, s: Store, t: Task)
    requires Scheduled(r) && Scheduled(s)
    requires forall id | id in r.tasks :: id in s.tasks && r.tasks[id] == s.tasks[id]
    requires forall id | id in r.subtasks :: id in s.subtasks && r.subtasks[id] == s.subtasks[id]
    requires Stored(s, t)
    ensures !IsIntersectedTask(r.schedule, t)
  {
    if IsPrioritized(t) {
      assert t in s.schedule;
      forall x | x in r.schedule && !Equals(x, t)
        ensures !Conflict(x, t)
      {
        assert Stored(r, x);
        assert x in s.schedule;
        EqualsIsIdentity(x, t, t);
      }
    }
  }

  /** Other epics keep their shape when a subtask that is not theirs arrives. */
  lemma ShapedFrame(x: Task, e: Task, subs: map<int, Task>, subs': map<int, Task>)
    requires Shaped(x, e, subs)
    requires subs.Keys <= subs'.Keys && forall k | k in subs :: subs'[k] == subs[k]
    ensures Shaped(x, e, subs')
  {
    forall k | k in x.subtaskIds
      ensures subs'[k] == subs[k]
    {
    }
    assert DatedOf(x.subtaskIds, subs') == DatedOf(x.subtaskIds, subs);
  }

  /** The epic a subtask arrives in keeps its shape: it has a subtask now, and a window only once one is dated. */
  lemma ShapedAfterAdd(x: Task, e: Task, subs: map<int, Task>, id: int, t: Task)
    requires Shaped(x, e, subs) && id !in subs
    ensures Shaped(ComputeEpicFields(AddSubtaskId(x, id), subs[id := t]), e, subs[id := t])
  {
    var subs' := subs[id := t];
    var y := AddSubtaskId(x, id);
    ComputeEpicFieldsSpec(y, subs');
    forall k | k in DatedOf(x.subtaskIds, subs)
      ensures k in DatedOf(y.subtaskIds, subs')
    {
      assert subs'[k] == subs[k];
    }
  }

  lemma ShapesKept(before: map<int, Task>, after: map<int, Task>, s: Store,
                   subs: map<int, Task>, subs': map<int, Task>, eid: int)
    requires before.Keys == after.Keys <= s.epics.Keys
    requires forall e | e in before :: Shaped(before[e], s.epics[e], subs)
    requires forall e | e in before && e != eid :: after[e] == before[e]
    requires eid in after ==> Shaped(after[eid], s.epics[eid], subs')
    requires subs.Keys <= subs'.Keys && forall k | k in subs :: subs'[k] == subs[k]
    ensures forall e | e in after :: Shaped(after[e], s.epics[e], subs')
  {
    forall e | e in after && e != eid
      ensures Shaped(after[e], s.epics[e], subs')
    {
      ShapedFrame(before[e], s.epics[e], subs, subs');
    }
  }

  /** The load once the registry admitted `t` as `r`: `t` remembered under its id, which is live. */
  function Admitted(q: Loader, r: Store, t: Task): Loader {
    q.(store := r, loaded := q.loaded[t.id := t], live := q.live + {t.id})
  }

  /** An epic of `s` not read yet is admitted as a blank NEW epic. */
  lemma EpicAdmitted(q: Loader, s: Store, E: set<int>, id: int)
    requires Inv(q.store) && Kinds(s) && Partial(q, s, E, {}, {})
    requires id in s.epics && id !in E
    ensures var t := Reloaded(s.epics[id]); var r := Register(q.store, t).0;
      r != q.store && Partial(Admitted(q, r, t), s, E + {id}, {}, {})
  {
    var t := Reloaded(s.epics[id]);
    assert t.id == id && !Contains(q.store, id);
    AddEpicKeepsInv(q.store, t);
    assert DatedOf({}, q.store.subtasks) == {};
    assert Current(s, id) == s.epics[id];
  }

  /** Once every epic is back, a subtask of `s` not read yet is admitted as saved. */
  lemma SubtaskAdmitted(q: Loader, s: Store, S: set<int>, id: int)
    requires Inv(q.store) && Inv(s) && Partial(q, s, s.epics.Keys, S, {})
    requires id in s.subtasks && id !in S
    ensures var t := Reloaded(s.subtasks[id]); var r := Register(q.store, t).0;
      r != q.store && Partial(Admitted(q, r, t), s, s.epics.Keys, S + {id}, {})
  {
    var t := s.subtasks[id];
    assert Reloaded(t) == t && t.id == id && !Contains(q.store, id);
    assert t.epicId in q.store.epics;
    NoClash(q.store, s, t);
    AddSubtaskKeepsInv(q.store, t);
    var r := AddSubtask(q.store, t).0;
    assert Register(q.store, t).0 == r;
    assert t.id == id && Current(s, id) == t && Reloaded(t) == t;
    EpicsJoin(q.store.epics, s, q.store.subtasks, id, t, r.epics);
    SubtaskJoins(q, s, S, id, r);
  }

  /** The registry after the subtask `id` of `s` joined its epic: the load so far, with `id` added. */
  lemma SubtaskJoins(q: Loader, s: Store, S: set<int>, id: int, r: Store)
    requires Partial(q, s, s.epics.Keys, S, {})
    requires id in s.subtasks && id !in S && s.subtasks[id].Subtask? && s.subtasks[id].epicId in q.store.epics
    requires s.subtasks[id].id == id && Current(s, id) == s.subtasks[id] && Reloaded(s.subtasks[id]) == s.subtasks[id]
    requires r.subtasks == q.store.subtasks[id := s.subtasks[id]]
    requires r.epics.Keys == s.epics.Keys && forall e | e in r.epics :: Shaped(r.epics[e], s.epics[e], r.subtasks)
    requires r.tasks == q.store.tasks && r.history == q.store.history
    ensures Partial(Admitted(q, r, Reloaded(s.subtasks[id])), s, s.epics.Keys, S + {id}, {})
  {
    var t := s.subtasks[id];
    assert forall x | x in S + {id} :: r.subtasks[x] == s.subtasks[x];
    LoadedJoins(q.loaded, s, id, t);
  }

  /** The epics once the subtask `t` joined its own epic: every one keeps its shape. */
  lemma EpicsJoin(epics: map<int, Task>, s: Store, subs: map<int, Task>, id: int, t: Task, epics': map<int, Task>)
    requires epics.Keys == s.epics.Keys && forall e | e in epics :: Shaped(epics[e], s.epics[e], subs)
    requires id !in subs && t.Subtask? && t.epicId in epics && Shaped(epics[t.epicId], s.epics[t.epicId], subs)
    requires epics' == epics[t.epicId := ComputeEpicFields(AddSubtaskId(epics[t.epicId], id), subs[id := t])]
    ensures epics'.Keys == s.epics.Keys && forall e | e in epics' :: Shaped(epics'[e], s.epics[e], subs[id := t])
  {
    ShapedAfterAdd(epics[t.epicId], s.epics[t.epicId], subs, id, t);
    ShapesKept(epics, epics', s, subs, subs[id := t], t.epicId);
  }

  /** Remembering the reloaded `id` keeps every remembered entity the reloaded current one. */
  lemma LoadedJoins(loaded: map<int, Task>, s: Store, id: int, t: Task)
    requires forall x | x in loaded :: Contains(s, x) && loaded[x] == Reloaded(Current(s, x))
    requires Contains(s, id) && t == Reloaded(Current(s, id))
    ensures forall x | x in loaded[id := t] :: Contains(s, x) && loaded[id := t][x] == Reloaded(Current(s, x))
  {
  }

  /** Once every epic and subtask is back, a task of `s` not read yet is admitted as saved. */
  lemma TaskAdmitted(q: Loader, s: Store, T: set<int>, id: int)
    requires Inv(q.store) && Inv(s) && Partial(q, s, s.epics.Keys, s.subtasks.Keys, T)
    requires id in s.tasks && id !in T
    ensures var t := Reloaded(s.tasks[id]); var r := Register(q.store, t).0;
      r != q.store && Partial(Admitted(q, r, t), s, s.epics.Keys, s.subtasks.Keys, T + {id})
  {
    var t := s.tasks[id];
    assert Reloaded(t) == t && t.id == id && !Contains(q.store, id);
    NoClash(q.store, s, t);
    AddTaskKeepsInv(q.store, t);
    assert Current(s, id) == t;
  }

  /** The counter is not part of Partial. */
  lemma PartialAnyTotal(q: Loader, s: Store, E: set<int>, S: set<int>, T: set<int>, total: Int32)
    requires Partial(q, s, E, S, T)
    ensures Partial(q.(total := total), s, E, S, T)
  {
  }

  /** Row `k` of a group read from line `i0` on sits at line `i`, when `i == i0 + k`. */
  lemma RowAt(lines: seq<string>, i0: nat, order: seq<int>, m: map<int, Task>, kind: Kind, k: nat, i: nat)
    requires RowsRead(lines, i0, order, m, kind) && k < |order| && i == i0 + k
    ensures i < |lines| && order[k] in m
    ensures Classify(i, lines[i]) == EntityRow(kind, Join(Payload(m[order[k]]), DELIMITER))
    ensures Decode(kind, Join(Payload(m[order[k]]), DELIMITER)) == Success(Reloaded(m[order[k]]))
  {
    assert Mark(i0 + k) == Mark(i);
  }

  /**
   * Line `j - 1` is the row of `t`, which the registry admits: the load goes
   * on with `t` admitted.  (Every line number in these lemmas is a variable
   * or that variable less one, so that the loads the callers hold are the
   * very terms named here.)
   */
  lemma RowStep(start: Loader, lines: seq<string>, j: nat, kind: Kind, t: Task)
    requires 0 < j <= |lines|
    requires Inv(start.store) && Fill(start, lines, j - 1).Success?
    requires Classify(j - 1, lines[j - 1]) == EntityRow(kind, Join(Payload(t), DELIMITER))
    requires Decode(kind, Join(Payload(t), DELIMITER)) == Success(Reloaded(t))
    requires var q := Fill(start, lines, j - 1).value; Register(q.store, Reloaded(t)).0 != q.store
    ensures Fill(start, lines, j).Success?
    ensures var q := Fill(start, lines, j - 1).value;
      Fill(start, lines, j).value ==
        Admitted(q, Register(q.store, Reloaded(t)).0, Reloaded(t)).(total := Fill(start, lines, j).value.total)
  {
  }

  lemma EpicStep(start: Loader, lines: seq<string>, s: Store, E: set<int>, j: nat, id: int)
    requires 0 < j <= |lines|
    requires Inv(start.store) && Kinds(s) && id in s.epics && id !in E
    requires Fill(start, lines, j - 1).Success? && Partial(Fill(start, lines, j - 1).value, s, E, {}, {})
    requires Classify(j - 1, lines[j - 1]) == EntityRow(EPIC, Join(Payload(s.epics[id]), DELIMITER))
    requires Decode(EPIC, Join(Payload(s.epics[id]), DELIMITER)) == Success(Reloaded(s.epics[id]))
    ensures Fill(start, lines, j).Success? && Partial(Fill(start, lines, j).value, s, E + {id}, {}, {})
  {
    var q := Fill(start, lines, j - 1).value;
    var t := s.epics[id];
    EpicAdmitted(q, s, E, id);
    RowStep(start, lines, j, EPIC, t);
    var r := Register(q.store, Reloaded(t)).0;
    PartialAnyTotal(Admitted(q, r, Reloaded(t)), s, E + {id}, {}, {}, Fill(start, lines, j).value.total);
  }

  lemma SubtaskStep(start: Loader, lines: seq<string>, s: Store, S: set<int>, j: nat, id: int)
    requires 0 < j <= |lines|
    requires Inv(start.store) && Inv(s) && id in s.subtasks && id !in S
    requires Fill(start, lines, j - 1).Success? && Partial(Fill(start, lines, j - 1).value, s, s.epics.Keys, S, {})
    requires Classify(j - 1, lines[j - 1]) == EntityRow(SUBTASK, Join(Payload(s.subtasks[id]), DELIMITER))
    requires Decode(SUBTASK, Join(Payload(s.subtasks[id]), DELIMITER)) == Success(Reloaded(s.subtasks[id]))
    ensures Fill(start, lines, j).Success?
    ensures Partial(Fill(start, lines, j).value, s, s.epics.Keys, S + {id}, {})
  {
    var q := Fill(start, lines, j - 1).value;
    var t := s.subtasks[id];
    SubtaskAdmitted(q, s, S, id);
    RowStep(start, lines, j, SUBTASK, t);
    var r := Register(q.store, Reloaded(t)).0;
    PartialAnyTotal(Admitted(q, r, Reloaded(t)), s, s.epics.Keys, S + {id}, {}, Fill(start, lines, j).value.total);
  }

  lemma TaskStep(start: Loader, lines: seq<string>, s: Store, T: set<int>, j: nat, id: int)
    requires 0 < j <= |lines|
    requires Inv(start.store) && Inv(s) && id in s.tasks && id !in T
    requires Fill(start, lines, j - 1).Success? && Partial(Fill(start, lines, j - 1).value, s, s.epics.Keys, s.subtasks.Keys, T)
    requires Classify(j - 1, lines[j - 1]) == EntityRow(TASK, Join(Payload(s.tasks[id]), DELIMITER))
    requires Decode(TASK, Join(Payload(s.tasks[id]), DELIMITER)) == Success(Reloaded(s.tasks[id]))
    ensures Fill(start, lines, j).Success?
    ensures Partial(Fill(start, lines, j).value, s, s.epics.Keys, s.subtasks.Keys, T + {id})
  {
    var q := Fill(start, lines, j - 1).value;
    var t := s.tasks[id];
    TaskAdmitted(q, s, T, id);
    RowStep(start, lines, j, TASK, t);
    var r := Register(q.store, Reloaded(t)).0;
    PartialAnyTotal(Admitted(q, r, Reloaded(t)), s, s.epics.Keys, s.subtasks.Keys, T + {id}, Fill(start, lines, j).value.total);
  }

  // ----- the three groups of rows -----

  /** Line 0 is skipped: the load after it is the start. */
  lemma HeaderSkipped(start: Loader, lines: seq<string>, j: nat)
    requires Inv(start.store) && j == 1 && 0 < |lines| && Classify(0, lines[0]) == Skipped
    ensures Fill(start, lines, j) == Success(start)
  {
    assert Mark(j - 1) == Mark(0);
  }

  /** The first `n` epic rows, lines 1 to `j - 1`, are admitted. */
  lemma {:induction false} EpicRows(s: Store, lines: seq<string>, eo: seq<int>, total: Int32, n: nat, j: nat)
    requires j == 1 + n
    requires Inv(Empty) && Kinds(s) && Distinct(eo) && n <= |eo| && 0 < |lines|
    requires Classify(0, lines[0]) == Skipped
    requires RowsRead(lines, 1, eo, s.epics, EPIC)
    ensures Fill(Start(Empty, total), lines, j).Success?
    ensures Partial(Fill(Start(Empty, total), lines, j).value, s, Firsts(eo, n), {}, {})
    decreases n
  {
    if n == 0 {
      HeaderSkipped(Start(Empty, total), lines, j);
    } else {
      var k: nat := n - 1;
      EpicRows(s, lines, eo, total, k, j - 1);
      FirstsSnoc(eo, k, n);
      RowAt(lines, 1, eo, s.epics, EPIC, k, j - 1);
      EpicStep(Start(Empty, total), lines, s, Firsts(eo, k), j, eo[k]);
    }
  }

  /** The first `n` subtask rows, from line `i0` up to line `j - 1`, are admitted. */
  lemma {:induction false} SubtaskRows(s: Store, lines: seq<string>, i0: nat, so: seq<int>, total: Int32, n: nat, j: nat)
    requires j == i0 + n
    requires Inv(Empty) && Inv(s) && Distinct(so) && n <= |so|
    requires RowsRead(lines, i0, so, s.subtasks, SUBTASK)
    requires Fill(Start(Empty, total), lines, i0).Success?
    requires Partial(Fill(Start(Empty, total), lines, i0).value, s, s.epics.Keys, {}, {})
    ensures Fill(Start(Empty, total), lines, j).Success?
    ensures Partial(Fill(Start(Empty, total), lines, j).value, s, s.epics.Keys, Firsts(so, n), {})
    decreases n
  {
    if n == 0 {
      assert Mark(j) == Mark(i0);
    } else {
      var k: nat := n - 1;
      SubtaskRows(s, lines, i0, so, total, k, j - 1);
      FirstsSnoc(so, k, n);
      RowAt(lines, i0, so, s.subtasks, SUBTASK, k, j - 1);
      SubtaskStep(Start(Empty, total), lines, s, Firsts(so, k), j, so[k]);
    }
  }

  /** The first `n` task rows, from line `i0` up to line `j - 1`, are admitted. */
  lemma {:induction false} TaskRows(s: Store, lines: seq<string>, i0: nat, to: seq<int>, total: Int32, n: nat, j: nat)
    requires j == i0 + n
    requires Inv(Empty) && Inv(s) && Distinct(to) && n <= |to|
    requires RowsRead(lines, i0, to, s.tasks, TASK)
    requires Fill(Start(Empty, total), lines, i0).Success?
    requires Partial(Fill(Start(Empty, total), lines, i0).value, s, s.epics.Keys, s.subtasks.Keys, {})
    ensures Fill(Start(Empty, total), lines, j).Success?
    ensures Partial(Fill(Start(Empty, total), lines, j).value, s, s.epics.Keys, s.subtasks.Keys, Firsts(to, n))
    decreases n
  {
    if n == 0 {
      assert Mark(j) == Mark(i0);
    } else {
      var k: nat := n - 1;
      TaskRows(s, lines, i0, to, total, k, j - 1);
      FirstsSnoc(to, k, n);
      RowAt(lines, i0, to, s.tasks, TASK, k, j - 1);
      TaskStep(Start(Empty, total), lines, s, Firsts(to, k), j, to[k]);
    }
  }

  /** Every row of a saved file is admitted: all of `s` is back but its history. */
  lemma RowsBack(s: Store, eo: seq<int>, so: seq<int>, to: seq<int>, total: Int32, last: nat)
    requires last == 1 + |eo| + |so| + |to|
    requires Inv(s)
    requires Enumerates(eo, s.epics) && Enumerates(so, s.subtasks) && Enumerates(to, s.tasks)
    requires Carried(s.epics, EPIC) && Carried(s.subtasks, SUBTASK) && Carried(s.tasks, TASK)
    ensures Inv(Empty)
    ensures var lines := SaveLines(s, eo, so, to);
      && |lines| == last + 1
      && Fill(Start(Empty, total), lines, last).Success?
      && Partial(Fill(Start(Empty, total), lines, last).value, s, s.epics.Keys, s.subtasks.Keys, s.tasks.Keys)
      && (s.history == [] ==> Classify(last, lines[last]) == Skipped)
      && (s.history != [] ==> Classify(last, lines[last]) == HistoryRow(HistoryText(IdsOf(s.history))))
  {
    var lines := SaveLines(s, eo, so, to);
    var i1: nat := 1 + |eo|;
    var i2: nat := i1 + |so|;
    EmptyInv();
    SaveLinesLayout(s, eo, so, to, 1, i1, i2, last);
    EpicRows(s, lines, eo, total, |eo|, i1);
    FirstsAll(eo, s.epics, |eo|);
    SubtaskRows(s, lines, i1, so, total, |so|, i2);
    FirstsAll(so, s.subtasks, |so|);
    TaskRows(s, lines, i2, to, total, |to|, last);
    FirstsAll(to, s.tasks, |to|);
  }

  /** The last line adds the ids of the saved history `h`, if any, to a load that collected none. */
  lemma LastLine(start: Loader, lines: seq<string>, last: nat, h: seq<Task>)
    requires last < |lines| && Inv(start.store)
    requires Fill(start, lines, last).Success? && Fill(start, lines, last).value.history == []
    requires h == [] ==> Classify(last, lines[last]) == Skipped
    requires h != [] ==> Classify(last, lines[last]) == HistoryRow(HistoryText(IdsOf(h)))
    ensures Fill(start, lines, last + 1).Success?
    ensures Fill(start, lines, last + 1).value == Fill(start, lines, last).value.(history := IdsOf(h))
  {
    if h != [] {
      var ids := IdsOf(h);
      assert forall k | 0 <= k < |ids| :: IsInt32(ids[k]);
      HistoryRoundTrip(ids);
    }
  }

  /** So the whole file is read: the load after its last line. */
  lemma FileEnd(start: Loader, lines: seq<string>, last: nat, h: seq<Task>)
    requires last + 1 == |lines| && Inv(start.store)
    requires Fill(start, lines, last).Success? && Fill(start, lines, last).value.history == []
    requires h == [] ==> Classify(last, lines[last]) == Skipped
    requires h != [] ==> Classify(last, lines[last]) == HistoryRow(HistoryText(IdsOf(h)))
    ensures Fill(start, lines, |lines|).Success?
    ensures Fill(start, lines, |lines|).value == Fill(start, lines, last).value.(history := IdsOf(h))
  {
    LastLine(start, lines, last, h);
    assert Mark(last + 1) == Mark(|lines|);
  }

  /** Then the history line is read: its ids are collected as saved. */
  lemma HistoryBack(s: Store, eo: seq<int>, so: seq<int>, to: seq<int>, total: Int32)
    requires Inv(s)
    requires Enumerates(eo, s.epics) && Enumerates(so, s.subtasks) && Enumerates(to, s.tasks)
    requires Carried(s.epics, EPIC) && Carried(s.subtasks, SUBTASK) && Carried(s.tasks, TASK)
    ensures Inv(Empty)
    ensures var lines := SaveLines(s, eo, so, to);
      && Fill(Start(Empty, total), lines, |lines|).Success?
      && var p := Fill(Start(Empty, total), lines, |lines|).value;
      && p.history == IdsOf(s.history)
      && Partial(p.(history := []), s, s.epics.Keys, s.subtasks.Keys, s.tasks.Keys)
  {
    var lines := SaveLines(s, eo, so, to);
    var start := Start(Empty, total);
    var last: nat := 1 + |eo| + |so| + |to|;
    RowsBack(s, eo, so, to, total, last);
    FileEnd(start, lines, last, s.history);
  }

  // ----- the whole round trip -----

  /**
   * The registry `r` loaded from the save of `s`: the same tasks and
   * subtasks, every epic reloaded from its saved one, the same schedule, and
   * a history of the same ids in the same order, each entry the entity the
   * registry holds under it.
   */
  ghost predicate Reproduces(r: Store, s: Store)
    requires Linked(s)
  {
    && r.tasks == s.tasks && r.subtasks == s.subtasks
    && r.epics.Keys == s.epics.Keys
    && (forall e | e in s.epics :: r.epics[e] == ReloadedEpic(s.epics[e], s.subtasks))
    && (forall x :: x in r.schedule <==> x in s.schedule)
    && IdsOf(r.history) == IdsOf(s.history)
    && (forall k | 0 <= k < |r.history| :: Contains(r, r.history[k].id) && r.history[k] == Current(r, r.history[k].id))
  }

  /**
   * Loading into an empty registry the file saved from a registry `s` whose
   * entities the codec can carry succeeds exactly when every history entry
   * names a stored entity (otherwise the replay hits add(null)); it then
   * reproduces `s`, and the counter is at least every id read.
   */
  lemma SaveThenLoad(s: Store, eo: seq<int>, so: seq<int>, to: seq<int>, total: Int32)
    requires Inv(s)
    requires Enumerates(eo, s.epics) && Enumerates(so, s.subtasks) && Enumerates(to, s.tasks)
    requires Carried(s.epics, EPIC) && Carried(s.subtasks, SUBTASK) && Carried(s.tasks, TASK)
    ensures Inv(Empty)
    ensures var r := Load(Empty, total, SaveLines(s, eo, so, to));
      && (r.Success? <==> HistoryStored(s))
      && (r.Failure? ==> r.error == NullPointer)
      && (r.Success? ==>
            && Reproduces(r.value.0, s)
            && r.value.1 >= total
            && forall id | Contains(r.value.0, id) :: r.value.1 >= id)
  {
    var lines := SaveLines(s, eo, so, to);
    var start := Start(Empty, total);
    HistoryBack(s, eo, so, to, total);
    var p := Fill(start, lines, |lines|).value;
    FillCounts(start, lines, |lines|);
    ReplayOutcome(s, p);
  }

  /**
   * The replay after a load of all the rows of `s`: it fails with
   * NullPointer exactly when some history entry names nothing stored, and
   * otherwise reproduces `s` with the counter at least every id held.
   */
  lemma ReplayOutcome(s: Store, p: Loader)
    requires Inv(s) && Inv(p.store) && p.history == IdsOf(s.history) && Counts(p)
    requires Partial(p.(history := []), s, s.epics.Keys, s.subtasks.Keys, s.tasks.Keys)
    ensures var r := Replay(p, |p.history|);
      && (r.Success? <==> HistoryStored(s))
      && (r.Failure? ==> r.error == NullPointer)
      && (r.Success? ==> Reproduces(r.value, s) && forall id | Contains(r.value, id) :: p.total >= id)
  {
    ReplaySucceeds(p, |p.history|);
    StoredIffLoaded(s, p);
    if HistoryStored(s) {
      ReplayBack(s, p);
      var r := Replay(p, |p.history|).value;
      forall id | Contains(r, id)
        ensures p.total >= id
      {
        assert Contains(p.store, id);
      }
    }
  }

  /** Every history id was read exactly when every history entry names a stored entity. */
  lemma StoredIffLoaded(s: Store, p: Loader)
    requires Inv(s) && p.history == IdsOf(s.history)
    requires Partial(p.(history := []), s, s.epics.Keys, s.subtasks.Keys, s.tasks.Keys)
    ensures HistoryStored(s) <==> forall k | 0 <= k < |p.history| :: p.history[k] in p.loaded
  {
    if HistoryStored(s) {
      forall k | 0 <= k < |p.history|
        ensures p.history[k] in p.loaded
      {
        assert s.history[k] in s.history;
      }
    }
    if forall k | 0 <= k < |p.history| :: p.history[k] in p.loaded {
      forall t | t in s.history
        ensures Contains(s, t.id)
      {
        var k :| 0 <= k < |s.history| && s.history[k] == t;
        assert p.history[k] == t.id;
      }
    }
  }

  /** What a load of all the rows of `s` holds, in the terms the replay needs. */
  lemma ReadBack(s: Store, p: Loader)
    requires Inv(s) && p.history == IdsOf(s.history)
    requires Partial(p.(history := []), s, s.epics.Keys, s.subtasks.Keys, s.tasks.Keys)
    ensures Keyed(p.loaded) && p.store.history == []
    ensures forall i, j | 0 <= i < j < |p.history| :: p.history[i] != p.history[j]
    ensures forall id | id in p.loaded :: Contains(p.store, id) && Entry(p, id) == Current(p.store, id)
  {
    forall id | id in p.loaded
      ensures p.loaded[id].id == id
    {
      assert Current(s, id).id == id;
    }
    forall i, j | 0 <= i < j < |p.history|
      ensures p.history[i] != p.history[j]
    {
      assert s.history[i].id != s.history[j].id;
    }
  }

  /** The tasks and subtasks of such a load are those of `s`, and so are its epic ids. */
  lemma StoreBack(s: Store, p: Loader)
    requires Partial(p.(history := []), s, s.epics.Keys, s.subtasks.Keys, s.tasks.Keys)
    ensures p.store.tasks == s.tasks && p.store.subtasks == s.subtasks && p.store.epics.Keys == s.epics.Keys
  {
    var q := p.(history := []);
    assert q.store == p.store;
    assert forall id | id in s.tasks :: p.store.tasks[id] == s.tasks[id];
    assert forall id | id in s.subtasks :: p.store.subtasks[id] == s.subtasks[id];
  }

  /** The replay of a saved history whose entries are all stored rebuilds it, entity for entity. */
  lemma ReplayBack(s: Store, p: Loader)
    requires Inv(s) && Inv(p.store) && HistoryStored(s) && p.history == IdsOf(s.history)
    requires Partial(p.(history := []), s, s.epics.Keys, s.subtasks.Keys, s.tasks.Keys)
    requires forall k | 0 <= k < |p.history| :: p.history[k] in p.loaded
    ensures Replay(p, |p.history|).Success?
    ensures Reproduces(Replay(p, |p.history|).value, s)
  {
    var n := |p.history|;
    ReadBack(s, p);
    StoreBack(s, p);
    ReplayInOrder(p, n);
    var r := Replay(p, n).value;
    assert p.history[..n] == p.history;
    forall k | 0 <= k < |r.history|
      ensures Contains(r, r.history[k].id) && r.history[k] == Current(r, r.history[k].id)
    {
      EntryId(p, p.history[k]);
    }
    EpicsBack(s, p.store);
    ScheduleBack(s, p.store);
  }

  /** The loaded epics are the reloaded saved ones. */
  lemma EpicsBack(s: Store, r: Store)
    requires Inv(s) && Inv(r)
    requires r.subtasks == s.subtasks && r.tasks == s.tasks && r.epics.Keys == s.epics.Keys
    requires forall e | e in s.epics :: Shaped(r.epics[e], s.epics[e], r.subtasks)
    ensures forall e | e in s.epics :: r.epics[e] == ReloadedEpic(s.epics[e], s.subtasks)
  {
    forall e | e in s.epics
      ensures r.epics[e] == ReloadedEpic(s.epics[e], s.subtasks)
    {
      var x := r.epics[e];
      var o := s.epics[e];
      SameSubtasks(s, r, e);
      var blank := Epic(o.id, o.name, o.description, NEW, None, None, o.subtaskIds, None);
      if o.subtaskIds != {} {
        SameInputsSameFields(x, blank, s.subtasks);
      }
    }
  }

  /** Two linked registries with the same subtasks list the same subtasks under each epic. */
  lemma SameSubtasks(s: Store, r: Store, e: int)
    requires Linked(s) && Linked(r) && r.subtasks == s.subtasks && e in s.epics && e in r.epics
    ensures r.epics[e].subtaskIds == s.epics[e].subtaskIds
  {
    forall id | id in s.epics[e].subtaskIds
      ensures id in r.epics[e].subtaskIds
    {
      assert s.subtasks[id].epicId == e;
    }
    forall id | id in r.epics[e].subtaskIds
      ensures id in s.epics[e].subtaskIds
    {
      assert r.subtasks[id].epicId == e;
    }
  }

  /** With the same tasks and subtasks, the schedule holds the same entities. */
  lemma ScheduleBack(s: Store, r: Store)
    requires Scheduled(s) && Scheduled(r) && r.subtasks == s.subtasks && r.tasks == s.tasks
    ensures forall x :: x in r.schedule <==> x in s.schedule
  {
    assert forall x :: Stored(r, x) <==> Stored(s, x);
  }
}
