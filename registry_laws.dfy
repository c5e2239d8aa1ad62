/**
 * What the registry promises: every operation keeps the invariant (ids unique
 * across the three maps, each epic linked to exactly its subtasks, epics
 * showing the fields derived from their subtasks, the prioritized set holding
 * exactly the dated tasks and subtasks with no two windows clashing, and at
 * most one history entry per id), and the cascades and refusals of the
 * individual operations.
 */
module RegistryLaws {
  import opened Wrappers
  import opened Entities
  import opened Aggregation
  import opened Schedule
  import opened History
  import opened Registry
  import opened Sets

  /** A stored entity in the prioritized set is never equal to a candidate with an unused id. */
  lemma FreshIdNotScheduled(s: Store, t: Task)
    requires Kinds(s) && Scheduled(s) && !Contains(s, t.id)
    ensures forall x | x in s.schedule :: !Equals(x, t)
  {
  }

  /** The empty registry satisfies the invariant. */
  lemma EmptyInv()
    ensures Inv(Empty)
  {
  }

  /** Epics whose subtasks did not change keep their derived fields. */
  lemma DerivedKept(s: Store, epics: map<int, Task>, subs: map<int, Task>, e: int)
    requires Linked(s) && Derived(s) && e in s.epics && e in epics && epics[e] == s.epics[e]
    requires s.epics[e].subtaskIds <= subs.Keys
    requires forall id | id in s.epics[e].subtaskIds :: subs[id] == s.subtasks[id]
    ensures epics[e].subtaskIds != {} ==> epics[e] == ComputeEpicFields(epics[e], subs)
  {
    if epics[e].subtaskIds != {} {
      ComputeEpicFieldsFrame(s.epics[e], s.subtasks, subs);
    }
  }

  /** addEpic keeps the invariant; a used id changes nothing. */
  lemma AddEpicKeepsInv(s: Store, epic: Task)
    requires Inv(s) && epic.Epic? && epic.subtaskIds == {}
    ensures Inv(AddEpic(s, epic).0)
    ensures Contains(s, epic.id) ==> AddEpic(s, epic) == (s, -1)
    ensures !Contains(s, epic.id) ==>
      && AddEpic(s, epic).1 == epic.id
      && AddEpic(s, epic).0.epics == s.epics[epic.id := epic]
      && AddEpic(s, epic).0.(epics := s.epics) == s
  {
    var r := AddEpic(s, epic).0;
    if !Contains(s, epic.id) {
      forall e | e in r.epics && r.epics[e].subtaskIds != {}
        ensures r.epics[e] == ComputeEpicFields(r.epics[e], r.subtasks)
      {
        assert e != epic.id;
      }
      assert forall x :: Stored(r, x) <==> Stored(s, x);
    }
  }

  /** The get operations record the entity and keep the invariant; an unknown id fails. */
  lemma GetKeepsInv(s: Store, id: int)
    requires Inv(s)
    ensures GetTask(s, id).Success? <==> id in s.tasks
    ensures GetEpic(s, id).Success? <==> id in s.epics
    ensures GetSubtask(s, id).Success? <==> id in s.subtasks
    ensures GetTask(s, id).Failure? ==> GetTask(s, id).error == NullPointer
    ensures GetTask(s, id).Success? ==> Inv(GetTask(s, id).value.0)
    ensures GetEpic(s, id).Success? ==> Inv(GetEpic(s, id).value.0)
    ensures GetSubtask(s, id).Success? ==> Inv(GetSubtask(s, id).value.0)
  {
    forall t: Task ensures DistinctIds(Added(s.history, t)) {
      AddedSpec(s.history, t);
    }
  }

  /** updateEpic keeps the invariant and changes nothing but the name and description. */
  lemma UpdateEpicKeepsInv(s: Store, epic: Task)
    requires Inv(s) && epic.Epic?
    ensures Inv(UpdateEpic(s, epic))
    ensures epic.id in s.epics ==>
      var e := UpdateEpic(s, epic).epics[epic.id];
      var o := s.epics[epic.id];
      && e.Epic? && e.id == o.id && e.name == epic.name && e.description == epic.description
      && e.status == o.status && e.start == o.start && e.endTime == o.endTime
      && e.duration == o.duration && e.subtaskIds == o.subtaskIds
    ensures UpdateEpic(s, epic).epics.Keys == s.epics.Keys
    ensures UpdateEpic(s, epic).(epics := s.epics) == s
  {
    var r := UpdateEpic(s, epic);
    if epic.id in s.epics {
      var old_ := s.epics[epic.id];
      if old_.subtaskIds != {} {
        assert r.epics[epic.id] == ComputeEpicFields(r.epics[epic.id], r.subtasks);
      }
      assert forall x :: Stored(r, x) <==> Stored(s, x);
    }
  }

  /**
   * clearEpicSubtasks for the epics in es keeps the invariant: the owned
   * subtasks are gone from the map, the prioritized set and the history,
   * and each of those epics is left empty and NEW.
   */
  lemma ClearOwnedKeepsInv(s: Store, es: set<int>)
    requires Inv(s) && es <= s.epics.Keys
    ensures Inv(ClearOwned(s, es))
    ensures var r := ClearOwned(s, es);
      && r.tasks == s.tasks && r.epics.Keys == s.epics.Keys
      && (forall e | e in es :: r.epics[e].subtaskIds == {} && r.epics[e].status == NEW)
      && (forall e | e in s.epics && e !in es :: r.epics[e] == s.epics[e])
      && (forall sid :: sid in r.subtasks <==> sid in s.subtasks && s.subtasks[sid].epicId !in es)
      && (forall x | x in r.schedule :: !(x.Subtask? && x.epicId in es))
      && (forall t | t in r.history :: t.id !in Owned(s, es))
  {
    var r := ClearOwned(s, es);
    WithoutAllElements(s.history, Owned(s, es));
    ClearOwnedLinked(s, es);
    ClearOwnedDerived(s, es);
    ClearOwnedScheduled(s, es);
  }

  /** Clearing one more epic after a group is clearing the larger group: the loop of clearSubtasks. */
  lemma ClearOwnedTwice(s: Store, es: set<int>, e: int)
    requires Inv(s) && es <= s.epics.Keys && e in s.epics && e !in es
    ensures Inv(ClearOwned(s, es))
    ensures ClearOwned(ClearOwned(s, es), {e}) == ClearOwned(s, es + {e})
  {
    ClearOwnedKeepsInv(s, es);
    ClearOwnedTwiceMaps(s, es, e);
    ClearOwnedTwiceSchedule(s, es, e);
  }

  lemma ClearOwnedTwiceMaps(s: Store, es: set<int>, e: int)
    requires Kinds(s) && Unique(s) && Linked(s) && es <= s.epics.Keys && e in s.epics && e !in es
    ensures Kinds(ClearOwned(s, es))
    ensures var r2 := ClearOwned(ClearOwned(s, es), {e});
      var r3 := ClearOwned(s, es + {e});
      r2.tasks == r3.tasks && r2.epics == r3.epics && r2.subtasks == r3.subtasks && r2.history == r3.history
  {
    ClearOwnedLinked(s, es);
    var r1 := ClearOwned(s, es);
    var g1 := Owned(s, es);
    var g2 := Owned(s, {e});
    assert Owned(r1, {e}) == g2;
    assert Owned(s, es + {e}) == g1 + g2;
    WithoutAllUnion(s.history, g1, g2);
  }

  lemma ClearOwnedTwiceSchedule(s: Store, es: set<int>, e: int)
    requires Kinds(s) && Unique(s) && Linked(s) && Scheduled(s) && es <= s.epics.Keys && e in s.epics && e !in es
    ensures Kinds(ClearOwned(s, es))
    ensures ClearOwned(ClearOwned(s, es), {e}).schedule == ClearOwned(s, es + {e}).schedule
  {
    ClearOwnedLinked(s, es);
    ClearOwnedScheduled(s, es);
    ClearOwnedScheduled(s, es + {e});
    var r1 := ClearOwned(s, es);
    ClearOwnedScheduled(r1, {e});
    var r2 := ClearOwned(r1, {e});
    var r3 := ClearOwned(s, es + {e});
    assert Owned(r1, {e}) == Owned(s, {e});
    assert Owned(s, es + {e}) == Owned(s, es) + Owned(s, {e});
    SortedUnique(r2.schedule, r3.schedule);
  }

  lemma ClearOwnedLinked(s: Store, es: set<int>)
    requires Kinds(s) && Unique(s) && Linked(s) && es <= s.epics.Keys
    ensures Kinds(ClearOwned(s, es)) && Unique(ClearOwned(s, es)) && Linked(ClearOwned(s, es))
  {
    var r := ClearOwned(s, es);
    var gone := Owned(s, es);
    forall e | e in r.epics ensures r.epics[e].Epic? && r.epics[e].id == e {
    }
    forall e, sid | e in r.epics && sid in r.epics[e].subtaskIds
      ensures sid in r.subtasks && r.subtasks[sid].Subtask? && r.subtasks[sid].epicId == e
    {
      assert e !in es && sid !in gone;
    }
    forall sid | sid in r.subtasks
      ensures r.subtasks[sid].epicId in r.epics && sid in r.epics[r.subtasks[sid].epicId].subtaskIds
    {
      assert sid !in gone;
    }
  }

  lemma ClearOwnedDerived(s: Store, es: set<int>)
    requires Kinds(s) && Unique(s) && Linked(s) && Derived(s) && es <= s.epics.Keys
    ensures Linked(ClearOwned(s, es)) && Derived(ClearOwned(s, es))
  {
    var r := ClearOwned(s, es);
    var gone := Owned(s, es);
    ClearOwnedLinked(s, es);
    forall e | e in r.epics && r.epics[e].subtaskIds != {}
      ensures r.epics[e] == ComputeEpicFields(r.epics[e], r.subtasks)
    {
      assert e !in es;
      forall sid | sid in s.epics[e].subtaskIds
        ensures sid in r.subtasks && r.subtasks[sid] == s.subtasks[sid]
      {
        assert sid !in gone;
      }
      DerivedKept(s, r.epics, r.subtasks, e);
    }
  }

  /** Clearing keeps the prioritized set in start order. */
  lemma ClearOwnedSorted(s: Store, es: set<int>)
    requires Kinds(s) && es <= s.epics.Keys && Sorted(s.schedule)
    ensures Sorted(ClearOwned(s, es).schedule)
  {
    var gone := Owned(s, es);
    FilterKeepsValid(s.schedule, (x: Task) => !(x.Subtask? && x.id in gone));
  }

  lemma ClearOwnedScheduled(s: Store, es: set<int>)
    requires Kinds(s) && Scheduled(s) && es <= s.epics.Keys
    ensures Scheduled(ClearOwned(s, es))
    ensures forall x | x in ClearOwned(s, es).schedule :: !(x.Subtask? && x.epicId in es)
  {
    var r := ClearOwned(s, es);
    var gone := Owned(s, es);
    var keep := (x: Task) => !(x.Subtask? && x.id in gone);
    FilterKeepsValid(s.schedule, keep);
    forall x ensures x in r.schedule <==> IsPrioritized(x) && Stored(r, x) {
      assert x in r.schedule <==> x in s.schedule && keep(x);
    }
  }

  /**
   * removeEpic keeps the invariant: the epic and its subtasks are gone, and
   * the history no longer holds its id (whatever entity it named).
   */
  lemma RemoveEpicKeepsInv(s: Store, id: int)
    requires Inv(s)
    ensures Inv(RemoveEpic(s, id))
    ensures var r := RemoveEpic(s, id);
      && id !in r.epics && r.tasks == s.tasks
      && (forall e | e in s.epics && e != id :: e in r.epics)
      && (forall sid :: sid in r.subtasks <==> sid in s.subtasks && s.subtasks[sid].epicId != id)
      && !Tracks(r.history, id)
    ensures id !in s.epics ==> RemoveEpic(s, id) == s.(history := Without(s.history, id))
  {
    var c := ClearEpicSubtasks(s, id);
    if id in s.epics {
      ClearOwnedKeepsInv(s, {id});
    }
    DropEmptyEpic(c, id);
  }

  /** Dropping an epic without subtasks, and any history entry with its id, keeps the invariant. */
  lemma DropEmptyEpic(c: Store, id: int)
    requires Inv(c) && (id in c.epics ==> c.epics[id].subtaskIds == {})
    ensures Inv(c.(epics := c.epics - {id}, history := Without(c.history, id)))
    ensures !Tracks(Without(c.history, id), id)
  {
    var r := c.(epics := c.epics - {id}, history := Without(c.history, id));
    WithoutKeepsDistinct(c.history, id);
    WithoutElements(c.history, id);
    forall sid | sid in r.subtasks ensures r.subtasks[sid].epicId in r.epics {
      assert sid in c.epics[c.subtasks[sid].epicId].subtaskIds;
    }
    forall e | e in r.epics && r.epics[e].subtaskIds != {}
      ensures r.epics[e] == ComputeEpicFields(r.epics[e], r.subtasks)
    {
      assert r.epics[e] == c.epics[e];
    }
    assert forall x :: Stored(r, x) <==> Stored(c, x);
  }

  /** clearEpics keeps the invariant: no epics, no subtasks, only tasks scheduled, no epic or subtask viewed. */
  lemma ClearEpicsKeepsInv(s: Store)
    requires Inv(s)
    ensures Inv(ClearEpics(s))
    ensures var r := ClearEpics(s);
      && r.epics == map[] && r.subtasks == map[] && r.tasks == s.tasks
      && r.history == WithoutAll(s.history, s.epics.Keys + s.subtasks.Keys)
      && (forall t :: t in r.history <==> t in s.history && t.id !in s.epics && t.id !in s.subtasks)
      && (forall x :: x in r.schedule <==> x in s.schedule && x.Task?)
  {
    var r := ClearEpics(s);
    WithoutAllElements(s.history, s.epics.Keys + s.subtasks.Keys);
    FilterKeepsValid(s.schedule, (x: Task) => x.Task?);
    assert forall x :: Stored(r, x) <==> Stored(s, x) && x.Task?;
  }

  /**
   * addSubtask refuses an unknown epic, a used id and a clash with the
   * prioritized set, and otherwise stores the subtask, links it to its epic,
   * recomputes the epic and schedules the subtask when it has a start and an end.
   */
  lemma AddSubtaskKeepsInv(s: Store, subtask: Task)
    requires Inv(s) && subtask.Subtask?
    ensures Inv(AddSubtask(s, subtask).0)
    ensures subtask.epicId !in s.epics || Contains(s, subtask.id) || IsIntersectedTask(s.schedule, subtask)
      ==> AddSubtask(s, subtask) == (s, -1)
    ensures !(subtask.epicId !in s.epics || Contains(s, subtask.id) || IsIntersectedTask(s.schedule, subtask)) ==>
      var r := AddSubtask(s, subtask).0;
      && AddSubtask(s, subtask).1 == subtask.id
      && r.subtasks == s.subtasks[subtask.id := subtask]
      && r.epics.Keys == s.epics.Keys
      && r.epics[subtask.epicId].subtaskIds == s.epics[subtask.epicId].subtaskIds + {subtask.id}
      && (forall e | e in s.epics && e != subtask.epicId :: r.epics[e] == s.epics[e])
      && (forall x :: x in r.schedule <==> x in s.schedule || (x == subtask && IsPrioritized(subtask)))
      && r.tasks == s.tasks && r.history == s.history
  {
    if !(subtask.epicId !in s.epics || Contains(s, subtask.id) || IsIntersectedTask(s.schedule, subtask)) {
      AddSubtaskEdits(s, subtask);
      EditOneDerived(s, AddSubtask(s, subtask).0, subtask.epicId, {subtask.id});
      AddSubtaskScheduled(s, subtask);
    }
  }

  // ----- one epic edited: the shared part of the subtask operations -----

  /**
   * The registry after an operation that touches one epic `eid` and the
   * subtasks in `changed`, all of which belong to that epic before and
   * after, and leaves the epic listing exactly its subtasks.
   */
  ghost predicate EditsOne(s: Store, r: Store, eid: int, changed: set<int>) {
    && eid in s.epics && eid in r.epics
    && r.tasks == s.tasks && r.epics.Keys == s.epics.Keys
    && (forall e | e in s.epics && e != eid :: r.epics[e] == s.epics[e])
    && r.epics[eid].Epic? && r.epics[eid].id == eid
    && (forall sid | sid !in changed :: sid in r.subtasks <==> sid in s.subtasks)
    && (forall sid | sid !in changed && sid in r.subtasks :: r.subtasks[sid] == s.subtasks[sid])
    && (forall sid | sid in changed && sid in r.subtasks ::
          r.subtasks[sid].Subtask? && r.subtasks[sid].id == sid && r.subtasks[sid].epicId == eid)
    && (forall sid | sid in changed && sid in s.subtasks :: s.subtasks[sid].Subtask? && s.subtasks[sid].epicId == eid)
    && changed !! s.tasks.Keys && changed !! s.epics.Keys
    && (forall sid :: sid in r.epics[eid].subtaskIds <==>
          sid in r.subtasks && r.subtasks[sid].Subtask? && r.subtasks[sid].epicId == eid)
  }

  /** Such an edit keeps the maps well-formed and the links exact. */
  lemma EditOneLinked(s: Store, r: Store, eid: int, changed: set<int>)
    requires Kinds(s) && Unique(s) && Linked(s) && EditsOne(s, r, eid, changed)
    ensures Kinds(r) && Unique(r) && Linked(r)
  {
    forall sid | sid in r.subtasks
      ensures sid !in s.tasks && sid !in s.epics
      ensures r.subtasks[sid].Subtask? && r.subtasks[sid].id == sid
    {
      if sid !in changed {
        assert sid in s.subtasks;
      }
    }
    forall e, sid | e in r.epics && sid in r.epics[e].subtaskIds
      ensures sid in r.subtasks && r.subtasks[sid].Subtask? && r.subtasks[sid].epicId == e
    {
      if e != eid {
        assert sid in s.epics[e].subtaskIds;
        assert sid !in changed;
      }
    }
    forall sid | sid in r.subtasks
      ensures r.subtasks[sid].epicId in r.epics && sid in r.epics[r.subtasks[sid].epicId].subtaskIds
    {
      if sid !in changed {
        var e := s.subtasks[sid].epicId;
        assert sid in s.epics[e].subtaskIds;
      }
    }
  }

  /** Such an edit keeps every other epic's derived fields; the edited one is recomputed by the operation. */
  lemma EditOneDerived(s: Store, r: Store, eid: int, changed: set<int>)
    requires Kinds(s) && Unique(s) && Linked(s) && Derived(s) && EditsOne(s, r, eid, changed)
    requires r.epics[eid].subtaskIds <= r.subtasks.Keys
    requires r.epics[eid].subtaskIds != {} ==> r.epics[eid] == ComputeEpicFields(r.epics[eid], r.subtasks)
    ensures Linked(r) && Derived(r)
  {
    EditOneLinked(s, r, eid, changed);
    forall e | e in r.epics && e != eid && r.epics[e].subtaskIds != {}
      ensures r.epics[e] == ComputeEpicFields(r.epics[e], r.subtasks)
    {
      forall sid | sid in s.epics[e].subtaskIds
        ensures sid in r.subtasks && r.subtasks[sid] == s.subtasks[sid]
      {
        assert sid !in changed;
      }
      DerivedKept(s, r.epics, r.subtasks, e);
    }
  }

  /** addSubtask edits one epic: it lists the new subtask and shows the fields derived from its subtasks. */
  lemma AddSubtaskEdits(s: Store, subtask: Task)
    requires Kinds(s) && Unique(s) && Linked(s) && Schedule.Valid(s.schedule) && subtask.Subtask?
    requires subtask.epicId in s.epics && !Contains(s, subtask.id)
    requires !IsIntersectedTask(s.schedule, subtask)
    ensures var r := AddSubtask(s, subtask).0;
      var eid := subtask.epicId;
      && EditsOne(s, r, eid, {subtask.id})
      && r.epics[eid].subtaskIds == s.epics[eid].subtaskIds + {subtask.id}
      && r.epics[eid].subtaskIds <= r.subtasks.Keys
      && r.epics[eid] == ComputeEpicFields(r.epics[eid], r.subtasks)
  {
    var r := AddSubtask(s, subtask).0;
    var eid := subtask.epicId;
    var epic := AddSubtaskId(s.epics[eid], subtask.id);
    ComputeEpicFieldsSpec(epic, r.subtasks);
    ComputeEpicFieldsIdempotent(epic, r.subtasks);
  }

  /** updateSubtask edits one epic: its set is unchanged and it shows the fields derived from the new version. */
  lemma UpdateSubtaskEdits(s: Store, subtask: Task)
    requires Kinds(s) && Unique(s) && Linked(s) && Schedule.Valid(s.schedule) && subtask.Subtask?
    requires subtask.id in s.subtasks && s.subtasks[subtask.id].epicId == subtask.epicId
    requires !IsIntersectedTask(s.schedule, subtask)
    ensures var r := UpdateSubtask(s, subtask);
      var eid := subtask.epicId;
      && EditsOne(s, r, eid, {subtask.id})
      && r.epics[eid].subtaskIds == s.epics[eid].subtaskIds
      && r.epics[eid].subtaskIds <= r.subtasks.Keys
      && r.epics[eid] == ComputeEpicFields(r.epics[eid], r.subtasks)
  {
    var r := UpdateSubtask(s, subtask);
    var eid := subtask.epicId;
    ComputeEpicFieldsSpec(s.epics[eid], r.subtasks);
    ComputeEpicFieldsIdempotent(s.epics[eid], r.subtasks);
  }

  /** removeSubtask edits one epic: it drops the id and shows the fields derived from the remaining subtasks. */
  lemma RemoveSubtaskEdits(s: Store, id: int)
    requires Kinds(s) && Unique(s) && Linked(s) && id in s.subtasks
    ensures var r := RemoveSubtask(s, id);
      var eid := s.subtasks[id].epicId;
      && EditsOne(s, r, eid, {id})
      && r.epics[eid].subtaskIds == s.epics[eid].subtaskIds - {id}
      && r.epics[eid].subtaskIds <= r.subtasks.Keys
      && r.epics[eid] == ComputeEpicFields(r.epics[eid], r.subtasks)
  {
    var r := RemoveSubtask(s, id);
    var eid := s.subtasks[id].epicId;
    var epic := RemoveSubtaskId(s.epics[eid], id);
    ComputeEpicFieldsSpec(epic, s.subtasks);
    assert epic.subtaskIds <= r.subtasks.Keys;
    ComputeEpicFieldsFrame(epic, s.subtasks, r.subtasks);
    ComputeEpicFieldsIdempotent(epic, r.subtasks);
  }

  lemma AddSubtaskScheduled(s: Store, subtask: Task)
    requires Inv(s) && subtask.Subtask?
    requires subtask.epicId in s.epics && !Contains(s, subtask.id)
    requires !IsIntersectedTask(s.schedule, subtask)
    ensures var r := AddSubtask(s, subtask).0;
      && Scheduled(r)
      && (forall x :: x in r.schedule <==> x in s.schedule || (x == subtask && IsPrioritized(subtask)))
  {
    var r := AddSubtask(s, subtask).0;
    FreshIdNotScheduled(s, subtask);
    if IsPrioritized(subtask) {
      AdmitKeepsValid(s.schedule, subtask);
    }
    assert forall x :: Stored(r, x) <==> Stored(s, x) || x == subtask;
  }

  /**
   * updateSubtask: a stored id whose new version names the same epic and
   * clears the prioritized set replaces the old version in the map and the
   * set, and the epic is recomputed; anything else changes nothing.
   */
  lemma UpdateSubtaskKeepsInv(s: Store, subtask: Task)
    requires Inv(s) && subtask.Subtask?
    ensures Inv(UpdateSubtask(s, subtask))
    ensures (|| subtask.id !in s.subtasks || IsIntersectedTask(s.schedule, subtask)
             || s.subtasks[subtask.id].epicId != subtask.epicId) ==> UpdateSubtask(s, subtask) == s
    ensures (&& subtask.id in s.subtasks && !IsIntersectedTask(s.schedule, subtask)
             && s.subtasks[subtask.id].epicId == subtask.epicId) ==>
      var r := UpdateSubtask(s, subtask);
      && r.subtasks == s.subtasks[subtask.id := subtask]
      && r.epics.Keys == s.epics.Keys
      && r.epics[subtask.epicId].subtaskIds == s.epics[subtask.epicId].subtaskIds
      && (forall e | e in s.epics && e != subtask.epicId :: r.epics[e] == s.epics[e])
      && (forall x :: x in r.schedule <==>
            (x in s.schedule && x != s.subtasks[subtask.id]) || (x == subtask && IsPrioritized(subtask)))
      && r.tasks == s.tasks && r.history == s.history
  {
    if subtask.id in s.subtasks && !IsIntersectedTask(s.schedule, subtask)
      && s.subtasks[subtask.id].epicId == subtask.epicId
    {
      UpdateSubtaskEdits(s, subtask);
      EditOneDerived(s, UpdateSubtask(s, subtask), subtask.epicId, {subtask.id});
      UpdateSubtaskScheduled(s, subtask);
    }
  }

  lemma UpdateSubtaskScheduled(s: Store, subtask: Task)
    requires Inv(s) && subtask.Subtask?
    requires subtask.id in s.subtasks && s.subtasks[subtask.id].epicId == subtask.epicId
    requires !IsIntersectedTask(s.schedule, subtask)
    ensures var r := UpdateSubtask(s, subtask);
      && Scheduled(r)
      && (forall x :: x in r.schedule <==>
            (x in s.schedule && x != s.subtasks[subtask.id]) || (x == subtask && IsPrioritized(subtask)))
  {
    var r := UpdateSubtask(s, subtask);
    var previous := s.subtasks[subtask.id];
    var q := Evict(s.schedule, previous);
    forall x | x in q ensures !Equals(x, subtask) {
      EqualsIsIdentity(x, subtask, previous);
    }
    forall x | x in s.schedule ensures Equals(x, previous) <==> x == previous {
      EqualsIsIdentity(x, previous, previous);
    }
    if IsPrioritized(subtask) {
      AdmitKeepsValid(q, subtask);
    }
    assert forall x :: Stored(r, x) <==> (Stored(s, x) && x != previous) || x == subtask;
  }

  /**
   * removeSubtask: a stored subtask leaves the map, its epic's set (the epic
   * recomputed), the prioritized set and the history; an unknown id changes nothing.
   */
  lemma RemoveSubtaskKeepsInv(s: Store, id: int)
    requires Inv(s)
    ensures Inv(RemoveSubtask(s, id))
    ensures id !in s.subtasks ==> RemoveSubtask(s, id) == s
    ensures id in s.subtasks ==>
      var r := RemoveSubtask(s, id);
      var eid := s.subtasks[id].epicId;
      && r.subtasks == s.subtasks - {id}
      && r.epics.Keys == s.epics.Keys
      && r.epics[eid].subtaskIds == s.epics[eid].subtaskIds - {id}
      && (forall e | e in s.epics && e != eid :: r.epics[e] == s.epics[e])
      && (forall x :: x in r.schedule <==> x in s.schedule && x != s.subtasks[id])
      && r.history == Without(s.history, id)
      && r.tasks == s.tasks
  {
    if id in s.subtasks {
      RemoveSubtaskEdits(s, id);
      EditOneDerived(s, RemoveSubtask(s, id), s.subtasks[id].epicId, {id});
      RemoveSubtaskScheduled(s, id);
      WithoutKeepsDistinct(s.history, id);
    }
  }

  lemma RemoveSubtaskScheduled(s: Store, id: int)
    requires Inv(s) && id in s.subtasks
    ensures var r := RemoveSubtask(s, id);
      && Scheduled(r)
      && (forall x :: x in r.schedule <==> x in s.schedule && x != s.subtasks[id])
  {
    var r := RemoveSubtask(s, id);
    var previous := s.subtasks[id];
    forall x | x in s.schedule ensures Equals(x, previous) <==> x == previous {
      EqualsIsIdentity(x, previous, previous);
    }
    assert forall x :: Stored(r, x) <==> Stored(s, x) && x != previous;
  }

  /**
   * addTask refuses a used id, an object that is not exactly a Task and a
   * clash, and otherwise stores the task and schedules it when it has a start and an end.
   */
  lemma AddTaskKeepsInv(s: Store, task: Task)
    requires Inv(s)
    ensures Inv(AddTask(s, task).0)
    ensures Contains(s, task.id) || !task.Task? || IsIntersectedTask(s.schedule, task) ==> AddTask(s, task) == (s, -1)
    ensures !(Contains(s, task.id) || !task.Task? || IsIntersectedTask(s.schedule, task)) ==>
      var r := AddTask(s, task).0;
      && AddTask(s, task).1 == task.id
      && r.tasks == s.tasks[task.id := task]
      && (forall x :: x in r.schedule <==> x in s.schedule || (x == task && IsPrioritized(task)))
      && r.epics == s.epics && r.subtasks == s.subtasks && r.history == s.history
  {
    if !(Contains(s, task.id) || !task.Task? || IsIntersectedTask(s.schedule, task)) {
      var r := AddTask(s, task).0;
      FreshIdNotScheduled(s, task);
      if IsPrioritized(task) {
        AdmitKeepsValid(s.schedule, task);
      }
      assert forall x :: Stored(r, x) <==> Stored(s, x) || x == task;
    }
  }

  /**
   * updateTask: a stored id whose new version clears the prioritized set
   * replaces the old version in the map and the set; anything else changes nothing.
   */
  lemma UpdateTaskKeepsInv(s: Store, task: Task)
    requires Inv(s) && task.Task?
    ensures Inv(UpdateTask(s, task))
    ensures task.id !in s.tasks || IsIntersectedTask(s.schedule, task) ==> UpdateTask(s, task) == s
    ensures task.id in s.tasks && !IsIntersectedTask(s.schedule, task) ==>
      var r := UpdateTask(s, task);
      && r.tasks == s.tasks[task.id := task]
      && (forall x :: x in r.schedule <==>
            (x in s.schedule && x != s.tasks[task.id]) || (x == task && IsPrioritized(task)))
      && r.epics == s.epics && r.subtasks == s.subtasks && r.history == s.history
  {
    if task.id in s.tasks && !IsIntersectedTask(s.schedule, task) {
      UpdateTaskScheduled(s, task);
    }
  }

  lemma UpdateTaskScheduled(s: Store, task: Task)
    requires Kinds(s) && Unique(s) && Scheduled(s) && task.Task?
    requires task.id in s.tasks && !IsIntersectedTask(s.schedule, task)
    ensures var r := UpdateTask(s, task);
      && Scheduled(r)
      && (forall x :: x in r.schedule <==>
            (x in s.schedule && x != s.tasks[task.id]) || (x == task && IsPrioritized(task)))
  {
    var r := UpdateTask(s, task);
    var previous := s.tasks[task.id];
    var q := Evict(s.schedule, previous);
    forall x | x in q ensures !Equals(x, task) {
      EqualsIsIdentity(x, task, previous);
    }
    forall x | x in s.schedule ensures Equals(x, previous) <==> x == previous {
      EqualsIsIdentity(x, previous, previous);
    }
    if IsPrioritized(task) {
      AdmitKeepsValid(q, task);
    }
    assert forall x :: Stored(r, x) <==> (Stored(s, x) && x != previous) || x == task;
  }

  /** removeTask: an unknown id fails; a stored task leaves the map, the prioritized set and the history. */
  lemma RemoveTaskKeepsInv(s: Store, id: int)
    requires Inv(s)
    ensures RemoveTask(s, id).Failure? <==> id !in s.tasks
    ensures RemoveTask(s, id).Failure? ==> RemoveTask(s, id).error == NullPointer
    ensures RemoveTask(s, id).Success? ==>
      var r := RemoveTask(s, id).value;
      && Inv(r)
      && r.tasks == s.tasks - {id}
      && (forall x :: x in r.schedule <==> x in s.schedule && x != s.tasks[id])
      && r.history == Without(s.history, id)
      && r.epics == s.epics && r.subtasks == s.subtasks
  {
    if id in s.tasks {
      var r := RemoveTask(s, id).value;
      var previous := s.tasks[id];
      forall x | x in s.schedule ensures Equals(x, previous) <==> x == previous {
        EqualsIsIdentity(x, previous, previous);
      }
      WithoutKeepsDistinct(s.history, id);
      assert forall x :: Stored(r, x) <==> Stored(s, x) && x != previous;
    }
  }

  /** clearTasks keeps the invariant: no tasks, only subtasks scheduled, no task viewed. */
  lemma ClearTasksKeepsInv(s: Store)
    requires Inv(s)
    ensures Inv(ClearTasks(s))
    ensures var r := ClearTasks(s);
      && r.tasks == map[] && r.epics == s.epics && r.subtasks == s.subtasks
      && r.history == WithoutAll(s.history, s.tasks.Keys)
      && (forall t :: t in r.history <==> t in s.history && t.id !in s.tasks)
      && (forall x :: x in r.schedule <==> x in s.schedule && x.Subtask?)
  {
    var r := ClearTasks(s);
    WithoutAllElements(s.history, s.tasks.Keys);
    FilterKeepsValid(s.schedule, (x: Task) => x.Subtask?);
    assert forall x :: Stored(r, x) <==> Stored(s, x) && x.Subtask?;
  }

  /** clearSubtasks keeps the invariant: no subtasks, every epic empty and NEW, no subtask in the set or the history. */
  lemma ClearSubtasksKeepsInv(s: Store)
    requires Inv(s)
    ensures Inv(ClearSubtasks(s))
    ensures var r := ClearSubtasks(s);
      && r.subtasks == map[] && r.tasks == s.tasks && r.epics.Keys == s.epics.Keys
      && (forall e | e in r.epics :: r.epics[e].subtaskIds == {} && r.epics[e].status == NEW)
      && (forall x | x in r.schedule :: x.Task?)
      && (forall t | t in r.history :: t.id !in s.subtasks)
  {
    var r := ClearSubtasks(s);
    ClearOwnedKeepsInv(s, s.epics.Keys);
    assert forall sid | sid in s.subtasks :: sid in Owned(s, s.epics.Keys);
    assert r.subtasks == map[];
  }

  /** The subtasks one epic owns are exactly those it lists. */
  lemma OwnedByOne(s: Store, id: int)
    requires Linked(s) && id in s.epics
    ensures Owned(s, {id}) == s.epics[id].subtaskIds
  {
    forall sid ensures sid in Owned(s, {id}) <==> sid in s.epics[id].subtaskIds {
      if sid in s.epics[id].subtaskIds {
        assert sid in s.subtasks && s.subtasks[sid].epicId == id;
      }
    }
  }

  /** Clearing no epic changes nothing. */
  lemma ClearOwnedNothing(s: Store)
    requires Inv(s)
    ensures ClearOwned(s, {}) == s
  {
    ClearOwnedKeepsInv(s, {});
    WithoutAllStep(s.history, {}, 0);
    assert Owned(s, {}) == {};
    SortedUnique(ClearOwned(s, {}).schedule, s.schedule);
  }

  // ----- clearEpicSubtasks one subtask at a time -----

  /** The store without the subtasks `gone`: out of the map, the prioritized set and the history; the epics untouched. */
  ghost function Purge(s: Store, gone: set<int>): Store {
    Store(s.tasks, s.epics, map sid | sid in s.subtasks && sid !in gone :: s.subtasks[sid],
          Filter(s.schedule, Spared(gone)), WithoutAll(s.history, gone))
  }

  /** Whether an entry of the prioritized set survives purging the subtasks `gone`. */
  ghost function Spared(gone: set<int>): Task -> bool {
    (x: Task) => !(x.Subtask? && x.id in gone)
  }

  /** The store without one stored subtask, as one step of clearEpicSubtasks leaves it. */
  ghost function DropOne(p: Store, sid: int): Store
    requires sid in p.subtasks
  {
    Store(p.tasks, p.epics, p.subtasks - {sid}, Evict(p.schedule, p.subtasks[sid]), Without(p.history, sid))
  }

  /** Purging nothing changes nothing. */
  lemma PurgeNothing(s: Store)
    requires Sorted(s.schedule)
    ensures Purge(s, {}) == s
  {
    WithoutAllStep(s.history, {}, 0);
    FilterKeepsSorted(s.schedule, Spared({}));
    SortedUnique(Purge(s, {}).schedule, s.schedule);
    assert Purge(s, {}).subtasks == s.subtasks;
  }

  /** Purging one more subtask is one more step of clearEpicSubtasks. */
  lemma PurgeStep(s: Store, done: set<int>, sid: int)
    requires Kinds(s) && Sorted(s.schedule) && sid in s.subtasks && sid !in done
    ensures sid in Purge(s, done).subtasks
    ensures Purge(s, done + {sid}) == DropOne(Purge(s, done), sid)
  {
    var p := Purge(s, done);
    var q := Purge(s, done + {sid});
    var d := DropOne(p, sid);
    WithoutAllStep(s.history, done, sid);
    FilterKeepsSorted(s.schedule, Spared(done));
    FilterKeepsSorted(s.schedule, Spared(done + {sid}));
    assert s.subtasks[sid].Subtask? && s.subtasks[sid].id == sid;
    SortedUnique(q.schedule, d.schedule);
    assert q.subtasks == d.subtasks;
  }

  /** clearEpicSubtasks of a stored epic: its listed subtasks purged, the epic emptied and set to NEW. */
  lemma ClearOwnedIsPurge(s: Store, id: int)
    requires Kinds(s) && Linked(s) && id in s.epics
    ensures var p := Purge(s, s.epics[id].subtaskIds);
      ClearOwned(s, {id}) == Store(p.tasks, s.epics[id := ClearSubtaskIds(s.epics[id]).(status := NEW)],
                                  p.subtasks, p.schedule, p.history)
  {
    OwnedByOne(s, id);
  }

  /** The store after dropping the listed subtasks one at a time, in order; an id no longer stored is passed over. */
  ghost function Drops(s: Store, order: seq<int>): Store
    decreases |order|
  {
    if |order| == 0 then s
    else
      var p := Drops(s, order[..|order| - 1]);
      var sid := order[|order| - 1];
      if sid in p.subtasks then DropOne(p, sid) else p
  }

  /** Dropping stored subtasks one at a time, in any order and with repeats, purges exactly those subtasks. */
  lemma {:induction false} DropsIsPurge(s: Store, order: seq<int>, gone: set<int>)
    requires Kinds(s) && Sorted(s.schedule) && gone <= s.subtasks.Keys
    requires forall x :: x in order <==> x in gone
    ensures Drops(s, order) == Purge(s, gone)
    decreases |order|
  {
    if |order| == 0 {
      assert forall x | x in gone :: x in order;
      assert gone == {};
      PurgeNothing(s);
    } else {
      var init := order[..|order| - 1];
      var sid := order[|order| - 1];
      assert order == init + [sid];
      if sid in init {
        DropsIsPurge(s, init, gone);
      } else {
        DropsIsPurge(s, init, gone - {sid});
        PurgeStep(s, gone - {sid}, sid);
        assert gone - {sid} + {sid} == gone;
      }
    }
  }

  // ----- clearSubtasks one epic at a time -----

  /** What clearEpicSubtasks needs of the store, and keeps. */
  ghost predicate Clearable(s: Store) {
    Kinds(s) && Unique(s) && Linked(s) && Sorted(s.schedule)
  }

  lemma ClearOwnedClearable(s: Store, es: set<int>)
    requires Clearable(s) && es <= s.epics.Keys
    ensures Clearable(ClearOwned(s, es))
  {
    ClearOwnedLinked(s, es);
    ClearOwnedSorted(s, es);
  }

  /** clearEpicSubtasks applied to the listed epics one at a time, in order. */
  ghost function ClearEach(s: Store, order: seq<int>): (r: Store)
    requires Clearable(s)
    ensures Clearable(r)
    decreases |order|
  {
    if |order| == 0 then s
    else
      var p := ClearEach(s, order[..|order| - 1]);
      var e := order[|order| - 1];
      if e in p.epics then ClearOwnedClearable(p, {e}); ClearEpicSubtasks(p, e) else p
  }

  /** Clearing the epics one at a time, in any order, is clearing them all at once. */
  lemma {:induction false} ClearEachIsClearOwned(s: Store, order: seq<int>, es: set<int>)
    requires Inv(s) && es <= s.epics.Keys && Distinct(order)
    requires forall x :: x in order <==> x in es
    ensures Clearable(s) && ClearEach(s, order) == ClearOwned(s, es)
    decreases |order|
  {
    if |order| == 0 {
      assert forall x | x in es :: x in order;
      assert es == {};
      ClearOwnedNothing(s);
    } else {
      var e := order[|order| - 1];
      SplitLast(order, es);
      ClearEachIsClearOwned(s, order[..|order| - 1], es - {e});
      ClearOwnedTwice(s, es - {e}, e);
    }
  }

  /** The loop of clearSubtasks over every epic ends in clearSubtasks, which keeps the invariant. */
  lemma ClearEachAll(s: Store, order: seq<int>)
    requires Inv(s) && Distinct(order)
    requires forall x :: x in order <==> x in s.epics.Keys
    ensures Clearable(s) && ClearEach(s, order) == ClearSubtasks(s) && Inv(ClearSubtasks(s))
  {
    ClearEachIsClearOwned(s, order, s.epics.Keys);
    ClearOwnedKeepsInv(s, s.epics.Keys);
  }

  // ----- the history names only stored entities -----

  /**
   * Storing and editing entities loses no id and leaves the history alone,
   * so every history entry still names a stored entity.
   */
  lemma AddsKeepHistoryStored(s: Store, t: Task)
    requires Inv(s) && HistoryStored(s)
    ensures t.Epic? && t.subtaskIds == {} ==> HistoryStored(AddEpic(s, t).0)
    ensures t.Epic? ==> HistoryStored(UpdateEpic(s, t))
    ensures t.Subtask? ==> HistoryStored(AddSubtask(s, t).0) && HistoryStored(UpdateSubtask(s, t))
    ensures HistoryStored(AddTask(s, t).0)
    ensures t.Task? ==> HistoryStored(UpdateTask(s, t))
  {
    if t.Epic? {
      UpdateEpicKeepsInv(s, t);
      if t.subtaskIds == {} {
        AddEpicKeepsInv(s, t);
      }
    }
    if t.Subtask? {
      AddSubtaskKeepsInv(s, t);
      UpdateSubtaskKeepsInv(s, t);
    }
    AddTaskKeepsInv(s, t);
    if t.Task? {
      UpdateTaskKeepsInv(s, t);
    }
  }

  /** A get records an entity the registry holds. */
  lemma GetsKeepHistoryStored(s: Store, id: int)
    requires Kinds(s) && HistoryStored(s)
    ensures GetEpic(s, id).Success? ==> HistoryStored(GetEpic(s, id).value.0)
    ensures GetSubtask(s, id).Success? ==> HistoryStored(GetSubtask(s, id).value.0)
    ensures GetTask(s, id).Success? ==> HistoryStored(GetTask(s, id).value.0)
  {
    forall t: Task | Contains(s, t.id)
      ensures HistoryStored(Viewed(s, t).0)
    {
      WithoutElements(s.history, t.id);
    }
  }

  /** Each removal takes the ids it removes out of the history too. */
  lemma RemovalsKeepHistoryStored(s: Store, id: int)
    requires Inv(s) && HistoryStored(s)
    ensures HistoryStored(ClearEpicSubtasks(s, id))
    ensures HistoryStored(RemoveEpic(s, id))
    ensures HistoryStored(RemoveSubtask(s, id))
    ensures RemoveTask(s, id).Success? ==> HistoryStored(RemoveTask(s, id).value)
  {
    var c := ClearEpicSubtasks(s, id);
    if id in s.epics {
      ClearOwnedKeepsInv(s, {id});
      WithoutAllElements(s.history, Owned(s, {id}));
    }
    assert HistoryStored(c);
    WithoutElements(c.history, id);
    WithoutElements(s.history, id);
    RemoveSubtaskKeepsInv(s, id);
    RemoveTaskKeepsInv(s, id);
  }

  /** Each clear takes the ids it clears out of the history too. */
  lemma ClearsKeepHistoryStored(s: Store)
    requires Inv(s) && HistoryStored(s)
    ensures HistoryStored(ClearEpics(s))
    ensures HistoryStored(ClearSubtasks(s))
    ensures HistoryStored(ClearTasks(s))
    ensures HistoryStored(ClearAllData(s))
  {
    ClearEpicsKeepsInv(s);
    ClearTasksKeepsInv(s);
    ClearSubtasksKeepsInv(s);
    WithoutAllElements(s.history, Owned(s, s.epics.Keys));
  }

  // ----- the history as getHistory returns it -----

  /**
   * getHistory keeps the order and the ids of the recorded entries.  An epic
   * entry whose id is in `live` reads as the stored epic, with whatever the
   * manager has changed in it since; every other entry reads as recorded.
   */
  lemma LiveHistorySpec(s: Store, live: set<int>)
    requires Kinds(s)
    ensures IdsOf(LiveHistory(s, live)) == IdsOf(s.history)
    ensures DistinctIds(s.history) ==> DistinctIds(LiveHistory(s, live))
    ensures forall i | 0 <= i < |s.history| :: LiveHistory(s, live)[i].Epic? == s.history[i].Epic?
    ensures forall i | 0 <= i < |s.history| && s.history[i].Epic? && s.history[i].id in live && s.history[i].id in s.epics ::
      LiveHistory(s, live)[i] == s.epics[s.history[i].id]
    ensures forall i | 0 <= i < |s.history| && (!s.history[i].Epic? || s.history[i].id !in live) ::
      LiveHistory(s, live)[i] == s.history[i]
  {
    var r := LiveHistory(s, live);
    assert forall i | 0 <= i < |r| :: r[i].id == s.history[i].id;
  }

  /**
   * An updateEpic after getEpic recorded the stored epic shows in getHistory:
   * the entry carries the new name and description; an entry that is not the
   * stored object keeps what it had.
   */
  lemma UpdateEpicShowsInHistory(s: Store, live: set<int>, epic: Task, i: int)
    requires Kinds(s) && epic.Epic? && epic.id in s.epics
    requires 0 <= i < |s.history| && s.history[i].Epic? && s.history[i].id == epic.id
    ensures UpdateEpic(s, epic).history == s.history
    ensures epic.id in live ==>
      && LiveHistory(UpdateEpic(s, epic), live)[i].name == epic.name
      && LiveHistory(UpdateEpic(s, epic), live)[i].description == epic.description
      && LiveHistory(UpdateEpic(s, epic), live)[i].status == s.epics[epic.id].status
    ensures epic.id !in live ==> LiveHistory(UpdateEpic(s, epic), live)[i] == s.history[i]
  {
  }

  /**
   * addEpic, getEpic, then updateEpic under a new name: the recorded entry is
   * the epic as viewed, and getHistory, with the id recorded by getEpic,
   * shows it renamed.
   */
  lemma RenamedEpicInHistory()
    ensures
      var e := Epic(1, "a", "", NEW, None, None, {}, None);
      var s1 := AddEpic(Empty, e).0;
      var renamed := Epic(1, "b", "", NEW, None, None, {}, None);
      && GetEpic(s1, 1).Success?
      && var s3 := UpdateEpic(GetEpic(s1, 1).value.0, renamed);
      && s3.history == [e]
      && LiveHistory(s3, {1}) == [renamed]
      && LiveHistory(s3, {}) == [e]
  {
    var e := Epic(1, "a", "", NEW, None, None, {}, None);
    var s1 := AddEpic(Empty, e).0;
    assert Added([], e) == [e];
  }
}
