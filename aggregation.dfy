/**
 * The fields an epic derives from its subtasks (computeEpicFields and
 * setEpicStatus of the registry): its status from the set of their
 * statuses, and, when at least one subtask has a start and an end, its
 * start, end and duration from those dated subtasks.
 */
module Aggregation {
  import opened Wrappers
  import opened Entities
  import opened Sets

  /** setEpicStatus: NEW for {} or {NEW}, DONE for {DONE}, IN_PROGRESS otherwise. */
  function EpicStatus(statuses: set<Status>): Status {
    var size := |statuses|;
    if size == 0 || (size == 1 && NEW in statuses) then NEW
    else if size == 1 && DONE in statuses then DONE
    else IN_PROGRESS
  }

  /** The status rule, stated on the contents of the status set, in both directions. */
  lemma EpicStatusRule(statuses: set<Status>)
    ensures EpicStatus(statuses) == NEW <==> statuses <= {NEW}
    ensures EpicStatus(statuses) == DONE <==> statuses == {DONE}
    ensures EpicStatus(statuses) == IN_PROGRESS <==> !(statuses <= {NEW}) && statuses != {DONE}
  {
    assert forall x | x in statuses :: x == NEW || x == IN_PROGRESS || x == DONE;
    if NEW in statuses {
      if IN_PROGRESS in statuses {
        if DONE in statuses {
          assert statuses == {NEW, IN_PROGRESS, DONE};
        } else {
          assert statuses == {NEW, IN_PROGRESS};
        }
      } else if DONE in statuses {
        assert statuses == {NEW, DONE};
      } else {
        assert statuses == {NEW};
      }
    } else if IN_PROGRESS in statuses {
      if DONE in statuses {
        assert statuses == {IN_PROGRESS, DONE};
      } else {
        assert statuses == {IN_PROGRESS};
      }
    } else if DONE in statuses {
      assert statuses == {DONE};
    } else {
      assert statuses == {};
    }
  }

  /** The statuses of the given subtasks. */
  function StatusesOf(ids: set<int>, subs: map<int, Task>): set<Status>
    requires ids <= subs.Keys
  {
    set id | id in ids :: subs[id].status
  }

  /** The subtasks that count for the time window: those with a start and an end. */
  function DatedOf(ids: set<int>, subs: map<int, Task>): set<int>
    requires ids <= subs.Keys
  {
    set id | id in ids && IsPrioritized(subs[id])
  }

  /** The starts and ends of the dated subtasks among `ids` (the subtasksDates set). */
  function Dates(ids: set<int>, subs: map<int, Task>): set<int>
    requires ids <= subs.Keys
  {
    (set id | id in ids && IsPrioritized(subs[id]) :: subs[id].start.value)
    + (set id | id in ids && IsPrioritized(subs[id]) :: EndTime(subs[id]).value)
  }

  /** What a subtask adds to the epic's duration: its own, when it is dated. */
  function Contribution(s: Task): int {
    if IsPrioritized(s) && s.duration.Some? then s.duration.value else 0
  }

  /** The sum of the durations of the dated subtasks among `ids`. */
  ghost function TotalDuration(ids: set<int>, subs: map<int, Task>): int
    requires ids <= subs.Keys
    decreases |ids|
  {
    if ids == {} then 0
    else
      var id := Pick(ids);
      Contribution(subs[id]) + TotalDuration(ids - {id}, subs)
  }

  /** The least element of a non-empty finite set (SortedSet.first). */
  ghost function Least(s: set<int>): (m: int)
    requires s != {}
    ensures m in s && forall y | y in s :: m <= y
    decreases |s|
  {
    var x := Pick(s);
    if s == {x} then x
    else
      var m := Least(s - {x});
      assert forall y | y in s :: y == x || y in s - {x};
      if x < m then x else m
  }

  /** The greatest element of a non-empty finite set (SortedSet.last). */
  ghost function Greatest(s: set<int>): (m: int)
    requires s != {}
    ensures m in s && forall y | y in s :: y <= m
    decreases |s|
  {
    var x := Pick(s);
    if s == {x} then x
    else
      var m := Greatest(s - {x});
      assert forall y | y in s :: y == x || y in s - {x};
      if x > m then x else m
  }

  /**
   * computeEpicFields: the status from the subtasks' statuses; the start,
   * end and duration from the dated subtasks when there is one, and left as
   * they were otherwise.
   */
  ghost function ComputeEpicFields(e: Task, subs: map<int, Task>): Task
    requires e.Epic? && e.subtaskIds <= subs.Keys
  {
    var ids := e.subtaskIds;
    var status := EpicStatus(StatusesOf(ids, subs));
    if DatedOf(ids, subs) == {} then
      Epic(e.id, e.name, e.description, status, e.start, e.duration, ids, e.endTime)
    else
      var dates := Dates(ids, subs);
      assert dates != {} by {
        var id := Pick(DatedOf(ids, subs));
        assert subs[id].start.value in dates;
      }
      Epic(e.id, e.name, e.description, status,
           Some(Least(dates)), Some(TotalDuration(ids, subs)), ids, Some(Greatest(dates)))
  }

  // ----- properties -----

  /** Sums do not depend on the order in which the subtasks are visited. */
  lemma {:induction false} TotalDurationRemove(ids: set<int>, subs: map<int, Task>, x: int)
    requires ids <= subs.Keys && x in ids
    ensures TotalDuration(ids, subs) == Contribution(subs[x]) + TotalDuration(ids - {x}, subs)
    decreases |ids|
  {
    var y :| y in ids && TotalDuration(ids, subs) == Contribution(subs[y]) + TotalDuration(ids - {y}, subs);
    if y != x {
      TotalDurationRemove(ids - {y}, subs, x);
      TotalDurationRemove(ids - {x}, subs, y);
      assert ids - {y} - {x} == ids - {x} - {y};
    }
  }

  /** Adding one more subtask to the visited ones, as the loop of computeEpicFields does. */
  lemma VisitOne(ids: set<int>, subs: map<int, Task>, x: int)
    requires ids <= subs.Keys && x in subs && x !in ids
    ensures StatusesOf(ids + {x}, subs) == StatusesOf(ids, subs) + {subs[x].status}
    ensures Dates(ids + {x}, subs) == Dates(ids, subs)
      + (if IsPrioritized(subs[x]) then {subs[x].start.value, EndTime(subs[x]).value} else {})
    ensures DatedOf(ids + {x}, subs) == DatedOf(ids, subs) + (if IsPrioritized(subs[x]) then {x} else {})
    ensures TotalDuration(ids + {x}, subs) == TotalDuration(ids, subs) + Contribution(subs[x])
  {
    TotalDurationRemove(ids + {x}, subs, x);
    assert ids + {x} - {x} == ids;
  }

  /** There are dates exactly when some subtask is dated. */
  lemma DatesOfDated(ids: set<int>, subs: map<int, Task>)
    requires ids <= subs.Keys
    ensures Dates(ids, subs) == {} <==> DatedOf(ids, subs) == {}
  {
    if DatedOf(ids, subs) != {} {
      var id := Pick(DatedOf(ids, subs));
      assert subs[id].start.value in Dates(ids, subs);
    }
    if Dates(ids, subs) != {} {
      var d := Pick(Dates(ids, subs));
      var id :| id in ids && IsPrioritized(subs[id]) && (d == subs[id].start.value || d == EndTime(subs[id]).value);
      assert id in DatedOf(ids, subs);
    }
  }

  /** The derived status, stated on the subtasks themselves. */
  lemma StatusOfSubtasks(ids: set<int>, subs: map<int, Task>)
    requires ids <= subs.Keys
    ensures EpicStatus(StatusesOf(ids, subs)) == NEW <==> forall id | id in ids :: subs[id].status == NEW
    ensures EpicStatus(StatusesOf(ids, subs)) == DONE <==>
      ids != {} && forall id | id in ids :: subs[id].status == DONE
  {
    var ss := StatusesOf(ids, subs);
    EpicStatusRule(ss);
    assert forall id | id in ids :: subs[id].status in ss;
    assert forall x | x in ss :: exists id | id in ids :: subs[id].status == x;
    if ids != {} {
      var id := Pick(ids);
      assert subs[id].status in ss;
    }
  }

  /**
   * What computeEpicFields promises: the status rule; with a dated subtask,
   * the least and greatest of their starts and ends and the sum of their
   * durations; without one, the window left as it was; and nothing else
   * touched.
   */
  lemma ComputeEpicFieldsSpec(e: Task, subs: map<int, Task>)
    requires e.Epic? && e.subtaskIds <= subs.Keys
    ensures var r := ComputeEpicFields(e, subs);
      && r.Epic? && r.id == e.id && r.name == e.name && r.description == e.description
      && r.subtaskIds == e.subtaskIds
      && r.status == EpicStatus(StatusesOf(e.subtaskIds, subs))
      && (DatedOf(e.subtaskIds, subs) == {} ==>
            r.start == e.start && r.endTime == e.endTime && r.duration == e.duration)
      && (DatedOf(e.subtaskIds, subs) != {} ==>
            && r.start.Some? && r.endTime.Some? && r.duration.Some?
            && r.start.value in Dates(e.subtaskIds, subs)
            && r.endTime.value in Dates(e.subtaskIds, subs)
            && (forall id | id in DatedOf(e.subtaskIds, subs) ::
                  && r.start.value <= subs[id].start.value
                  && r.start.value <= EndTime(subs[id]).value
                  && EndTime(subs[id]).value <= r.endTime.value
                  && subs[id].start.value <= r.endTime.value)
            && r.duration.value == TotalDuration(e.subtaskIds, subs))
  {
    var ids := e.subtaskIds;
    if DatedOf(ids, subs) != {} {
      var dates := Dates(ids, subs);
      forall id | id in DatedOf(ids, subs)
        ensures subs[id].start.value in dates && EndTime(subs[id]).value in dates
      {
      }
    }
  }

  /** Recomputing twice is recomputing once: the fields are a function of the subtasks. */
  lemma ComputeEpicFieldsIdempotent(e: Task, subs: map<int, Task>)
    requires e.Epic? && e.subtaskIds <= subs.Keys
    ensures ComputeEpicFields(ComputeEpicFields(e, subs), subs) == ComputeEpicFields(e, subs)
  {
  }

  /** Only the epic's own subtasks matter. */
  lemma ComputeEpicFieldsFrame(e: Task, subs: map<int, Task>, subs': map<int, Task>)
    requires e.Epic? && e.subtaskIds <= subs.Keys && e.subtaskIds <= subs'.Keys
    requires forall id | id in e.subtaskIds :: subs[id] == subs'[id]
    ensures ComputeEpicFields(e, subs) == ComputeEpicFields(e, subs')
  {
    var ids := e.subtaskIds;
    assert StatusesOf(ids, subs) == StatusesOf(ids, subs');
    forall id
      ensures id in DatedOf(ids, subs) <==> id in DatedOf(ids, subs')
    {
      if id in ids {
        assert subs[id] == subs'[id];
      }
    }
    assert DatedOf(ids, subs) == DatedOf(ids, subs');
    assert Dates(ids, subs) == Dates(ids, subs');
    TotalDurationFrame(ids, subs, subs');
  }

  lemma {:induction false} TotalDurationFrame(ids: set<int>, subs: map<int, Task>, subs': map<int, Task>)
    requires ids <= subs.Keys && ids <= subs'.Keys
    requires forall id | id in ids :: subs[id] == subs'[id]
    ensures TotalDuration(ids, subs) == TotalDuration(ids, subs')
    decreases |ids|
  {
    if ids != {} {
      var x := Pick(ids);
      TotalDurationRemove(ids, subs, x);
      TotalDurationRemove(ids, subs', x);
      TotalDurationFrame(ids - {x}, subs, subs');
    }
  }
}
