/**
 * The epic of the earlier iteration that owns its subtask objects
 * (src/Epic.java): a map from id to subtask that its methods change in
 * place, each change followed by updateStatus.  Its status rule differs from
 * the one the registries use: one NEW subtask makes the whole epic NEW.
 */
module LegacyEpic {
  import opened Sets
  import opened Entities
  import opened Aggregation
  import opened LegacyEntities

  /**
   * The rule updateStatus applies: NEW without subtasks or when some subtask
   * is NEW; otherwise IN_PROGRESS when some subtask is IN_PROGRESS;
   * otherwise DONE.
   */
  function OwnedStatus(subs: map<int, Entity>): Status {
    if subs == map[] || exists k | k in subs :: subs[k].status == NEW then NEW
    else if exists k | k in subs :: subs[k].status == IN_PROGRESS then IN_PROGRESS
    else DONE
  }

  /** The statuses the subtasks show. */
  function StatusSet(subs: map<int, Entity>): set<Status> {
    set k | k in subs :: subs[k].status
  }

  /** DONE exactly when there are subtasks and all of them are DONE. */
  lemma OwnedStatusDone(subs: map<int, Entity>)
    ensures OwnedStatus(subs) == DONE <==> subs != map[] && forall k | k in subs :: subs[k].status == DONE
  {
  }

  /**
   * The epic rule of the registries (Aggregation.EpicStatus) and this one
   * disagree exactly when some subtask is NEW and some other status shows
   * too: the registries say IN_PROGRESS, this epic says NEW.
   */
  lemma {:induction false} OwnedVersusRegistryRule(subs: map<int, Entity>)
    ensures var ss := StatusSet(subs);
      OwnedStatus(subs) != EpicStatus(ss) <==> NEW in ss && !(ss <= {NEW})
    ensures var ss := StatusSet(subs);
      OwnedStatus(subs) != EpicStatus(ss) ==> OwnedStatus(subs) == NEW && EpicStatus(ss) == IN_PROGRESS
  {
    var ss := StatusSet(subs);
    EpicStatusRule(ss);
    assert NEW in ss <==> exists k | k in subs :: subs[k].status == NEW;
    assert IN_PROGRESS in ss <==> exists k | k in subs :: subs[k].status == IN_PROGRESS;
    assert ss == {} <==> subs == map[] by {
      if subs != map[] {
        var k := Pick(subs.Keys);
        assert subs[k].status in ss;
      }
    }
    assert forall x | x in ss :: x == NEW || x == IN_PROGRESS || x == DONE;
    if NEW !in ss && IN_PROGRESS !in ss && ss != {} {
      assert ss == {DONE};
    }
  }

  class Epic {
    const id: Int32
    var name: string
    var description: string
    var status: Status
    var subtasks: map<int, Entity>

    /** Epic(name, description): a fresh id, no subtasks, status NEW. */
    constructor (counter: IdCounter, name: string, description: string)
      modifies counter
      ensures id == counter.total && counter.total == Successor(old(counter.total))
      ensures this.name == name && this.description == description
      ensures subtasks == map[] && status == NEW
    {
      var drawn := counter.NextId();
      id := drawn;
      this.name := name;
      this.description := description;
      status := NEW;
      subtasks := map[];
    }

    /** Epic(name, description, tasks): the given map is taken over and the status derived from it at once. */
    constructor WithSubtasks(counter: IdCounter, name: string, description: string, tasks: map<int, Entity>)
      modifies counter
      ensures id == counter.total && counter.total == Successor(old(counter.total))
      ensures this.name == name && this.description == description
      ensures subtasks == tasks && status == OwnedStatus(tasks)
    {
      var drawn := counter.NextId();
      id := drawn;
      this.name := name;
      this.description := description;
      status := NEW;
      subtasks := tasks;
      new;
      UpdateStatus();
    }

    /**
     * updateStatus: a pass over the subtasks that stops at the first NEW
     * one and otherwise notes whether any is IN_PROGRESS.
     */
    method UpdateStatus()
      modifies this
      ensures status == OwnedStatus(subtasks)
      ensures subtasks == old(subtasks) && name == old(name) && description == old(description)
    {
      var subs := subtasks;
      if subs == map[] {
        status := NEW;
        return;
      }
      var statuses: set<Status> := {};
      var rest := subs.Keys;
      while rest != {}
        invariant rest <= subs.Keys && statuses <= {IN_PROGRESS}
        invariant forall k | k in subs && k !in rest :: subs[k].status != NEW
        invariant IN_PROGRESS in statuses <==> exists k | k in subs && k !in rest :: subs[k].status == IN_PROGRESS
        modifies {}
        decreases rest
      {
        var k := Choose(rest);
        if subs[k].status == NEW {
          statuses := statuses + {NEW};
          break;
        } else if subs[k].status == IN_PROGRESS {
          statuses := statuses + {IN_PROGRESS};
        }
        rest := rest - {k};
      }
      if NEW in statuses {
        status := NEW;
      } else if IN_PROGRESS in statuses {
        status := IN_PROGRESS;
      } else {
        status := DONE;
      }
    }

    /** addSubtask(Subtask): putIfAbsent, so a present id keeps its subtask; then the status. */
    method AddSubtask(subtask: Entity)
      modifies this
      ensures subtasks == if subtask.id in old(subtasks) then old(subtasks) else old(subtasks)[subtask.id := subtask]
      ensures status == OwnedStatus(subtasks)
      ensures name == old(name) && description == old(description)
    {
      if subtask.id !in subtasks {
        subtasks := subtasks[subtask.id := subtask];
      }
      UpdateStatus();
    }

    /**
     * addSubtask(Task): a new subtask of this epic with the task's name,
     * description and status and a fresh id, stored under that id.
     */
    method AddSubtaskFrom(counter: IdCounter, task: Entity)
      modifies this, counter
      ensures counter.total == Successor(old(counter.total))
      ensures subtasks == old(subtasks)[counter.total :=
        Entity.Subtask(counter.total, task.name, task.description, task.status, id)]
      ensures status == OwnedStatus(subtasks)
      ensures name == old(name) && description == old(description)
    {
      var drawn := counter.NextId();
      var subtask := Entity.Subtask(drawn, task.name, task.description, task.status, id);
      subtasks := subtasks[drawn := subtask];
      UpdateStatus();
    }

    /** updateSubtask: replaces only an id already present; the status is recomputed either way. */
    method UpdateSubtask(subtask: Entity)
      modifies this
      ensures subtasks == if subtask.id in old(subtasks) then old(subtasks)[subtask.id := subtask] else old(subtasks)
      ensures status == OwnedStatus(subtasks)
      ensures name == old(name) && description == old(description)
    {
      if subtask.id in subtasks {
        subtasks := subtasks[subtask.id := subtask];
      }
      UpdateStatus();
    }

    /** clearSubtasks: no subtasks and status NEW. */
    method ClearSubtasks()
      modifies this
      ensures subtasks == map[] && status == NEW && status == OwnedStatus(subtasks)
      ensures name == old(name) && description == old(description)
    {
      subtasks := map[];
      status := NEW;
    }

    /** removeSubtask: the id leaves the map, then the status. */
    method RemoveSubtask(subtaskId: int)
      modifies this
      ensures subtasks == old(subtasks) - {subtaskId}
      ensures status == OwnedStatus(subtasks)
      ensures name == old(name) && description == old(description)
    {
      subtasks := subtasks - {subtaskId};
      UpdateStatus();
    }
  }
}
