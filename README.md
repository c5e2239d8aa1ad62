# java-kanban in Dafny

A model of the task tracker java-kanban. It keeps three kinds of entity:

- **tasks**;
- **epics**, which group subtasks and derive their status and time window from them;
- **subtasks**, each of which names its epic.

They are kept in id-keyed maps. Two more structures sit beside the maps:

- a *prioritized set* of the dated tasks and subtasks, ordered by start time, in which no two windows may overlap;
- a *history* of viewed entities, one entry per id, most recent last.

The model covers:

- the entities of package `tasks`, with their id counter and the row codec (`toSaveString` and `createFromString`);
- the manager of package `services`, in two forms:
  - as values: module `Registry`, with the invariant proved in `RegistryLaws`;
  - as the in-place object: class `Manager.InMemoryTaskManager`, proved against `Registry`;
- the linked-list history manager (class `History.HistoryManager`);
- the file-backed manager (module `FileBacked`), with the save format (`Snapshot`), the reading of a file (`Loading`) and the round trip `Reload.SaveThenLoad`;
- the registry operations as the source writes them, in module `AsWritten`, where that differs from what the code evidently means (see "## Findings");
- the earlier iteration in the default package (`src/*.java`): a manager without times or schedule (`LegacyRegistry`, `LegacyManagers`), a ten-entry history (`LegacyHistory`) and an epic that owns its subtask objects (`LegacyEpic`).

The model's conventions:

- Times and durations are whole minutes.
- Java exceptions are `Failure(fault)` results. Where the source throws before changing anything, the state is left unchanged.
- Ids are Java `int`s: the counter wraps from `INT_MAX` to `INT_MIN`.
- The prioritized `TreeSet` is a sequence strictly ordered by start. Its comparator looks only at the start, so in the source `remove(x)` drops whichever element has x's start. The as-written operations of module `AsWritten` remove that way (`AsWritten.TreeRemove`, `Schedule.RemoveByStart`). The corrected operations of `Registry`, used by `Manager` and `FileBacked`, remove by class and id (`Schedule.Evict`).
- The file is its sequence of lines; whether it exists is an `Option`.

## Model

| member | source | states |
|---|---|---|
| Entities.EndTimeRules | src/tasks/Task.java:148-150 | an entity is prioritized exactly when it has a start and an end; a task's end is start plus duration when both exist, an epic's end is its stored end |
| Entities.EqualsIsIdentity | src/tasks/Task.java:153-158 | equals is an equivalence that looks only at the runtime class and the id |
| Entities.SubtaskIdSetLaws | src/tasks/Epic.java:44-54 | addSubtask, removeSubtask and clearSubtasks act on the epic's id set as set insert, delete and clear, and change no other field |
| Entities.IdCounter.NextId | src/tasks/Task.java:76-78 | the counter moves to its 32-bit successor and that value is the id handed out |
| Entities.IdCounter.Observe | src/tasks/Task.java:38-40 | an explicit id larger than the counter becomes the counter; otherwise the counter stays |
| Entities.FreshIdAfterObserve | src/tasks/Task.java:57-59 | after an explicit id is observed, the next fresh id is larger than it unless the counter wraps at INT_MAX |
| Entities.FreshIdsIncrease | src/tasks/Task.java:76-78 | two ids drawn in turn increase unless the first is INT_MAX |
| Entities.NewTask | src/tasks/Task.java:18-30 | a new task gets the next id, the given name, description and status, and no window |
| Entities.TaskWithId | src/tasks/Task.java:43-60 | an explicit-id task keeps every given field, and the counter observes the id |
| Entities.NewEpic | src/tasks/Epic.java:16-19 | a new epic is NEW, with a fresh id, no subtasks and no window |
| Entities.EpicWithId | src/tasks/Epic.java:21-24 | an explicit-id epic is NEW and empty, and the counter observes its id |
| Entities.NewSubtask | src/tasks/Subtask.java:25-34 | a new subtask gets a fresh id and keeps its epic id and window; the five-argument Task constructor it calls is not declared in src/tasks/Task.java, so the model supplies it as a fresh-id constructor |
| Entities.CloneEpicWithNextId | src/tasks/Epic.java:60-62 | the clone keeps only the name and description, under a fresh id |
| Entities.CloneSubtaskWithNextId | src/tasks/Subtask.java:70-74 | the clone keeps every field but the id, which is fresh |
| Decimal.NatToStringRoundTrip | src/tasks/Task.java:180 | the digits written for a natural number read back as that number |
| Decimal.ParseInt | src/tasks/Task.java:99 | a success is an int-range value that the text denotes as a signed decimal; any failure is a NumberFormatException |
| Decimal.ParseIntRejectsEmpty | src/tasks/Task.java:94 | the empty text and a lone sign are NumberFormatExceptions |
| Decimal.ParseDecimalOfIntToString | src/tasks/Task.java:177-182 | reading back String.valueOf(x) gives x for every integer |
| Decimal.ParseIntOfIntToString | src/tasks/Task.java:99 | parseInt(String.valueOf(x)) == x for every 32-bit x |
| Decimal.IntToStringShape | src/tasks/Task.java:180 | number text is non-empty, starts with a digit or '-', and holds no delimiter |
| Rows.StatusValueOf | src/tasks/Task.java:102 | valueOf accepts exactly the three constant names and fails with IllegalArgument otherwise |
| Rows.DecodeTask | src/tasks/Task.java:84-106 | a decoded task row is an object of class Task |
| Rows.DecodeSubtask | src/tasks/Subtask.java:48-64 | a decoded subtask row is an object of class Subtask |
| Rows.DecodeEpic | src/tasks/Epic.java:26-33 | a decoded epic row is an Epic with no subtask ids |
| Rows.Decode | src/services/FileBackedTaskManager.java:105-116 | the row kind selects the decoder, and the result is of that class |
| Rows.CreateFromString | src/tasks/Task.java:84-106 | decoding advances the counter past the row's id when the explicit-id constructor ran |
| Rows.NewTaskFromText | src/tasks/Task.java:62-74 | a fresh id is always drawn; an unknown status name is IllegalArgument, then bad date text is a parse failure; otherwise a Task with the parsed status, the parsed start and the duration |
| Rows.NewSubtaskFromText | src/tasks/Subtask.java:14-23 | as the Task text constructor, failures included, giving a Subtask of the given epic |
| Rows.TimeRoundTrip | src/tasks/Task.java:72 | formatted date text parses back to the same time |
| Rows.StatusRoundTrip | src/tasks/Task.java:180 | every status name reads back as that status |
| Rows.NumberText | src/tasks/Task.java:180 | the id and duration fields are never blank and hold no delimiter |
| Rows.SaveStringShape | src/tasks/Task.java:177-182 | a saved row is its kind name, a delimiter and the payload, so cutting at the first delimiter recovers the payload |
| Rows.PayloadPieces | src/tasks/Subtask.java:90-96 | every payload field of an entity without a delimiter in its text holds no delimiter |
| Rows.WindowRoundTrip | src/tasks/Task.java:86-96 | the start and duration fields read back as written, absent ones as absent |
| Rows.TaskRoundTrip | src/tasks/Task.java:84-106 | decoding a task's row restores every field |
| Rows.SubtaskRoundTrip | src/tasks/Subtask.java:48-64 | decoding a subtask's row restores every field, including the epic id |
| Rows.EpicRoundTrip | src/tasks/Epic.java:26-33 | decoding an epic's row restores its id, name and description; it comes back NEW, empty and without a window |
| Rows.ShortRows | src/tasks/Task.java:88-96 | a four-field row carries no window, and a five-field row throws on the missing sixth field |
| Rows.RowSingleLine | src/services/FileBackedTaskManager.java:99 | the row of a codec-safe entity holds no line break, so readLine returns it whole |
| Rows.SubtaskFieldsAsTask | src/tasks/Subtask.java:54-62 | a subtask row decodes its task fields exactly as a task row does |
| Aggregation.EpicStatusRule | src/services/InMemoryTaskManager.java:60-69 | the epic is NEW for no statuses or only NEW, DONE for only DONE, IN_PROGRESS otherwise; each in both directions |
| Aggregation.Least | src/services/InMemoryTaskManager.java:53 | the result is in the set and no element is smaller |
| Aggregation.Greatest | src/services/InMemoryTaskManager.java:54 | the result is in the set and no element is larger |
| Aggregation.TotalDurationRemove | src/services/InMemoryTaskManager.java:48 | the duration sum does not depend on the order in which subtasks are visited |
| Aggregation.DatesOfDated | src/services/InMemoryTaskManager.java:45-52 | there are dates exactly when some subtask has a start and an end |
| Aggregation.StatusOfSubtasks | src/services/InMemoryTaskManager.java:39-41 | the derived status, stated on the subtasks themselves: DONE exactly when all are DONE, NEW exactly when none or all are NEW |
| Aggregation.ComputeEpicFieldsSpec | src/services/InMemoryTaskManager.java:34-58 | with a dated subtask: the least start, the greatest end and the sum of durations; without one: the window unchanged; always the status rule; nothing else touched |
| Aggregation.ComputeEpicFieldsIdempotent | src/services/InMemoryTaskManager.java:34-58 | recomputing an epic twice is recomputing it once |
| Aggregation.ComputeEpicFieldsFrame | src/services/InMemoryTaskManager.java:39-40 | only the epic's own subtasks affect the result |
| Schedule.AnyConflict | src/services/InMemoryTaskManager.java:285-289 | the element-by-element anyMatch is true exactly when some other element clashes |
| Schedule.IsIntersectedTask | src/services/InMemoryTaskManager.java:283-290 | false for an undated candidate; otherwise whether some other element has the same start or an overlapping window |
| Schedule.Insert | src/services/InMemoryTaskManager.java:146 | TreeSet.add keeps start order, adds the element when its start is free, and changes nothing when it is not |
| Schedule.FilterKeepsSorted | src/services/InMemoryTaskManager.java:270-275 | dropping elements keeps start order |
| Schedule.FilterKeepsValid | src/services/InMemoryTaskManager.java:270-275 | dropping elements keeps the schedule valid |
| Schedule.RemoveByStart | src/services/InMemoryTaskManager.java:244 | remove(x) drops exactly the element with x's start, whichever entity that is |
| Schedule.Evict | src/services/InMemoryTaskManager.java:177 | (corrected, Findings row 8) the entity leaves and every other element stays, in order |
| Schedule.Admit | src/services/InMemoryTaskManager.java:144-148 | only an entity with a start and an end enters the set |
| Schedule.ConflictRules | src/services/InMemoryTaskManager.java:286-288 | the clash test is symmetric, and windows that only touch do not clash |
| Schedule.SortedUnique | src/services/InMemoryTaskManager.java:25 | a sorted set is fixed by its elements, so the contents decide the iteration order |
| Schedule.AdmitKeepsValid | src/services/InMemoryTaskManager.java:144-148 | admitting a candidate that passes the clash test keeps the schedule valid and adds exactly that candidate |
| History.WithoutElements | src/services/InMemoryHistoryManager.java:35-40 | removal keeps exactly the entries with other ids, in order |
| History.WithoutAllElements | src/services/InMemoryHistoryManager.java:35-40 | a series of removals keeps ids distinct and drops exactly the given ids |
| History.WithoutUntracked | src/services/InMemoryHistoryManager.java:36 | removing an untracked id changes nothing |
| History.WithoutKeepsDistinct | src/services/InMemoryHistoryManager.java:35-40 | removal keeps ids distinct |
| History.AddedSpec | src/services/InMemoryHistoryManager.java:19-32 | after add(t), t is the last entry and the only one with its id; the other entries keep their order; length grows by one only for a new id |
| History.WithoutSpec | src/services/InMemoryHistoryManager.java:60-82 | remove drops exactly that entry, whether it is the head, the tail, the only or a middle node, and changes nothing for an untracked id |
| History.DistinctIdsCount | src/services/InMemoryHistoryManager.java:44 | with distinct ids, the history is as long as its id set |
| History.HistoryManager.constructor | src/services/InMemoryHistoryManager.java:12-16 | a new history is empty, with a consistent list and index |
| History.HistoryManager.LinkLast | src/services/InMemoryHistoryManager.java:53-58 | the old last node points to the new node, which becomes last |
| History.HistoryManager.RemoveNode | src/services/InMemoryHistoryManager.java:60-82 | the node is unlinked in each of the four cases, and its neighbours are joined |
| History.HistoryManager.Remove | src/services/InMemoryHistoryManager.java:35-40 | the contents become the old contents without that id, and the list stays consistent |
| History.HistoryManager.Add | src/services/InMemoryHistoryManager.java:19-32 | the contents become the old contents with the id's entry moved to the end as the given task |
| History.HistoryManager.GetHistory | src/services/InMemoryHistoryManager.java:43-51 | the walk from first along next returns exactly the contents, oldest first |
| History.HistoryManager.Clear | src/services/InMemoryTaskManager.java:261 | the history becomes empty |
| RegistryLaws.EmptyInv | src/services/InMemoryTaskManager.java:21-27 | a new registry satisfies the invariant: kinds, unique ids, exact epic links, derived epic fields, exact schedule and distinct history |
| RegistryLaws.AddEpicKeepsInv | src/services/InMemoryTaskManager.java:77-83 | a used id gives -1 and changes nothing; otherwise the epic is stored, the invariant kept and its id returned |
| RegistryLaws.GetKeepsInv | src/services/InMemoryTaskManager.java:86-90 | a get of a stored id returns the entity and records it in the history; an unknown id fails with NullPointer |
| RegistryLaws.UpdateEpicKeepsInv | src/services/InMemoryTaskManager.java:93-100 | only the stored epic's name and description change, and the invariant is kept |
| RegistryLaws.ClearOwnedKeepsInv | src/services/InMemoryTaskManager.java:185-196 | after clearing, the epics' subtasks are gone from the map, the set and the history, and each epic is empty and NEW |
| RegistryLaws.ClearOwnedTwice | src/services/InMemoryTaskManager.java:199-202 | clearing one more epic after a group is clearing the larger group |
| RegistryLaws.RemoveEpicKeepsInv | src/services/InMemoryTaskManager.java:103-107 | the epic, its subtasks and its history entry are gone, and the invariant is kept |
| RegistryLaws.ClearEpicsKeepsInv | src/services/InMemoryTaskManager.java:110-114 | the corrected clearEpics of Findings row 9: no epics and no subtasks remain, only tasks are scheduled, and the history holds no epic or subtask |
| RegistryLaws.AddSubtaskKeepsInv | src/services/InMemoryTaskManager.java:129-142 | an unknown epic, a used id or a clash gives -1; otherwise the subtask is stored and linked, its epic is recomputed, and it is scheduled when dated |
| RegistryLaws.AddSubtaskScheduled | src/services/InMemoryTaskManager.java:139 | the new schedule holds exactly the dated stored tasks and subtasks |
| RegistryLaws.UpdateSubtaskKeepsInv | src/services/InMemoryTaskManager.java:158-166 | a stored id, the same epic and no clash: the version is replaced in the map and the set, and the epic is recomputed; anything else changes nothing |
| RegistryLaws.UpdateSubtaskScheduled | src/services/InMemoryTaskManager.java:163-164 | the new set holds the new version and not the old one |
| RegistryLaws.RemoveSubtaskKeepsInv | src/services/InMemoryTaskManager.java:169-182 | the corrected removeSubtask of Findings row 8: a stored subtask leaves the map, its epic's set, the prioritized set and the history, and the epic is recomputed; an unknown id changes nothing |
| RegistryLaws.RemoveSubtaskScheduled | src/services/InMemoryTaskManager.java:176-178 | the corrected half of Findings row 8: the set loses exactly the removed subtask and stays exact |
| RegistryLaws.AddTaskKeepsInv | src/services/InMemoryTaskManager.java:210-218 | a used id, a non-Task class or a clash gives -1; otherwise the task is stored and scheduled when dated |
| RegistryLaws.UpdateTaskKeepsInv | src/services/InMemoryTaskManager.java:228-238 | the corrected updateTask of Findings row 7: a stored id with no clash: the version is replaced in the map and the set; anything else changes nothing |
| RegistryLaws.UpdateTaskScheduled | src/services/InMemoryTaskManager.java:233-237 | the corrected half of Findings row 7: the set holds the new version in place of the old one and stays exact |
| RegistryLaws.RemoveTaskKeepsInv | src/services/InMemoryTaskManager.java:241-248 | an unknown id fails; a stored task leaves the map, the set and the history |
| RegistryLaws.ClearTasksKeepsInv | src/services/InMemoryTaskManager.java:251-254 | no tasks remain, only dated subtasks are scheduled, and no task is in the history |
| RegistryLaws.ClearSubtasksKeepsInv | src/services/InMemoryTaskManager.java:199-202 | no subtasks remain, every epic is empty and NEW, and no subtask is in the set or the history |
| RegistryLaws.DropsIsPurge | src/services/InMemoryTaskManager.java:188-193 | removing subtasks one at a time, in any order and with repeats, purges exactly those subtasks |
| RegistryLaws.ClearEachIsClearOwned | src/services/InMemoryTaskManager.java:200-201 | clearing epics one at a time, in any order, is clearing them all at once |
| RegistryLaws.AddsKeepHistoryStored | src/services/InMemoryTaskManager.java:77-238 | adds and updates lose no id, so every history entry still names a stored entity |
| RegistryLaws.GetsKeepHistoryStored | src/services/InMemoryTaskManager.java:151-155 | a get records only an entity the registry holds |
| RegistryLaws.RemovalsKeepHistoryStored | src/services/InMemoryTaskManager.java:103-107 | each removal also takes the removed ids out of the history |
| RegistryLaws.ClearsKeepHistoryStored | src/services/InMemoryTaskManager.java:251-254 | the corrected half of Findings rows 6 and 9: each clear also takes the cleared ids out of the history |
| RegistryLaws.LiveHistorySpec | src/services/InMemoryHistoryManager.java:19-31 | getHistory keeps the order and ids of the recorded entries; an epic entry marked as the stored object reads as the stored epic, any other entry (unmarked, or not an epic) as it was recorded |
| RegistryLaws.UpdateEpicShowsInHistory | src/services/InMemoryTaskManager.java:93-100 | after updateEpic, getHistory's entry carries the new name and description when it is the stored object, and is unchanged when it is another object with that id |
| RegistryLaws.RenamedEpicInHistory | src/services/InMemoryTaskManager.java:93-100 | addEpic, getEpic, updateEpic: the recorded entry is the epic as viewed; getHistory shows it renamed when marked as the stored object, and as viewed when not |
| Manager.InMemoryTaskManager.constructor | src/services/InMemoryTaskManager.java:21-27 | the new manager is empty and keeps the given history, none of whose entries is one of its stored objects |
| Manager.InMemoryTaskManager.ComputeEpicFields | src/services/InMemoryTaskManager.java:34-58 | the loop yields the epic whose fields ComputeEpicFieldsSpec characterises |
| Manager.InMemoryTaskManager.CollectSubtasks | src/services/InMemoryTaskManager.java:39-50 | the loop collects exactly the subtasks' statuses, the dates of the dated ones and their duration sum |
| Manager.InMemoryTaskManager.AddPrioritizedTask | src/services/InMemoryTaskManager.java:144-148 | the set admits the entity exactly when it is dated, and the maps stay |
| Manager.InMemoryTaskManager.GetEpics | src/services/InMemoryTaskManager.java:72-74 | the stored epics |
| Manager.InMemoryTaskManager.AddEpic | src/services/InMemoryTaskManager.java:77-83 | the new state and result are Registry.AddEpic's, and the invariant holds |
| Manager.InMemoryTaskManager.GetEpic | src/services/InMemoryTaskManager.java:86-90 | returns the stored epic and records it, marking the entry as the stored object, or fails with no change, as Registry.GetEpic |
| Manager.InMemoryTaskManager.UpdateEpic | src/services/InMemoryTaskManager.java:93-100 | the state becomes Registry.UpdateEpic's, and the invariant holds |
| Manager.InMemoryTaskManager.RemoveEpic | src/services/InMemoryTaskManager.java:103-107 | the state becomes Registry.RemoveEpic's, and the invariant holds |
| Manager.InMemoryTaskManager.ClearEpics | src/services/InMemoryTaskManager.java:110-114 | the state becomes the corrected Registry.ClearEpics's (Findings row 9), and the invariant holds |
| Manager.InMemoryTaskManager.GetEpicSubtasks | src/services/InMemoryTaskManager.java:117-121 | exactly the stored subtasks naming a known epic; an empty map for an unknown epic |
| Manager.InMemoryTaskManager.GetSubtasks | src/services/InMemoryTaskManager.java:124-126 | the stored subtasks |
| Manager.InMemoryTaskManager.AddSubtask | src/services/InMemoryTaskManager.java:129-142 | the new state and result are Registry.AddSubtask's, and the invariant holds |
| Manager.InMemoryTaskManager.GetSubtask | src/services/InMemoryTaskManager.java:151-155 | returns the stored subtask and records it, or fails with no change |
| Manager.InMemoryTaskManager.UpdateSubtask | src/services/InMemoryTaskManager.java:158-166 | the state becomes the corrected Registry.UpdateSubtask's, and the invariant holds |
| Manager.InMemoryTaskManager.RemoveSubtask | src/services/InMemoryTaskManager.java:169-182 | the state becomes the corrected Registry.RemoveSubtask's (Findings row 8), and the invariant holds |
| Manager.InMemoryTaskManager.ClearEpicSubtasks | src/services/InMemoryTaskManager.java:185-196 | the state becomes Registry.ClearEpicSubtasks's, and the invariant holds |
| Manager.InMemoryTaskManager.PurgeSubtasks | src/services/InMemoryTaskManager.java:188-193 | the forEach removes the given subtasks one at a time, in a visiting order that lists exactly them |
| Manager.InMemoryTaskManager.ClearSubtasks | src/services/InMemoryTaskManager.java:199-202 | the state becomes Registry.ClearSubtasks's, and the invariant holds |
| Manager.InMemoryTaskManager.ClearEveryEpic | src/services/InMemoryTaskManager.java:200-201 | the forEach clears every epic once, in some order |
| Manager.InMemoryTaskManager.GetTasks | src/services/InMemoryTaskManager.java:205-207 | the stored tasks |
| Manager.InMemoryTaskManager.AddTask | src/services/InMemoryTaskManager.java:210-218 | the new state and result are Registry.AddTask's, and the invariant holds |
| Manager.InMemoryTaskManager.GetTask | src/services/InMemoryTaskManager.java:221-225 | returns the stored task and records it, or fails with no change |
| Manager.InMemoryTaskManager.UpdateTask | src/services/InMemoryTaskManager.java:228-238 | the state becomes the corrected Registry.UpdateTask's (Findings row 7), and the invariant holds |
| Manager.InMemoryTaskManager.RemoveTask | src/services/InMemoryTaskManager.java:241-248 | an unknown id fails with no change; otherwise the state becomes Registry.RemoveTask's |
| Manager.InMemoryTaskManager.ClearTasks | src/services/InMemoryTaskManager.java:251-254 | the state becomes Registry.ClearTasks's, and the invariant holds |
| Manager.InMemoryTaskManager.ClearAllData | src/services/InMemoryTaskManager.java:257-263 | everything is emptied, the history included |
| Manager.InMemoryTaskManager.GetHistory | src/services/InMemoryTaskManager.java:266-268 | the viewed entities, oldest first, one per id; an epic entry that is the stored object (recorded by getEpic or an admitted row's replay) is read as the stored epic, any other as recorded (Registry.LiveHistory) |
| Manager.InMemoryTaskManager.ReloadPrioritizedTasks | src/services/InMemoryTaskManager.java:270-275 | (corrected, Findings row 4) the set is rebuilt to hold exactly the dated stored tasks and subtasks |
| Manager.InMemoryTaskManager.AdmitAll | src/services/InMemoryTaskManager.java:272-274 | every dated entry of the map joins the set, and none is refused |
| Manager.InMemoryTaskManager.GetPrioritizedTasks | src/services/InMemoryTaskManager.java:278-280 | the dated stored tasks and subtasks, ordered by start, none clashing |
| Snapshot.HistoryToString | src/services/FileBackedTaskManager.java:59-69 | the ids, oldest first, joined by the delimiter with none trailing |
| Snapshot.ParseIds | src/services/FileBackedTaskManager.java:74-76 | every piece parsed in order, or NumberFormatException at the first bad one |
| Snapshot.HistoryFromString | src/services/FileBackedTaskManager.java:71-78 | the line split at the delimiter and each piece parsed |
| Snapshot.HistoryTextShape | src/services/FileBackedTaskManager.java:62-67 | the line holds exactly the id texts, in order, with delimiters only between them |
| Snapshot.HistoryRoundTrip | src/services/FileBackedTaskManager.java:59-78 | historyFromString(historyToString(h)) is the ids of a non-empty h, in order |
| Snapshot.EmptyHistoryFails | src/services/FileBackedTaskManager.java:72-75 | the empty line is one empty piece, which parseInt rejects |
| Snapshot.KindNamed | src/services/FileBackedTaskManager.java:91-93 | a word names a kind exactly when it is that kind's Type name |
| Snapshot.ClassifyRule | src/services/FileBackedTaskManager.java:100-119 | line 0 and empty lines are skipped; a line is a row of a kind exactly when it starts with that kind's name and a delimiter; anything else is a history line |
| Snapshot.HistoryLineIsHistory | src/services/FileBackedTaskManager.java:117-118 | a non-empty history line is never taken for a row |
| Snapshot.RowsOf | src/services/FileBackedTaskManager.java:144-162 | one row per visited entity, in visiting order |
| Snapshot.RowRoundTrip | src/services/FileBackedTaskManager.java:105-116 | each row of a codec-safe entity is read as its kind and decodes to the reloaded entity |
| Loading.Register | src/services/FileBackedTaskManager.java:107-115 | the add of the object's class keeps the invariant and loses no id; it returns -1 exactly when nothing changed, and otherwise the new id |
| Loading.Step | src/services/FileBackedTaskManager.java:99-121 | reading one line keeps the registry invariant (the dispatch itself is stated by Loading.StepRule) |
| Loading.RowStep | src/services/FileBackedTaskManager.java:105-116 | reading one object row keeps the registry invariant |
| Loading.Fill | src/services/FileBackedTaskManager.java:97-122 | reading any prefix of the file keeps the registry invariant |
| Loading.Replay | src/services/FileBackedTaskManager.java:123-125 | a successful replay changes only the history |
| Loading.Load | src/services/FileBackedTaskManager.java:88-129 | a successful load leaves a registry that satisfies the invariant |
| Loading.FillStops | src/services/FileBackedTaskManager.java:98-122 | once a line fails, every longer read fails the same way |
| Loading.LoadOfFill | src/services/FileBackedTaskManager.java:88-129 | Load is the replay of the completed read, or the read's failure |
| Loading.ReplayStops | src/services/FileBackedTaskManager.java:124 | an id that no row carried stops the replay with add(null)'s NullPointer |
| Loading.ReplayKeepsInv | src/services/FileBackedTaskManager.java:123-125 | the replay keeps the registry's invariant |
| Loading.StepRule | src/services/FileBackedTaskManager.java:100-119 | the dispatch, both ways: skipped lines change nothing, a row is remembered under its id, any other line appends its ids |
| Loading.DecodedIdCounted | src/tasks/Task.java:57-59 | decoding a row ran the explicit-id constructor with the row's id |
| Loading.FillRemembered | src/services/FileBackedTaskManager.java:108-116 | every object read is under its own id, and every live id is used by the registry |
| Loading.FillCounts | src/tasks/Task.java:57-59 | after the rows, the counter is at least every id read, so fresh ids come above them |
| Loading.ReplaySucceeds | src/services/FileBackedTaskManager.java:123-125 | the replay fails exactly when some collected id was carried by no row |
| Loading.ReplayInOrder | src/services/FileBackedTaskManager.java:123-125 | distinct carried ids replay into the history in file order, one entity per id |
| Loading.RelinkedNext | src/services/FileBackedTaskManager.java:123-125 | one more replayed id is marked as the stored object when its last row was admitted as an epic, and unmarked otherwise |
| Loading.ReplayedStanding | src/services/FileBackedTaskManager.java:106-108 | a refused row's object is replayed as that object and left unmarked; an admitted epic is replayed as the stored epic and marked |
| Reload.ReloadedEpicSpec | src/tasks/Epic.java:26-33 | a reloaded epic keeps its id, name, description and subtasks; its status when it has subtasks; its window when one of them is dated |
| Reload.SameInputsSameFields | src/services/InMemoryTaskManager.java:34-58 | computeEpicFields depends only on the epic's identity, its subtasks and, when none is dated, its window |
| Reload.RowsBack | src/services/FileBackedTaskManager.java:97-122 | reading the saved rows succeeds and brings back every stored entity; the last line is skipped or read as the history |
| Reload.HistoryBack | src/services/FileBackedTaskManager.java:118 | the history line gives back the saved ids in order |
| Reload.SaveThenLoad | src/services/FileBackedTaskManager.java:88-162 | loading a saved registry succeeds exactly when every history entry is stored; it then reproduces the registry (entities, epic fields, schedule, history order) and the counter covers every id; failure is NullPointer |
| Reload.ReplayOutcome | src/services/FileBackedTaskManager.java:123-125 | the replay fails exactly when the saved history names an unstored entity, and otherwise reproduces the registry |
| Reload.StoredIffLoaded | src/services/FileBackedTaskManager.java:124 | every history id was read exactly when every history entry is stored |
| Reload.EpicsBack | src/services/FileBackedTaskManager.java:106-111 | the loaded epics are the reloaded saved ones |
| Reload.ScheduleBack | src/services/InMemoryTaskManager.java:144-148 | the loaded schedule holds the same entities as the saved one |
| FileBacked.WriteRows | src/services/FileBackedTaskManager.java:147-158 | the loop appends one row per entity, in an order that visits each id once |
| FileBacked.SaveData | src/services/FileBackedTaskManager.java:136-162 | the written lines are the save layout for some iteration order of the three maps |
| FileBacked.FileBackedTaskManager.constructor | src/services/FileBackedTaskManager.java:31-33 | an empty registry over the given history, and the file as found |
| FileBacked.FileBackedTaskManager.Save | src/services/FileBackedTaskManager.java:131-134 | the file is rewritten to the layout of the current registry |
| FileBacked.FileBackedTaskManager.AddEpic | src/services/FileBackedTaskManager.java:165-169 | the registry does Registry.AddEpic, then the file is saved |
| FileBacked.FileBackedTaskManager.UpdateEpic | src/services/FileBackedTaskManager.java:172-175 | the registry does Registry.UpdateEpic, then the file is saved |
| FileBacked.FileBackedTaskManager.RemoveEpic | src/services/FileBackedTaskManager.java:178-181 | the registry does Registry.RemoveEpic, then the file is saved |
| FileBacked.FileBackedTaskManager.ClearEpics | src/services/FileBackedTaskManager.java:184-187 | the registry does Registry.ClearEpics, then the file is saved |
| FileBacked.FileBackedTaskManager.AddSubtask | src/services/FileBackedTaskManager.java:190-194 | the registry does Registry.AddSubtask, then the file is saved |
| FileBacked.FileBackedTaskManager.UpdateSubtask | src/services/FileBackedTaskManager.java:197-200 | the registry does Registry.UpdateSubtask, then the file is saved |
| FileBacked.FileBackedTaskManager.RemoveSubtask | src/services/FileBackedTaskManager.java:203-206 | the registry does the corrected Registry.RemoveSubtask (Findings row 8), then the file is saved |
| FileBacked.FileBackedTaskManager.ClearEpicSubtasks | src/services/FileBackedTaskManager.java:209-212 | the registry does Registry.ClearEpicSubtasks, then the file is saved |
| FileBacked.FileBackedTaskManager.ClearSubtasks | src/services/FileBackedTaskManager.java:215-218 | the registry does Registry.ClearSubtasks, then the file is saved |
| FileBacked.FileBackedTaskManager.AddTask | src/services/FileBackedTaskManager.java:221-225 | the registry does Registry.AddTask, then the file is saved |
| FileBacked.FileBackedTaskManager.UpdateTask | src/services/FileBackedTaskManager.java:228-231 | the registry does the corrected Registry.UpdateTask (Findings row 7), then the file is saved |
| FileBacked.FileBackedTaskManager.RemoveTask | src/services/FileBackedTaskManager.java:234-237 | an unknown id throws before save, leaving the file; otherwise the task is removed and the file saved |
| FileBacked.FileBackedTaskManager.ClearTasks | src/services/FileBackedTaskManager.java:240-243 | the registry does Registry.ClearTasks, then the file is saved |
| FileBacked.FileBackedTaskManager.ClearAllData | src/services/FileBackedTaskManager.java:246-249 | the registry is emptied, then the file is saved |
| FileBacked.FileBackedTaskManager.GetEpic | src/services/FileBackedTaskManager.java:252-256 | a view is recorded, marked as the stored object, and saved; an unknown id throws before save |
| FileBacked.FileBackedTaskManager.GetSubtask | src/services/FileBackedTaskManager.java:259-263 | a view is recorded and saved; an unknown id throws before save |
| FileBacked.FileBackedTaskManager.GetTask | src/services/FileBackedTaskManager.java:266-270 | a view is recorded and saved; an unknown id throws before save |
| FileBacked.FileBackedTaskManager.FillDataFromFile | src/services/FileBackedTaskManager.java:88-129 | the registry and counter end as Load computes, or fail with Load's fault; the replayed ids are marked as Loading.LoadRelinked says |
| FileBacked.FileBackedTaskManager.ReadLines | src/services/FileBackedTaskManager.java:97-122 | the reading loop ends where Fill does, or fails as Fill does |
| FileBacked.FileBackedTaskManager.ReadLine | src/services/FileBackedTaskManager.java:99-121 | one loop turn does what Step does |
| FileBacked.FileBackedTaskManager.ReadRow | src/services/FileBackedTaskManager.java:105-116 | one row does what RowStep does |
| FileBacked.FileBackedTaskManager.AddLoaded | src/services/FileBackedTaskManager.java:107-115 | the superclass add by class; reports whether the registry took the object |
| FileBacked.FileBackedTaskManager.ReplayHistory | src/services/FileBackedTaskManager.java:123-125 | the replay loop ends where Replay does, or fails as it does |
| FileBacked.FileBackedTaskManager.Relink | src/services/FileBackedTaskManager.java:123-125 | after the replay, each replayed id is marked as the stored object exactly when its row was admitted as an epic, as Loading.Relinked says |
| FileBacked.FileBackedTaskManager.Open | src/services/FileBackedTaskManager.java:31-39 | an existing file is loaded as Load computes, with the marks of Loading.LoadRelinked; a missing one is created empty with no marks |
| FileBacked.LoadFromFile | src/services/FileBackedTaskManager.java:52-57 | a missing file is a load failure; an existing one is loaded into a manager with a fresh history, with the marks of Loading.LoadRelinked |
| AsWritten.TreeRemove | src/services/InMemoryTaskManager.java:25 | remove by the start comparator drops whatever element has x's start; an undated x throws on a non-empty set |
| AsWritten.StaleVersionStays | src/services/InMemoryTaskManager.java:163 | a dated subtask moved to another start leaves its old version scheduled |
| AsWritten.EpicMoveUnlinks | src/services/InMemoryTaskManager.java:158-166 | a subtask moved to another epic is listed by the old epic and not by the new one |
| AsWritten.SameStartEvicted | src/services/InMemoryTaskManager.java:241-248 | removing a never-scheduled task evicts the stored entity with the same start |
| AsWritten.EvictionWitness | src/services/InMemoryTaskManager.java:241-248 | a concrete three-call sequence under which the as-written removal empties the set and the corrected one keeps it |
| AsWritten.UndatedSubtaskThrows | src/services/InMemoryTaskManager.java:190 | clearing an epic whose first subtask is undated throws while the set is non-empty |
| AsWritten.Rebuilt | src/services/InMemoryTaskManager.java:270-275 | the rebuilt set is sorted and holds only candidates with a start |
| AsWritten.StartOnlyScheduled | src/services/InMemoryTaskManager.java:273 | the as-written rebuild schedules a subtask that has no end |
| AsWritten.ClearedTaskBreaksReload | src/services/InMemoryTaskManager.java:251-254 | a viewed and then cleared task makes the next saved file fail to load |
| AsWritten.UnknownEpicThrows | src/services/InMemoryTaskManager.java:161-162 | a version naming an unknown epic is stored and then computeEpicFields(null) throws; the corrected operation changes nothing |
| AsWritten.OldStartEvicted | src/services/InMemoryTaskManager.java:233-234 | updating a never-scheduled task evicts the stored entity with its old start |
| AsWritten.UpdateEvictionWitness | src/services/InMemoryTaskManager.java:228-238 | a concrete three-call sequence under which the as-written update empties the set and the corrected one keeps it |
| AsWritten.SameStartSubtaskEvicts | src/services/InMemoryTaskManager.java:176-177 | removing a never-scheduled subtask evicts the stored entity with the same start |
| AsWritten.SubtaskEvictionWitness | src/services/InMemoryTaskManager.java:169-182 | a concrete four-call sequence under which the as-written removal empties the set and the corrected one keeps it |
| AsWritten.ClearedEpicBreaksReload | src/services/InMemoryTaskManager.java:110-114 | a viewed epic or subtask that clearEpics leaves in the history makes the next saved file fail to load |
| LegacyEntities.EqualsRules | src/Task.java:67-73 | equals is an equivalence over the class and id |
| LegacyEntities.NewTask | src/Task.java:10-15 | a fresh, larger id and status NEW |
| LegacyEntities.NewTaskWithStatus | src/Task.java:17-22 | a fresh, larger id and the given status |
| LegacyEntities.NewTaskNamed | src/Task.java:24-29 | the id is drawn first, then an unknown status name fails with IllegalArgument |
| LegacyEntities.WithName | src/Task.java:51-53 | only the name changes |
| LegacyEntities.WithDescription | src/Task.java:55-57 | only the description changes |
| LegacyEntities.WithStatus | src/Task.java:59-61 | only the status changes |
| LegacyEntities.WithStatusNamed | src/Task.java:63-65 | an unknown name fails; a known one sets that status |
| LegacyEpic.OwnedStatusDone | src/Epic.java:18-41 | the owned epic is DONE exactly when it has subtasks and all are DONE |
| LegacyEpic.OwnedVersusRegistryRule | src/Epic.java:18-41 | this rule differs from the registry rule exactly when some subtask is NEW and another status shows; then it says NEW where the registry says IN_PROGRESS |
| LegacyEpic.Epic.constructor | src/Epic.java:7-11 | a fresh id, no subtasks, NEW |
| LegacyEpic.Epic.WithSubtasks | src/Epic.java:13-17 | takes over the map and derives the status at once |
| LegacyEpic.Epic.UpdateStatus | src/Epic.java:18-41 | the status follows the owned rule, and nothing else changes |
| LegacyEpic.Epic.AddSubtask | src/Epic.java:43-46 | putIfAbsent, then the status |
| LegacyEpic.Epic.AddSubtaskFrom | src/Epic.java:48-52 | a new subtask of this epic under a fresh id, then the status |
| LegacyEpic.Epic.UpdateSubtask | src/Epic.java:54-60 | replaces only a present id, then the status |
| LegacyEpic.Epic.ClearSubtasks | src/Epic.java:62-65 | no subtasks and NEW |
| LegacyEpic.Epic.RemoveSubtask | src/Epic.java:67-70 | the id leaves, then the status |
| LegacyHistory.AppendedBounded | src/InMemoryHistoryManager.java:13-17 | at most ten entries, ending with the latest |
| LegacyHistory.AppendedDropsOldest | src/InMemoryHistoryManager.java:13-17 | below ten nothing is lost; at ten exactly the oldest goes |
| LegacyHistory.AppendedKeepsDuplicates | src/InMemoryHistoryManager.java:13-17 | a repeated view is counted again |
| LegacyHistory.HistoryManager.Add | src/InMemoryHistoryManager.java:13-17 | the list becomes Appended of the old list |
| LegacyHistory.HistoryManager.GetHistory | src/InMemoryHistoryManager.java:20-22 | at most ten entries |
| LegacyRegistry.Cleared | src/TaskManager.java:131-140 | an emptied epic: NEW, no subtasks, same identity |
| LegacyRegistry.StatusRule | src/TaskManager.java:57-84 | the epic rule, both ways, on its subtasks' statuses |
| LegacyRegistry.EmptyInv | src/TaskManager.java:11-15 | a new registry satisfies the invariant |
| LegacyRegistry.CalculateSpec | src/TaskManager.java:57-84 | the recomputed epic has the derived status and is otherwise unchanged |
| LegacyRegistry.AddEpicKeepsInv | src/TaskManager.java:26-32 | a used id gives -1 and no change; otherwise the epic is stored and the invariant kept |
| LegacyRegistry.UpdateEpicKeepsInv | src/TaskManager.java:38-45 | only name and description change, and the invariant is kept |
| LegacyRegistry.AddSubtaskKeepsInv | src/TaskManager.java:100-110 | an unknown epic or used id gives -1; otherwise linked, stored and the epic recomputed |
| LegacyRegistry.UpdateSubtaskKeepsInv | src/TaskManager.java:116-122 | a stored id of the same epic is replaced and its epic recomputed; otherwise nothing changes |
| LegacyRegistry.RemoveSubtaskKeepsInv | src/TaskManager.java:124-129 | an unknown id fails with NullPointer; otherwise the subtask leaves and its epic is recomputed |
| LegacyRegistry.ClearEpicSubtasksKeepsInv | src/TaskManager.java:131-140 | the epic's subtasks leave and the epic is emptied and NEW |
| LegacyRegistry.RemoveEpicKeepsInv | src/TaskManager.java:47-50 | the epic and its subtasks leave |
| LegacyRegistry.ClearAllSubtasksKeepsInv | src/TaskManager.java:142-148 | no subtasks remain, and every epic is empty and NEW |
| LegacyRegistry.ClearsKeepInv | src/TaskManager.java:177-185 | clearing tasks, epics or everything keeps the invariant |
| LegacyRegistry.AddTaskKeepsInv | src/TaskManager.java:154-160 | a used id gives -1 and no change; otherwise the object is stored whatever its class, and the invariant holds exactly when it is a plain Task |
| LegacyRegistry.UpdateTaskKeepsInv | src/TaskManager.java:166-171 | a stored id takes the new version whatever its class, an unknown id changes nothing, epics and subtasks stay; the invariant holds exactly when it is a plain Task |
| LegacyRegistry.MoveThenRemoveDangles | src/TaskManager.java:116-129 | a subtask moved to another epic stays listed by the old one; removing it then leaves that epic listing an id nothing stores |
| LegacyManagers.TaskManager.constructor | src/TaskManager.java:11-15 | an empty registry |
| LegacyManagers.TaskManager.AddEpic | src/TaskManager.java:26-32 | the state and result are LegacyRegistry.AddEpic's |
| LegacyManagers.TaskManager.GetEpicById | src/TaskManager.java:34-36 | the stored epic, or nothing |
| LegacyManagers.TaskManager.UpdateEpic | src/TaskManager.java:38-45 | the state becomes LegacyRegistry.UpdateEpic's |
| LegacyManagers.TaskManager.RemoveEpic | src/TaskManager.java:47-50 | the state becomes LegacyRegistry.RemoveEpic's |
| LegacyManagers.TaskManager.ClearEpics | src/TaskManager.java:52-55 | no epics and no subtasks |
| LegacyManagers.TaskManager.CalculateEpicStatus | src/TaskManager.java:57-84 | the epic gets the status the rule derives from its subtasks |
| LegacyManagers.TaskManager.CollectStatuses | src/TaskManager.java:63-70 | the loop collects exactly the subtasks' statuses |
| LegacyManagers.TaskManager.GetEpicSubtasks | src/TaskManager.java:86-94 | exactly the epic's listed subtasks, or nothing for an unknown epic |
| LegacyManagers.TaskManager.AddSubtask | src/TaskManager.java:100-110 | the state and result are LegacyRegistry.AddSubtask's |
| LegacyManagers.TaskManager.GetSubtaskById | src/TaskManager.java:112-114 | the stored subtask, or nothing |
| LegacyManagers.TaskManager.UpdateSubtask | src/TaskManager.java:116-122 | the state becomes LegacyRegistry.UpdateSubtask's |
| LegacyManagers.TaskManager.RemoveSubtask | src/TaskManager.java:124-129 | a fault exactly when the spec fails, with no change; otherwise the state becomes the spec's |
| LegacyManagers.TaskManager.ClearEpicSubtasks | src/TaskManager.java:131-140 | the state becomes LegacyRegistry.ClearEpicSubtasks's |
| LegacyManagers.TaskManager.ClearAllSubtasks | src/TaskManager.java:142-148 | the state becomes LegacyRegistry.ClearAllSubtasks's |
| LegacyManagers.TaskManager.AddTask | src/TaskManager.java:154-160 | the state and result are LegacyRegistry.AddTask's |
| LegacyManagers.TaskManager.GetTaskById | src/TaskManager.java:162-164 | the stored task, or nothing |
| LegacyManagers.TaskManager.UpdateTask | src/TaskManager.java:166-171 | the state becomes LegacyRegistry.UpdateTask's |
| LegacyManagers.TaskManager.RemoveTask | src/TaskManager.java:173-175 | the task leaves |
| LegacyManagers.TaskManager.ClearTasks | src/TaskManager.java:177-179 | no tasks |
| LegacyManagers.TaskManager.ClearAllData | src/TaskManager.java:181-185 | everything emptied |
| LegacyManagers.InMemoryTaskManager.constructor | src/InMemoryTaskManager.java:9-14 | an empty registry and an empty history |
| LegacyManagers.InMemoryTaskManager.AddEpic | src/InMemoryTaskManager.java:50-57 | as the legacy TaskManager, the history untouched |
| LegacyManagers.InMemoryTaskManager.GetEpic | src/InMemoryTaskManager.java:59-64 | the lookup result, appended to the ten-entry history |
| LegacyManagers.InMemoryTaskManager.UpdateEpic | src/InMemoryTaskManager.java:66-74 | as the legacy TaskManager |
| LegacyManagers.InMemoryTaskManager.RemoveEpic | src/InMemoryTaskManager.java:76-80 | as the legacy TaskManager |
| LegacyManagers.InMemoryTaskManager.ClearEpics | src/InMemoryTaskManager.java:82-86 | as the legacy TaskManager |
| LegacyManagers.InMemoryTaskManager.GetEpicSubtasks | src/InMemoryTaskManager.java:88-97 | exactly the epic's listed subtasks |
| LegacyManagers.InMemoryTaskManager.AddSubtask | src/InMemoryTaskManager.java:104-116 | as the legacy TaskManager |
| LegacyManagers.InMemoryTaskManager.GetSubtask | src/InMemoryTaskManager.java:118-123 | the lookup result, appended to the history |
| LegacyManagers.InMemoryTaskManager.UpdateSubtask | src/InMemoryTaskManager.java:125-132 | a fault exactly when a stored id names an unknown epic; the state as the legacy TaskManager |
| LegacyManagers.InMemoryTaskManager.RemoveSubtask | src/InMemoryTaskManager.java:134-141 | a fault exactly when the spec fails |
| LegacyManagers.InMemoryTaskManager.ClearEpicSubtasks | src/InMemoryTaskManager.java:143-153 | as the legacy TaskManager |
| LegacyManagers.InMemoryTaskManager.ClearSubtasks | src/InMemoryTaskManager.java:155-162 | every epic emptied, no subtasks |
| LegacyManagers.InMemoryTaskManager.AddTask | src/InMemoryTaskManager.java:169-176 | as the legacy TaskManager |
| LegacyManagers.InMemoryTaskManager.GetTask | src/InMemoryTaskManager.java:178-183 | the lookup result, appended to the history |
| LegacyManagers.InMemoryTaskManager.UpdateTask | src/InMemoryTaskManager.java:185-191 | as the legacy TaskManager |
| LegacyManagers.InMemoryTaskManager.RemoveTask | src/InMemoryTaskManager.java:193-196 | as the legacy TaskManager |
| LegacyManagers.InMemoryTaskManager.ClearTasks | src/InMemoryTaskManager.java:198-201 | as the legacy TaskManager |
| LegacyManagers.InMemoryTaskManager.ClearAllData | src/InMemoryTaskManager.java:203-208 | as the legacy TaskManager |
| LegacyManagers.InMemoryTaskManager.GetHistory | src/InMemoryTaskManager.java:210-212 | at most ten entries |

## Left out

- **I/O.** Reading and writing files is not modelled. The data file is its list of lines, and an existing file is `Some(lines)`. `IOException`, and the `ManagerLoadException` and `ManagerSaveException` that wrap it, are not modelled. `createDataFile` is an empty file.
- **Dates.** `java.time` is not modelled. Times and durations are whole minutes, and the `dd.MM.yyyy HH:mm` text is the decimal minute count.
- **HashMap order.** The iteration order of `HashMap` and `HashSet` is any order. Saves and clears are stated for every order.
- **Aliasing.** Java objects are values in this model. A caller that changes an object after adding it (in the source the manager sees the change) is not modelled. The manager's own in-place changes to a stored Epic (updateEpic, computeEpicFields, clearEpicSubtasks) also reach the history list, which holds the object itself: `Manager.InMemoryTaskManager.GetHistory` models this: the manager marks each history id whose entry is its stored Epic object (`liveEpics`), and only those entries are read through the epics map (`Registry.LiveHistory`). getEpic marks the id. The load's replay marks an id whose last row was admitted as an epic and unmarks one whose last row was refused, since loadedTasks then holds the refused object (`Loading.Relinked`). A history handed to the constructor starts unmarked. The legacy manager does not (see its line below).
- **HTTP.** The HTTP server and handlers (`src/api`) are not modelled, nor are `Main`, `Managers`, `toString` and `hashCode`.
- **History clear.** `HistoryManager.clear` is not part of this model's sources. `History.HistoryManager.Clear` empties the list, which is what `clearAllData` relies on.
- **Epic window on reload.** A reloaded epic without dated subtasks loses its saved window, because the epic row does not carry it. `Reload.ReloadedEpicSpec` states this.
- **Failed loads.** The counter state after a load that fails part-way is not stated.
- **Concurrency.** None of the code is thread-safe, and no concurrency is modelled.
- RegistryLaws.AddEpicKeepsInv: requires an epic with no subtask ids. Every constructor, `cloneWithNextId` and `createFromString` gives one; an epic passed in with ids would break the links.
- LegacyRegistry.AddEpicKeepsInv: requires an epic with no subtask ids, for the same reason.
- RegistryLaws.UpdateTaskKeepsInv: requires a plain Task. The source would store an Epic or Subtask object under a task id. It also states the corrected eviction of the old version by identity; the source removes by the old start (Findings row 7, AsWritten.UpdateTask).
- Reload.SaveThenLoad: requires that every entity is codec-safe: no delimiter and no line break (`\n` or `\r`) in names or descriptions, and a duration that fits an `int`. Other entities do not round-trip. A line break would split a row in two when `readLine` reads the file back. The same condition holds for Reload.RowsBack and Reload.HistoryBack.
- LegacyManagers.InMemoryTaskManager.GetHistory: a viewed epic is returned as it was when viewed (`LegacyManagers.InMemoryTaskManager.GetEpic` records that value). The source's list holds the Epic object, which updateEpic, addSubtask, calculateEpicStatus and the clearEpicSubtasks inside removeEpic change in place, even after the epic has left the map; the model keeps no record of a removed epic's last state, so it cannot read such entries live.
- Decimal.ParseInt: only the ASCII digits '0'..'9' are read. Java's Integer.parseInt also accepts the other Unicode decimal digits (for example '١' or '１'), so a data row or history line written with them loads in the source and fails with NumberFormat here. Decimal.ParseDecimal and every row and history parse built on it share this.
- LegacyManagers.TaskManager.CalculateEpicStatus: requires every listed subtask to be stored. In the source a dangling id throws inside the loop. The legacy operations do not keep this condition: an updateSubtask that moves a subtask to another epic, followed by its removeSubtask, leaves the old epic listing a dangling id (LegacyRegistry.MoveThenRemoveDangles). The legacy subtask operations that recompute a status require the same condition, and so do `LegacyManagers.TaskManager.RemoveEpic`, `GetEpicSubtasks` and `ClearEpicSubtasks` and their `LegacyManagers.InMemoryTaskManager` copies, although the source does not throw there (getEpicSubtasks puts a null, the clears remove an absent key), so the model does not follow a legacy registry past that point.
- LegacyRegistry.UpdateSubtaskKeepsInv: requires the new version to name the same epic. The source accepts a move to another epic, which breaks the links; LegacyRegistry.MoveThenRemoveDangles states what follows.
- RegistryLaws.RemoveSubtaskKeepsInv: states the corrected removal by identity. The source removes by start (Findings row 8, AsWritten.RemoveSubtask).
- RegistryLaws.RemoveSubtaskScheduled: states the corrected removal by identity, as above.
- RegistryLaws.UpdateTaskScheduled: states the corrected eviction of the old version by identity. The source removes by the old start (Findings row 7, AsWritten.UpdateTask).
- Manager.InMemoryTaskManager.RemoveSubtask: states the corrected removal of Findings row 8, not the source's removal by start.
- Manager.InMemoryTaskManager.UpdateTask: states the corrected update of Findings row 7, not the source's removal by the old start.
- FileBacked.FileBackedTaskManager.RemoveSubtask: states the corrected removal of Findings row 8, then the save.
- FileBacked.FileBackedTaskManager.UpdateTask: states the corrected update of Findings row 7, then the save.
- **Legacy Subtask.** The default-package `Subtask` class and the id-set `Epic` the legacy registries use are not part of this model's sources. Only the fields the registries read are modelled.
- **Legacy map getters.** `getTasks`/`getEpics`/`getSubtasks` of the legacy managers return maps and are the fields themselves.

## Findings

| source | as written | input that shows it | evidently intended | confidence | as-written member | corrected member |
|---|---|---|---|---|---|---|
| src/services/InMemoryTaskManager.java:163 | updateSubtask removes the NEW version from the start-ordered set | a dated subtask updated to a different start | the old version leaves the set | not executed | AsWritten.StaleVersionStays | RegistryLaws.UpdateSubtaskScheduled |
| src/services/InMemoryTaskManager.java:241-248 | removeTask removes by start any task with a start, even one never admitted | addTask(dated), addTask(start, no duration), removeTask(2) | only an admitted task leaves, by identity | not executed | AsWritten.EvictionWitness | RegistryLaws.RemoveTaskKeepsInv |
| src/services/InMemoryTaskManager.java:190 | clearEpicSubtasks removes undated subtasks from a non-empty TreeSet, which throws | an epic with an undated subtask while anything is scheduled | undated subtasks skip the set | not executed | AsWritten.UndatedSubtaskThrows | RegistryLaws.ClearOwnedKeepsInv |
| src/services/InMemoryTaskManager.java:270-275 | reloadPrioritizedTasks filters on start only | clearTasks with a stored subtask that has a start and no duration | only entities with start and end are scheduled | not executed | AsWritten.StartOnlyScheduled | RegistryLaws.ClearTasksKeepsInv |
| src/services/InMemoryTaskManager.java:158-166 | updateSubtask accepts a version naming another epic | a stored subtask updated with another epic's id | the epic links stay exact | not executed | AsWritten.EpicMoveUnlinks | RegistryLaws.UpdateSubtaskKeepsInv |
| src/services/InMemoryTaskManager.java:251-254 | clearTasks leaves the cleared ids in the history | getTask(t), clearTasks(), then save and load | cleared ids leave the history | not executed | AsWritten.ClearedTaskBreaksReload | RegistryLaws.ClearsKeepHistoryStored |
| src/services/InMemoryTaskManager.java:233-234 | updateTask removes the old version by its start, even one never admitted | addTask(task 1 dated at 9:00), addTask(task 2 at 9:00 without a duration), updateTask(task 2 without a start) | only an admitted old version leaves, by identity | not executed | AsWritten.UpdateEvictionWitness | RegistryLaws.UpdateTaskScheduled |
| src/services/InMemoryTaskManager.java:176-177 | removeSubtask removes by start any subtask with a start, even one never admitted | addTask(task 1 dated at 9:00), addEpic(epic 3), addSubtask(subtask 4 at 9:00 without a duration), removeSubtask(4) | only an admitted subtask leaves, by identity | not executed | AsWritten.SubtaskEvictionWitness | RegistryLaws.RemoveSubtaskScheduled |
| src/services/InMemoryTaskManager.java:110-114 | clearEpics leaves the cleared epic and subtask ids in the history | getEpic(e), clearEpics(), then save and load | cleared ids leave the history | not executed | AsWritten.ClearedEpicBreaksReload | RegistryLaws.ClearsKeepHistoryStored |
