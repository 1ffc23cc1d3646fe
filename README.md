# java-kanban task tracker, modelled in Dafny

The tracker keeps three kinds of entity: tasks, epics, and subtasks that belong to an epic.
Each entity has an id, a title, a description and a status (NEW, IN_PROGRESS or DONE). Tasks and
subtasks may also have a start time and a duration. One id counter hands out ids to all three
kinds.

An epic's status and time window are not set by the user. They are computed from the subtasks it
lists:
- the status is DONE when every listed subtask is DONE, NEW when every one is NEW, and IN_PROGRESS
  otherwise;
- the window runs from the earliest start to the latest end.

The current manager (`src/manager`) also keeps a start-ordered index of timed tasks and subtasks.
It refuses any timed entity that overlaps another one. It records a browsing history with one
entry per id, most recent last. The file-backed manager writes its whole state as CSV rows after
every change, and rebuilds a manager from such a file.

An earlier generation of the code (`src/*.java`) is modelled beside it:
- a history capped at ten entries, with no de-duplication;
- an epic that works out its own status;
- a manager that rebuilds the prioritized list on each call;
- a CSV format without times.

Modules:

| module | file | what it holds |
|---|---|---|
| `Wrappers` | `wrappers.dfy` | `Option` and `Result` |
| `Model` | `model.dfy` | the entity value `Item`, `EndTime`, `equals` and `hashCode`, and the mutable `Entity` class with the Java constructors and setters |
| `Seqs` | `seqs.dfy` | order-keeping filters (`removeIf`), and `Enumerates`, an iteration order of a `HashMap` |
| `Schedule` | `schedule.dfy` | the overlap predicate, the overlap check `validateNoOverlap`, and the `TreeSet` index ordered by start |
| `Epics` | `epics.dfy` | how an epic's status and window follow from its subtasks |
| `History` | `history.dfy` | the linked-list `InMemoryHistoryManager` (`Node`, `HistoryManager`) and the functions `Added` and `WithoutId` it implements |
| `Invariant` | `invariant.dfy` | the manager invariant over its field values, and one lemma per kind of change |
| `Manager` | `manager.dfy` | the `InMemoryTaskManager` class |
| `Codec` | `codec.dfy` | Java `split`, decimal numbers, and the CSV row written by `toString` and read by `fromString` |
| `Snapshot` | `snapshot.dfy` | `loadFromFile` (the read loop and what it builds) and `save` |
| `FileBacked` | `filebacked.dfy` | the `FileBackedTaskManager` class: each mutation, then `save` |
| `LegacyHistory` | `legacy_history.dfy` | the earlier capped history |
| `LegacyEpic` | `legacy_epic.dfy` | the earlier `Epic` and its `updateStatus` |
| `LegacySchedule` | `legacy_schedule.dfy` | the earlier recomputed prioritized list and `hasOverlaps` |
| `LegacyManager` | `legacy_manager.dfy` | the earlier `InMemoryTaskManager` |
| `LegacyCodec` | `legacy_codec.dfy` | the earlier row format, load loop and save |

Representation choices:

**Time.** Times are whole minutes, as `int`. A start is `Option<int>`, with `None` standing for
Java's `null`, and so is a duration.

**Exceptions.** A mutating call that Java ends by throwing returns `Outcome.Threw(verdict)`. This
covers the `IllegalStateException` for an overlap, and the `NullPointerException` when a null end
time is met inside the overlap check. Both happen before any change, and the model proves the
state is unchanged.

**Java loops.** A Java loop over a collection is a Dafny `method` with a loop. Its `ensures` ties
the result to a specification function, and the properties are proved about that function.

**HashMap iteration order.** Java leaves this order unspecified. Where it matters (listing values,
`save`, the earlier prioritized list), the model quantifies over every order: a ghost `order` with
`Enumerates(order, m)`.

## Model

| member | source | states |
|---|---|---|
| `Model.EndTime` | src/model/Task.java:86-91 | a task's or subtask's end exists exactly when both start and duration exist, and then end − start = duration; an epic's end is its stored end |
| `Model.WithId` | src/model/Task.java:42-44 | `setId` changes the id only: same class, every other field kept |
| `Model.WithStatus` | src/model/Task.java:66-68 | `setStatus` changes the status only: same class and id, every other field kept |
| `Model.HashCode` | src/model/Task.java:100-103 | the id; `HashCodeConsistent` proves equal entities hash alike |
| `Model.SameEntityIsEquivalence` | src/model/Task.java:93-98 | `equals` is reflexive, symmetric and transitive, and ignores every field but class and id |
| `Model.HashCodeConsistent` | src/model/Task.java:100-103 | equal entities have equal hash codes |
| `Model.Entity.TaskOf` | src/model/Task.java:15-19 | a new task has id 0, the given title, description and status, and no times |
| `Model.Entity.TaskWithId` | src/model/Task.java:21-24 | as above, with the given id |
| `Model.Entity.TimedTask` | src/model/Task.java:26-30 | a new task with id 0 and the given start and duration |
| `Model.Entity.TimedTaskWithId` | src/model/Task.java:32-35 | as above, with the given id |
| `Model.Entity.EpicOf` | src/model/Epic.java:11-14 | a new epic is NEW, with no times, no end and an empty subtask list |
| `Model.Entity.EpicWithId` | src/model/Epic.java:16-19 | as above, with the given id |
| `Model.Entity.SubtaskOf` | src/model/Subtask.java:9-12 | a new subtask keeps the given epic id, with id 0 and no times |
| `Model.Entity.SubtaskWithId` | src/model/Subtask.java:14-17 | as above, with the given id |
| `Model.Entity.TimedSubtask` | src/model/Subtask.java:19-22 | a new subtask with the given epic id, start and duration |
| `Model.Entity.TimedSubtaskWithId` | src/model/Subtask.java:24-27 | as above, with the given id |
| `Model.Entity.GetEndTime` | src/model/Epic.java:33-36 | an epic returns its stored end; another entity returns start + duration, or nothing when either is missing |
| `Model.Entity.Equals` | src/model/Task.java:93-98 | false for null; otherwise true exactly when the two objects have the same id and the same class (task, epic or subtask); reflexive; equal objects have equal `hashCode` |
| `Model.Entity.HashCode` | src/model/Task.java:100-103 | the id; `Equals` states that equal objects hash alike |
| `Model.Entity.GetEpicId` | src/model/Subtask.java:29-31 | the epic id of the subtask the object holds |
| `Model.Entity.SetId` | src/model/Task.java:42-44 | only the id changes, to the given one |
| `Model.Entity.SetTitle` | src/model/Task.java:50-52 | only the title changes |
| `Model.Entity.SetDescription` | src/model/Task.java:58-60 | only the description changes |
| `Model.Entity.SetStatus` | src/model/Task.java:66-68 | only the status changes |
| `Model.Entity.SetDuration` | src/model/Task.java:74-76 | only the duration changes |
| `Model.Entity.SetStartTime` | src/model/Task.java:82-84 | only the start changes |
| `Model.Entity.AddSubtask` | src/model/Epic.java:29-31 | the id is appended after the earlier ones |
| `Model.Entity.SetSubtaskIds` | src/model/Epic.java:25-27 | the list becomes the given one |
| `Model.Entity.SetEndTime` | src/model/Epic.java:38-40 | only the end changes |
| `Schedule.IsOverlapping` | src/manager/InMemoryTaskManager.java:275-277 | the first ends after the second starts and starts before it ends; `OverlapIsSharedMinute` proves this is sharing a minute, in either order |
| `Schedule.OverlapIsSharedMinute` | src/manager/InMemoryTaskManager.java:275-277 | for non-empty windows, overlapping means sharing a minute, and the relation is symmetric |
| `Schedule.AbuttingDoNotOverlap` | src/manager/InMemoryTaskManager.java:275-277 | two windows where one ends as the other starts do not overlap |
| `Schedule.ShiftedWindows` | test/TaskManagerTest.java:51-68 | 30-minute windows 31 minutes apart do not overlap, and 29 minutes apart they do, in both directions |
| `Schedule.AnyOverlap` | src/manager/InMemoryTaskManager.java:282-284 | true exactly when some entry other than `c` (by `equals`) overlaps `c` |
| `Schedule.Screen` | src/manager/InMemoryTaskManager.java:282-284 | when every window has an end, the stream never meets a null end and reports an overlap exactly when `AnyOverlap`; a null end is reported only when some end is really missing |
| `Schedule.Validate` | src/manager/InMemoryTaskManager.java:279-289 | an entity without a start always passes; when every window has an end, the check throws exactly when the entity conflicts with an index entry other than itself |
| `Schedule.Insert` | src/manager/InMemoryTaskManager.java:14 | `TreeSet.add` under the start comparator keeps starts strictly ascending; it leaves the set unchanged when the start is taken, and otherwise adds exactly the new item |
| `Schedule.InsertedIsPresent` | src/manager/InMemoryTaskManager.java:14 | after `add` the start is taken, by the new item unless an entry already held that start |
| `Schedule.Enter` | src/manager/InMemoryTaskManager.java:51-53 | adding an entity if it has a start keeps the index ascending |
| `Schedule.WithoutId` | src/manager/InMemoryTaskManager.java:61 | `removeIf` on one id; `FilterMembers` and `FilterKeepsAscending` prove it keeps exactly the other entries, still ascending |
| `Schedule.WithoutIdsTwice` | src/manager/InMemoryTaskManager.java:89-93 | removing two id sets one after the other is removing their union |
| `Schedule.WithoutIdsStep` | src/manager/InMemoryTaskManager.java:126-132 | removing a set of ids and then one more id is removing their union |
| `Schedule.WithoutIdThenIds` | src/manager/InMemoryTaskManager.java:123-127 | removing one id and then a set of ids is removing their union |
| `Schedule.FilterKeepsAscending` | src/manager/InMemoryTaskManager.java:34 | `removeIf` on the index keeps it strictly ascending |
| `Seqs.FilterMembers` | src/manager/InMemoryTaskManager.java:34 | `removeIf` keeps exactly the elements that satisfy the condition |
| `Epics.Count` | src/manager/InMemoryTaskManager.java:142-150 | the count is at most the length, and equals it exactly when every status is the one counted |
| `Epics.ListedStatuses` | src/manager/InMemoryTaskManager.java:145-150 | the statuses of the listed, stored subtasks; never more than the listed ids |
| `Epics.CountListed` | src/manager/InMemoryTaskManager.java:145-152 | the count reaches the list's length exactly when every listed id names a stored subtask with that status |
| `Epics.AggregateStatus` | src/manager/InMemoryTaskManager.java:142-158 | the status chosen from the counts; `StatusDone`, `StatusNew` and `StatusInProgress` state when each is chosen |
| `Epics.StatusDone` | src/manager/InMemoryTaskManager.java:152-153 | an epic is DONE exactly when every listed subtask is stored and DONE; an empty list gives DONE |
| `Epics.StatusNew` | src/manager/InMemoryTaskManager.java:154-155 | an epic is NEW exactly when its list is non-empty and every listed subtask is stored and NEW |
| `Epics.StatusInProgress` | src/manager/InMemoryTaskManager.java:156-158 | an epic is IN_PROGRESS exactly when neither of the two cases above holds |
| `Epics.TallyStatus` | src/manager/InMemoryTaskManager.java:135-159 | the counting loop returns the aggregate status |
| `Epics.RemoveFirst` | src/manager/InMemoryTaskManager.java:257 | `List.remove(Object)`: an absent id changes nothing, a present one shortens the list by one |
| `Epics.RemoveFirstCut` | src/manager/InMemoryTaskManager.java:257 | what is removed is the first occurrence; everything before and after it keeps its order |
| `Epics.Cleared` | src/manager/InMemoryTaskManager.java:203-206 | the epic's list is emptied and its status set to NEW; every other field is kept |
| `Epics.IdsOf` | src/manager/InMemoryTaskManager.java:130 | the set holds exactly the listed ids |
| `Epics.Lookup` | src/manager/InMemoryTaskManager.java:82-84 | one slot per listed id, in order; a slot is empty exactly when that id is not stored |
| `Epics.PresentGrows` | src/manager/InMemoryTaskManager.java:172-183 | a list whose ids are all stored stays so while the store keeps its ids |
| `Epics.PresentAppend` | src/manager/InMemoryTaskManager.java:224-226 | appending a stored id keeps the list fully stored |
| `Epics.Listed` | src/manager/InMemoryTaskManager.java:172-173 | the listed subtasks, in list order |
| `Epics.EarliestStart` | src/manager/InMemoryTaskManager.java:172-177 | empty exactly when no entry has a start; otherwise a start some entry has, and no later than any start |
| `Epics.LatestEnd` | src/manager/InMemoryTaskManager.java:178-183 | empty exactly when no entry has an end; otherwise an end some entry has, and no earlier than any end |
| `Epics.Window` | src/manager/InMemoryTaskManager.java:161-190 | only start, duration and end may change; an empty list clears all three |
| `Epics.WindowSpans` | src/manager/InMemoryTaskManager.java:185-189 | with a start and an end present, the epic runs from the earliest listed start to the latest listed end; both are reached, every listed window lies inside, and duration = end − start |
| `Epics.WindowStale` | src/manager/InMemoryTaskManager.java:185 | a non-empty list with no start or no end leaves the epic's old times in place |
| `Epics.TwoSubtaskWindow` | src/manager/InMemoryTaskManager.java:161-190 | two 30-minute subtasks 60 minutes apart give an epic spanning 90 minutes from the first start |
| `Epics.Refreshed` | src/manager/InMemoryTaskManager.java:117-118 | after both refreshes the epic keeps its id, title, description and list, and its status is the aggregate of its listed subtasks |
| `History.Added` | src/manager/InMemoryHistoryManager.java:16-23 | after `add`, the added entity is last |
| `History.AddedFacts` | src/manager/InMemoryHistoryManager.java:16-23 | after `add`, ids stay unique; the added id occurs once, at the tail; every other entry keeps its relative order |
| `History.WithoutIdFacts` | src/manager/InMemoryHistoryManager.java:36-41 | `remove` keeps ids unique and loses exactly the removed id |
| `History.WithoutIdAt` | src/manager/InMemoryHistoryManager.java:56-69 | with unique ids, cutting out the node at one position is removing its id |
| `History.WithoutAbsentId` | src/manager/InMemoryHistoryManager.java:38 | removing an id that is not in the history changes nothing |
| `History.IdCount` | src/manager/InMemoryHistoryManager.java:12 | with unique ids the map has one entry per node |
| `History.Node.constructor` | src/utils/Node.java:1-38 | a new node holds the value and has no neighbours |
| `History.HistoryManager.constructor` | src/manager/InMemoryHistoryManager.java:12-14 | a new history is empty and consistent |
| `History.HistoryManager.Add` | src/manager/InMemoryHistoryManager.java:16-23 | null is ignored; otherwise the contents become `Added(old, t)`, and the links and the id map stay consistent |
| `History.HistoryManager.Append` | src/manager/InMemoryHistoryManager.java:22 | an id not yet present is appended at the tail and mapped to its node |
| `History.HistoryManager.GetHistory` | src/manager/InMemoryHistoryManager.java:25-34 | walking from head to tail yields the contents, one entry per id in the map |
| `History.HistoryManager.Remove` | src/manager/InMemoryHistoryManager.java:36-41 | the contents become `WithoutId(old, id)` |
| `History.HistoryManager.LinkLast` | src/manager/InMemoryHistoryManager.java:43-54 | a fresh node is linked after the tail; earlier nodes keep their values; the map is untouched |
| `History.HistoryManager.RemoveNode` | src/manager/InMemoryHistoryManager.java:56-69 | the node is unlinked in both directions, from head, tail or middle, and its id leaves the map |
| `History.HistoryManager.Bypass` | src/manager/InMemoryHistoryManager.java:58-67 | the neighbours of the node are linked to each other, leaving a chain without it |
| `History.HistoryManager.Attach` | src/manager/InMemoryHistoryManager.java:46-52 | the new node's `prev` is the old tail, the old tail's `next` (or `head`, on an empty list) is the new node, and `tail` moves to it |
| `History.HistoryManager.Unlink` | src/manager/InMemoryHistoryManager.java:58-67 | from head, tail or middle, the neighbours are joined in both directions, and the chain without the node is again a well-formed list |
| `History.HistoryManager.Put` | src/manager/InMemoryHistoryManager.java:22 | mapping the id of the just-linked entity to its node makes the map and the list agree again |
| `History.HistoryManager.Forget` | src/manager/InMemoryHistoryManager.java:68 | the id leaves the map and the links are untouched |
| `History.TailIndexed` | src/manager/InMemoryHistoryManager.java:22 | a new id at the tail, mapped to the new node, keeps ids unique and the map position-exact |
| `History.CutIndexed` | src/manager/InMemoryHistoryManager.java:68 | dropping the id of the cut node keeps the map position-exact for the shortened list |
| `History.CutChain` | src/manager/InMemoryHistoryManager.java:58-67 | once the neighbours of a node are joined, the list without it is well-formed, including new head and tail |
| `History.CutFacts` | src/manager/InMemoryHistoryManager.java:56-69 | cutting one entry keeps ids unique and loses exactly its id |
| `History.HistoryManager.HistorySize` | src/manager/InMemoryHistoryManager.java:12 | the map has as many entries as the list has nodes |
| `Invariant.StoresFresh` | src/manager/InMemoryTaskManager.java:49-50 | the next id (counter + 1) is in no store, and filing under it keeps each store to its own kind and its own ids |
| `Invariant.StoresReplaced` | src/manager/InMemoryTaskManager.java:60 | stores that lose entries, or replace them by same-kind values under the same id, stay valid |
| `Invariant.IndexInsert` | src/manager/InMemoryTaskManager.java:51-53 | adding a stored, timed entity keeps the index ascending and made of stored entities |
| `Invariant.IndexWithoutId` | src/manager/InMemoryTaskManager.java:71 | dropping an id from the index allows any change to the stores at that id |
| `Invariant.IndexWithoutIds` | src/manager/InMemoryTaskManager.java:130-132 | dropping a set of ids from the index allows any change to the stores at those ids |
| `Invariant.IndexOnlySubtasks` | src/manager/InMemoryTaskManager.java:33-34 | keeping only subtasks in the index lets the task store be emptied |
| `Invariant.IndexWithoutSubtasks` | src/manager/InMemoryTaskManager.java:93 | dropping every subtask from the index lets the subtask store be emptied |
| `Invariant.KnownWithoutIds` | src/manager/InMemoryTaskManager.java:89-92 | once the history forgets a set of ids, the stores may drop them |
| `Invariant.KnownWithoutId` | src/manager/InMemoryTaskManager.java:69-70 | once the history forgets an id, the stores may drop it |
| `Invariant.KnownAdded` | src/manager/InMemoryTaskManager.java:41 | reading a stored entity keeps every history entry stored |
| `Invariant.KnownGrows` | src/manager/InMemoryTaskManager.java:50 | stores that keep every id keep every history entry stored |
| `Invariant.IndexGrows` | src/manager/InMemoryTaskManager.java:50 | stores that only gain entries keep every index entry stored |
| `Invariant.WithoutIdsUnique` | src/manager/InMemoryTaskManager.java:32 | forgetting ids keeps the history's ids unique |
| `Invariant.SubtaskAdded` | src/manager/InMemoryTaskManager.java:223-231 | storing a fresh subtask, replacing its epic and growing the index keep the invariant |
| `Invariant.EnterComplete` | src/manager/InMemoryTaskManager.java:14 | adding an entity to an index that holds every other stored timed entity gives one that holds them all, when no two stored timed entities share a start |
| `Invariant.FilterComplete` | src/manager/InMemoryTaskManager.java:34 | `removeIf` keeps every stored timed entity that its filter keeps |
| `Invariant.CreatedComplete` | src/manager/InMemoryTaskManager.java:49-53 | storing a task or subtask under a fresh id and adding it to the index keeps the index complete, when starts stay distinct |
| `Invariant.ReplacedComplete` | src/manager/InMemoryTaskManager.java:60-64 | replacing a stored task or subtask, dropping its id from the index and adding the new value keeps the index complete, when starts stay distinct |
| `Invariant.TaskDeletedComplete` | src/manager/InMemoryTaskManager.java:70-71 | deleting a task id that names no subtask keeps the index complete |
| `Invariant.SubtaskDeletedComplete` | src/manager/InMemoryTaskManager.java:255-260 | deleting a stored subtask from its store and the index keeps the index complete |
| `Invariant.EpicDeletedComplete` | src/manager/InMemoryTaskManager.java:124-132 | deleting an epic whose list names no task keeps the index complete |
| `Invariant.EpicDeleted` | src/manager/InMemoryTaskManager.java:122-133 | dropping a stored epic, the ids it lists and their index and history entries keeps the invariant, and keeps a complete index complete when no listed id names a task |
| `Invariant.TasksClearedComplete` | src/manager/InMemoryTaskManager.java:33-34 | emptying the task store and keeping only subtasks in the index keeps it complete |
| `Invariant.SubtasksClearedComplete` | src/manager/InMemoryTaskManager.java:93 | emptying the subtask store and dropping subtasks from the index keeps it complete |
| `Invariant.TieLeavesOut` | src/manager/InMemoryTaskManager.java:14 | a second entity with the same start passes the overlap check but `add` leaves it out: the index is then not complete |
| `Invariant.TaskDeleteDropsSubtask` | src/manager/InMemoryTaskManager.java:71 | `deleteTaskById` given a subtask id drops that subtask from the index while the subtask stays stored |
| `Manager.ValuesOf` | src/manager/InMemoryTaskManager.java:27 | `new ArrayList<>(m.values())` holds exactly the stored values, one per key |
| `Manager.Reindexed` | src/manager/InMemoryTaskManager.java:61-64 | the index after an update stays ascending |
| `Manager.ClearAll` | src/manager/InMemoryTaskManager.java:203-206 | every epic is cleared and no key is added or lost |
| `Manager.TaskManager.constructor` | src/manager/InMemoryTaskManager.java:13-18 | a new manager is empty, with counter 0, and satisfies the invariant |
| `Manager.TaskManager.GetHistory` | src/manager/InMemoryTaskManager.java:20-23 | the history holds no id twice, and every entity in it is still stored |
| `Manager.TaskManager.GetPrioritizedTasks` | src/manager/InMemoryTaskManager.java:270-273 | the list ascends strictly by start, and holds only stored tasks and subtasks that have a start; when the index is complete it holds every one of them |
| `Manager.TaskManager.ForgetAll` | src/manager/InMemoryTaskManager.java:32 | removing each id of a set from the history, in any order, removes exactly those ids |
| `Manager.TaskManager.UpdateEpicsStatus` | src/manager/InMemoryTaskManager.java:135-159 | a stored epic's status becomes the aggregate of its listed subtasks; nothing else changes |
| `Manager.TaskManager.UpdateEpicsTime` | src/manager/InMemoryTaskManager.java:161-190 | a stored epic's times become its `Window`; nothing else changes |
| `Manager.TaskManager.Refresh` | src/manager/InMemoryTaskManager.java:117-118 | both refreshes leave the epic as `Refreshed` and keep the invariant |
| `Manager.TaskManager.GetListOfTasks` | src/manager/InMemoryTaskManager.java:25-28 | exactly the stored tasks, one per id |
| `Manager.TaskManager.DeleteAllTasks` | src/manager/InMemoryTaskManager.java:30-35 | the task store is emptied, the task ids leave the history, the index keeps exactly its subtasks, and the invariant holds; an index that held every stored timed entity still does |
| `Manager.TaskManager.GetTaskById` | src/manager/InMemoryTaskManager.java:37-43 | a stored task is returned and added to the history; a missing one gives null and no change |
| `Manager.TaskManager.CreateTask` | src/manager/InMemoryTaskManager.java:45-54 | null is ignored; the task is stored exactly when the overlap check passes; otherwise it throws with nothing changed. On success: the next id, unused before; the index grows by the task if it has a start; the invariant holds; if the index held every stored timed entity before, and no two stored timed entities share a start, it holds every one after |
| `Manager.TaskManager.UpdateTaskById` | src/manager/InMemoryTaskManager.java:56-65 | null or an unknown id is ignored; a stored task is replaced exactly when the check passes, in the store and in the index; otherwise it throws with nothing changed; if the index held every stored timed entity before, and no two stored timed entities share a start, it holds every one after |
| `Manager.TaskManager.DeleteTaskById` | src/manager/InMemoryTaskManager.java:67-72 | the id leaves the history, the task store and the index, whatever kind of entity it names; an index that held every stored timed entity still does when the id is not a subtask id |
| `Manager.TaskManager.GetListOfEpics` | src/manager/InMemoryTaskManager.java:74-77 | exactly the stored epics, one per id |
| `Manager.TaskManager.GetEpicById` | src/manager/InMemoryTaskManager.java:96-102 | a stored epic is returned and added to the history; a missing one gives null and no change |
| `Manager.TaskManager.GetSubtasksOfEpic` | src/manager/InMemoryTaskManager.java:79-85 | null for an unknown epic; otherwise one slot per listed id, empty for a missing subtask, and the epic enters the history |
| `Manager.TaskManager.CreateEpic` | src/manager/InMemoryTaskManager.java:104-109 | the epic is stored as given under the next id, unused before; nothing else changes |
| `Manager.TaskManager.UpdateEpicById` | src/manager/InMemoryTaskManager.java:111-119 | a stored epic is replaced by the new value with the old subtask list, then refreshed; other stores, the index and the history are untouched |
| `Manager.TaskManager.DeleteEpicById` | src/manager/InMemoryTaskManager.java:121-133 | the id always leaves the history; a stored epic and its listed subtasks leave the stores, the history and the index; an index that held every stored timed entity still does when the epic lists no task id |
| `Manager.TaskManager.ForgetListed` | src/manager/InMemoryTaskManager.java:126-129 | each listed id leaves the history and the subtask store |
| `Manager.TaskManager.DeleteAllEpics` | src/manager/InMemoryTaskManager.java:87-94 | epics and subtasks leave the stores and the history, and the index keeps only tasks; an index that held every stored timed entity still does |
| `Manager.TaskManager.GetListOfSubtasks` | src/manager/InMemoryTaskManager.java:193-196 | exactly the stored subtasks, one per id |
| `Manager.TaskManager.DeleteAllSubtasks` | src/manager/InMemoryTaskManager.java:198-209 | subtasks leave the store and the history; every epic is kept but cleared to NEW with an empty list; the index keeps only tasks; an index that held every stored timed entity still does |
| `Manager.TaskManager.GetSubtaskById` | src/manager/InMemoryTaskManager.java:211-217 | a stored subtask is returned and added to the history; a missing one gives null and no change |
| `Manager.TaskManager.CreateSubtask` | src/manager/InMemoryTaskManager.java:219-232 | the subtask is stored exactly when the check passes, under the next id; its epic lists it last and is refreshed; the index grows by it if it has a start; otherwise it throws with nothing changed; if the index held every stored timed entity before, and no two stored timed entities share a start, it holds every one after |
| `Manager.TaskManager.StoreSubtask` | src/manager/InMemoryTaskManager.java:223-226 | the next id is given, the subtask stored, the id appended to its epic's list, and the index grown; if the index held every stored timed entity before, and no two stored timed entities share a start, it holds every one after |
| `Manager.TaskManager.UpdateSubtaskById` | src/manager/InMemoryTaskManager.java:235-247 | a stored subtask is replaced exactly when the check passes; the epic named by the new value is refreshed; the index is updated; otherwise it throws with nothing changed; if the index held every stored timed entity before, and no two stored timed entities share a start, it holds every one after |
| `Manager.TaskManager.ReplaceSubtask` | src/manager/InMemoryTaskManager.java:239-246 | the subtask is replaced in the store and in the index; if the index held every stored timed entity before, and no two stored timed entities share a start, it holds every one after |
| `Manager.TaskManager.DeleteSubtaskById` | src/manager/InMemoryTaskManager.java:250-261 | the id always leaves the history; a stored subtask leaves its store and the index, its first occurrence leaves its epic's list, and the epic is refreshed; an index that held every stored timed entity still does |
| `Manager.TaskManager.DropSubtask` | src/manager/InMemoryTaskManager.java:252-257 | the steps before the refresh: history, store, the epic's list and the index each lose the id; an index that held every stored timed entity still does |
| `Codec.Pieces` | src/manager/FileBackedTaskManager.java:109 | the text cut at every comma: at least one piece, and no piece holds a comma |
| `Codec.Join` | src/manager/FileBackedTaskManager.java:77 | a single field is written as itself |
| `Codec.DropTrailingEmpty` | src/manager/FileBackedTaskManager.java:109 | `split` drops exactly the trailing empty strings, and keeps the rest as a prefix |
| `Codec.Split` | src/manager/FileBackedTaskManager.java:109 | Java `split(",")`; `SplitJoin` proves it undoes the join of comma-free fields whose last one is non-empty |
| `Codec.PiecesJoin` | src/manager/FileBackedTaskManager.java:74-109 | cutting at commas undoes joining when no field holds a comma |
| `Codec.JoinHasComma` | src/manager/FileBackedTaskManager.java:77 | two or more joined fields contain a comma |
| `Codec.SplitJoin` | src/manager/FileBackedTaskManager.java:109 | `split` reads back every joined field when none holds a comma and the last is not empty |
| `Codec.SplitJoinEmptyLast` | src/manager/FileBackedTaskManager.java:109 | an empty last field is lost: `split` returns one field fewer |
| `Codec.DigitChar` | src/manager/FileBackedTaskManager.java:77 | a digit character that denotes the given digit |
| `Codec.Digits` | src/manager/FileBackedTaskManager.java:77 | decimal digits with no leading zero |
| `Codec.ValueDigits` | src/manager/FileBackedTaskManager.java:113 | reading a number's digits gives the number back |
| `Codec.IntText` | src/manager/FileBackedTaskManager.java:77 | `%d` writes non-empty text with no comma that is never "null" |
| `Codec.ParseDecimal` | src/manager/FileBackedTaskManager.java:113 | an optional sign then decimal digits; `ParseDecimalText` proves it reads back every written number |
| `Codec.ParseInt` | src/manager/FileBackedTaskManager.java:113 | `Integer.parseInt` succeeds exactly on the decimal grammar within 32 bits |
| `Codec.ParseLong` | src/manager/FileBackedTaskManager.java:118 | `Long.parseLong` succeeds exactly on the decimal grammar within 64 bits |
| `Codec.ParseDecimalText` | src/manager/FileBackedTaskManager.java:113 | every number reads back from the text written for it |
| `Codec.StatusText` | src/manager/FileBackedTaskManager.java:81 | a status name is non-empty and has no comma |
| `Codec.ParseStatus` | src/manager/FileBackedTaskManager.java:116 | `TaskStatus.valueOf`; `StatusRoundTrip` proves the constant names are exactly the texts it accepts |
| `Codec.StatusRoundTrip` | src/manager/FileBackedTaskManager.java:116 | `valueOf` reads a status back from its name, and no other text reads as it |
| `Codec.MinutesText` | src/manager/FileBackedTaskManager.java:84-85 | a start's or a duration's text is non-empty and has no comma, and is "null" exactly when there is none |
| `Codec.Field` | src/manager/FileBackedTaskManager.java:114 | `val[i]` succeeds exactly when the row has that column; otherwise it is the out-of-bounds fault for that index |
| `Codec.IntField` | src/manager/FileBackedTaskManager.java:113 | succeeds exactly when the column exists and parses as a 32-bit number |
| `Codec.StatusField` | src/manager/FileBackedTaskManager.java:116 | succeeds exactly when the column exists and names a status |
| `Codec.StartField` | src/manager/FileBackedTaskManager.java:117 | "null" reads as no start; otherwise the number the text denotes |
| `Codec.DurationField` | src/manager/FileBackedTaskManager.java:118 | "null" reads as no duration; otherwise a `Long.parseLong` number, accepted exactly when `Duration.ofMinutes` can hold it (at most Long.MAX_VALUE / 60 minutes either way) and else the fault `TooLong` |
| `Codec.DurationTooLong` | src/manager/FileBackedTaskManager.java:118 | the largest long parses, yet the duration field rejects it with `TooLong` |
| `Codec.RowFields` | src/manager/FileBackedTaskManager.java:74-106 | the columns start with the id and the type tag |
| `Codec.RowFieldsPlain` | src/manager/FileBackedTaskManager.java:74-106 | the written columns hold no comma when title and description hold none |
| `Codec.TypeTag` | src/manager/FileBackedTaskManager.java:79-98 | the tag column of a row; `FromRow` gives back an entity of the class its tag names |
| `Codec.ToRow` | src/manager/FileBackedTaskManager.java:74-106 | `toString`; the round-trip lemmas prove `FromRow` reads it back |
| `Codec.StartFieldText` | src/manager/FileBackedTaskManager.java:84-117 | a written start reads back as itself |
| `Codec.DurationFieldText` | src/manager/FileBackedTaskManager.java:85-118 | a written duration that a `Duration` can hold reads back as itself |
| `Codec.IntFieldText` | src/manager/FileBackedTaskManager.java:77-113 | a written 32-bit number reads back as itself |
| `Codec.FreshEpic` | src/manager/FileBackedTaskManager.java:120 | an epic read from a row is NEW, with no times and no subtasks |
| `Codec.FromRow` | src/manager/FileBackedTaskManager.java:108-133 | a decoded entity has the class its tag names and the id in column 0; an epic comes back fresh; an unknown tag, or a row with fewer than two columns, gives its own fault; a decoded duration is one `Duration.ofMinutes` accepts |
| `Codec.TaskRoundTrip` | src/manager/FileBackedTaskManager.java:96-119 | a task row reads back as the same task, every field kept |
| `Codec.SubtaskRoundTrip` | src/manager/FileBackedTaskManager.java:77-130 | a subtask row reads back as the same subtask, its epic id included |
| `Codec.EpicRoundTrip` | src/manager/FileBackedTaskManager.java:88-120 | an epic row with a description reads back as a fresh epic; the written status is dropped |
| `Codec.EpicEmptyDescription` | src/manager/FileBackedTaskManager.java:88-120 | an epic with an empty description cannot be read back: `split` drops the last column and `val[4]` is out of bounds |
| `Snapshot.Rows` | src/manager/FileBackedTaskManager.java:23 | the header line is skipped |
| `Snapshot.ReadRow` | src/manager/FileBackedTaskManager.java:26-30 | a row that reads has an id and a type tag naming its class |
| `Snapshot.File` | src/manager/FileBackedTaskManager.java:29-52 | filing keeps each store to its kind and the index ascending; the index grows by a timed entity; the largest id is kept; it fails exactly for a subtask whose epic is not loaded |
| `Snapshot.Step` | src/manager/FileBackedTaskManager.java:25-53 | one pass of the read loop keeps the loaded state well shaped |
| `Snapshot.Replay` | src/manager/FileBackedTaskManager.java:25-53 | reading the rows in file order keeps the loaded state well shaped |
| `Snapshot.Load` | src/manager/FileBackedTaskManager.java:19-59 | `loadFromFile` after the header; `LoadedValid`, `LoadedLists` and `LoadedComplete` state what it builds |
| `Snapshot.FailureSticks` | src/manager/FileBackedTaskManager.java:25-53 | once some rows fail, the whole load fails with the same exception |
| `Snapshot.ReadRows` | src/manager/FileBackedTaskManager.java:25-54 | the read loop computes `Replay` of the rows |
| `Snapshot.Decoded` | src/manager/FileBackedTaskManager.java:30 | one decoded entity per row |
| `Snapshot.FileAll` | src/manager/FileBackedTaskManager.java:31-52 | filing decoded entities one after another keeps the state well shaped |
| `Snapshot.ReplayFiles` | src/manager/FileBackedTaskManager.java:25-53 | a load that succeeds decodes every row, and files the entities in file order |
| `Snapshot.ChildIds` | src/manager/FileBackedTaskManager.java:47 | never more ids than entities |
| `Snapshot.FiledCounter` | src/manager/FileBackedTaskManager.java:29 | the largest id kept while filing is at least 0, at least every id filed, and one of them unless 0 |
| `Snapshot.FiledLists` | src/manager/FileBackedTaskManager.java:39-47 | an epic filed and never replaced lists the later subtasks that name it, in order |
| `Snapshot.FiledEpicsUnset` | src/manager/FileBackedTaskManager.java:38-43 | filing never computes an epic's status or times, and puts no epic into the index |
| `Snapshot.FiledValid` | src/manager/FileBackedTaskManager.java:31-54 | entities with distinct positive ids file into stores and an index that satisfy the manager invariant |
| `Snapshot.LoadedEntities` | src/manager/FileBackedTaskManager.java:25-53 | a successful load gives one entity per row; each is what its own row reads as, carries its row's id, and an epic among them is fresh |
| `Snapshot.LoadedCounter` | src/manager/FileBackedTaskManager.java:24-54 | the counter after loading is the largest row id, or 0, so the next create gives an id above every loaded one |
| `Snapshot.LoadedLists` | src/manager/FileBackedTaskManager.java:38-47 | a loaded epic lists, in file order, the ids of the later subtask rows that name it |
| `Snapshot.LoadedEpicsUnset` | src/manager/FileBackedTaskManager.java:38-43 | loading never restores an epic's status or times: every loaded epic is NEW with no times, and only timed tasks and subtasks enter the index |
| `Snapshot.LoadedValid` | src/manager/FileBackedTaskManager.java:19-59 | rows with distinct positive ids load into stores and an index that satisfy the manager invariant |
| `Snapshot.FiledStored` | src/manager/FileBackedTaskManager.java:31-52 | every task and subtask read from the rows ends up stored under its id |
| `Snapshot.FiledComplete` | src/manager/FileBackedTaskManager.java:31-52 | when no two filed tasks or subtasks share a start, every timed one is in the index |
| `Snapshot.FileKeepsComplete` | src/manager/FileBackedTaskManager.java:32-51 | filing one more entity keeps the index complete when starts stay distinct |
| `Snapshot.LoadedComplete` | src/manager/FileBackedTaskManager.java:19-59 | rows with distinct ids and distinct starts load into a complete index |
| `Snapshot.LoadedRowsIndexed` | src/manager/FileBackedTaskManager.java:34-50 | when the loaded starts are distinct, every timed task or subtask row is in the index |
| `Snapshot.Rendered` | src/manager/FileBackedTaskManager.java:65-67 | one row per key, in the given order, each rendering that key's value |
| `Snapshot.WriteRows` | src/manager/FileBackedTaskManager.java:65-67 | the loop over a map writes the rows of all its values, in some iteration order of its keys |
| `Snapshot.SaveRows` | src/manager/FileBackedTaskManager.java:61-72 | the file is the header, then every task, every epic and every subtask, one row each |
| `FileBacked.FileBackedTaskManager.constructor` | src/manager/FileBackedTaskManager.java:15-17 | an empty manager; the file is left as it is |
| `FileBacked.FileBackedTaskManager.LoadFromFile` | src/manager/FileBackedTaskManager.java:19-59 | the exception the rows raise, or a fresh manager holding exactly what `Load` builds with an empty history; with fresh ids it satisfies the invariant, and with distinct starts too its index is complete |
| `FileBacked.FileBackedTaskManager.Save` | src/manager/FileBackedTaskManager.java:61-72 | the file becomes the saved rows of the current stores |
| `FileBacked.FileBackedTaskManager.DeleteAllTasks` | src/manager/FileBackedTaskManager.java:135-140 | the in-memory effect, then the file holds the new state; index completeness is kept as in memory |
| `FileBacked.FileBackedTaskManager.CreateTask` | src/manager/FileBackedTaskManager.java:141-146 | the in-memory effect; the file is rewritten unless the call threw, and then it is untouched; index completeness is kept as in memory |
| `FileBacked.FileBackedTaskManager.UpdateTaskById` | src/manager/FileBackedTaskManager.java:147-152 | the in-memory effect; the file is rewritten unless the call threw; index completeness is kept as in memory |
| `FileBacked.FileBackedTaskManager.DeleteTaskById` | src/manager/FileBackedTaskManager.java:153-158 | the in-memory effect, then the file holds the new state; index completeness is kept as in memory |
| `FileBacked.FileBackedTaskManager.DeleteAllEpics` | src/manager/FileBackedTaskManager.java:159-164 | the in-memory effect, then the file holds the new state; index completeness is kept as in memory |
| `FileBacked.FileBackedTaskManager.CreateEpic` | src/manager/FileBackedTaskManager.java:165-170 | the in-memory effect, then the file holds the new state |
| `FileBacked.FileBackedTaskManager.UpdateEpicById` | src/manager/FileBackedTaskManager.java:171-176 | the in-memory effect, then the file holds the new state |
| `FileBacked.FileBackedTaskManager.DeleteEpicById` | src/manager/FileBackedTaskManager.java:177-182 | the in-memory effect, then the file holds the new state; index completeness is kept as in memory |
| `FileBacked.FileBackedTaskManager.DeleteAllSubtasks` | src/manager/FileBackedTaskManager.java:183-188 | the in-memory effect, then the file holds the new state; index completeness is kept as in memory |
| `FileBacked.FileBackedTaskManager.CreateSubtask` | src/manager/FileBackedTaskManager.java:189-194 | the in-memory effect; the file is rewritten unless the call threw; index completeness is kept as in memory |
| `FileBacked.FileBackedTaskManager.UpdateSubtaskById` | src/manager/FileBackedTaskManager.java:195-200 | the in-memory effect; the file is rewritten unless the call threw; index completeness is kept as in memory |
| `FileBacked.FileBackedTaskManager.DeleteSubtaskById` | src/manager/FileBackedTaskManager.java:201-205 | the in-memory effect, then the file holds the new state; index completeness is kept as in memory |
| `LegacyHistory.Appended` | src/InMemoryHistoryManager.java:8-12 | the entity goes last, and a list of at most ten stays within ten |
| `LegacyHistory.LastOf` | src/InMemoryHistoryManager.java:10 | at most `n` entries, and never more than there are |
| `LegacyHistory.KeepsLastTen` | src/InMemoryHistoryManager.java:8-12 | the history is exactly the last ten entities added, in the order they were added |
| `LegacyHistory.AddedTwice` | src/InMemoryHistoryManager.java:8-12 | no de-duplication: adding an entity twice to a short list records it twice |
| `LegacyHistory.CappedHistory.constructor` | src/InMemoryHistoryManager.java:5 | a new history is empty |
| `LegacyHistory.CappedHistory.Add` | src/InMemoryHistoryManager.java:8-12 | null is ignored; otherwise the list becomes `Appended(old, t)` and stays within ten |
| `LegacyHistory.CappedHistory.GetHistory` | src/InMemoryHistoryManager.java:15-17 | the list itself, at most ten entries |
| `LegacyEpic.Related` | src/Epic.java:27-30 | never more than the list given |
| `LegacyEpic.StatusesOf` | src/Epic.java:37-40 | the statuses, in order |
| `LegacyEpic.UpdatedStatus` | src/Epic.java:25-45 | the status `updateStatus` sets; `UpdatedStatusCases` and `OnlyRelatedCount` state the rule and that other epics' subtasks do not matter |
| `LegacyEpic.UpdatedStatusCases` | src/Epic.java:25-45 | with none of its own subtasks the status is kept; otherwise DONE exactly when all are DONE, NEW exactly when all are NEW, IN_PROGRESS otherwise |
| `LegacyEpic.OnlyRelatedCount` | src/Epic.java:28-30 | subtasks of other epics, before or after, do not affect the result |
| `LegacyEpic.CollectRelated` | src/Epic.java:27-30 | the first loop keeps exactly the subtasks whose epic id is this epic's, in order |
| `LegacyEpic.LegacyEpic.constructor` | src/Epic.java:7-11 | a new epic is NEW with an empty list |
| `LegacyEpic.LegacyEpic.AddSubtask` | src/Epic.java:21-23 | the id is appended after the earlier ones |
| `LegacyEpic.LegacyEpic.SetSubtaskIds` | src/Epic.java:17-19 | the list becomes the given one |
| `LegacyEpic.LegacyEpic.UpdateStatus` | src/Epic.java:25-45 | the status becomes `UpdatedStatus` of the old status, the list and the epic's id |
| `LegacySchedule.Collected` | src/InMemoryTaskManager.java:256-261 | adding the values with a start to a start-ordered set keeps it ascending |
| `LegacySchedule.PrioritizedList` | src/InMemoryTaskManager.java:253-263 | the rebuilt list ascends strictly by start |
| `LegacySchedule.AddTimed` | src/InMemoryTaskManager.java:256-258 | the stream over the map's values adds them in some iteration order of its keys |
| `LegacySchedule.CollectedFacts` | src/InMemoryTaskManager.java:255-261 | additions never remove an entry, add only values of the map, and leave every added start taken |
| `LegacySchedule.PrioritizedStored` | src/InMemoryTaskManager.java:253-263 | the rebuilt list ascends strictly and holds only stored tasks and subtasks that have a start |
| `LegacySchedule.PrioritizedStarts` | src/InMemoryTaskManager.java:253-263 | every stored start is taken in the list, and because tasks go in first, a task's start is always taken by a task |
| `LegacySchedule.PrioritizedComplete` | src/InMemoryTaskManager.java:253-263 | when no two stored entities share a start, the list holds every stored task and subtask that has one |
| `LegacySchedule.HasOverlapsMeaning` | src/InMemoryTaskManager.java:265-277 | with an end on every timed entity, the check never meets a null end; an overlap it reports is real; without start ties it reports exactly the real overlaps |
| `LegacySchedule.OverlapCheck` | src/InMemoryTaskManager.java:270-276 | the verdict of the earlier `hasOverlaps` over the list it built; no start means no check, and `HasOverlapsMeaning` relates the screen it runs to the stored overlaps |
| `LegacySchedule.TieHidesOverlap` | src/InMemoryTaskManager.java:255-261 | a task and a longer subtask at the same start leave only the task in the list, so a candidate overlapping only the subtask passes |
| `LegacyManager.LegacyManager.constructor` | src/InMemoryTaskManager.java:6-10 | a new manager is empty, with counter 0 |
| `LegacyManager.LegacyManager.GetHistory` | src/InMemoryTaskManager.java:12-15 | the capped history, at most ten entries |
| `LegacyManager.LegacyManager.GetPrioritizedTasks` | src/InMemoryTaskManager.java:253-263 | a list built in some iteration order of the two maps; it ascends strictly and holds only stored, timed tasks and subtasks |
| `LegacyManager.LegacyManager.HasOverlaps` | src/InMemoryTaskManager.java:269-277 | the verdict over a list `getPrioritizedTasks` may build; with ends everywhere, never a null end, and an overlap reported only when real |
| `LegacyManager.LegacyManager.ForgetAll` | src/InMemoryTaskManager.java:24-26 | removing each id of a set from the history removes exactly those ids |
| `LegacyManager.LegacyManager.UpdateEpicsStatus` | src/InMemoryTaskManager.java:124-148 | a stored epic's status becomes the aggregate of its listed subtasks |
| `LegacyManager.LegacyManager.UpdateEpicsTime` | src/InMemoryTaskManager.java:150-179 | a stored epic's times become its `Window` |
| `LegacyManager.LegacyManager.Refresh` | src/InMemoryTaskManager.java:124-179 | both refreshes leave the epic as `Refreshed` and keep the invariant |
| `LegacyManager.LegacyManager.GetListOfTasks` | src/InMemoryTaskManager.java:17-20 | exactly the stored tasks, one per id |
| `LegacyManager.LegacyManager.DeleteAllTasks` | src/InMemoryTaskManager.java:22-28 | the task ids leave the history and the store is emptied |
| `LegacyManager.LegacyManager.GetTaskById` | src/InMemoryTaskManager.java:30-36 | a stored task is returned and appended to the capped history; a missing one gives null and no change |
| `LegacyManager.LegacyManager.CreateTask` | src/InMemoryTaskManager.java:38-46 | the task is stored under the next id exactly when the check over the rebuilt list passes; otherwise it throws with nothing changed |
| `LegacyManager.LegacyManager.UpdateTaskById` | src/InMemoryTaskManager.java:48-55 | a stored task is replaced exactly when the check passes; otherwise it throws with nothing changed |
| `LegacyManager.LegacyManager.DeleteTaskById` | src/InMemoryTaskManager.java:57-61 | the id leaves the history and the task store |
| `LegacyManager.LegacyManager.GetListOfEpics` | src/InMemoryTaskManager.java:63-66 | exactly the stored epics, one per id |
| `LegacyManager.LegacyManager.GetEpicById` | src/InMemoryTaskManager.java:88-94 | a stored epic is returned and appended to the capped history |
| `LegacyManager.LegacyManager.GetSubtasksOfEpic` | src/InMemoryTaskManager.java:68-74 | null for an unknown epic; otherwise one slot per listed id, and the epic enters the history |
| `LegacyManager.LegacyManager.CreateEpic` | src/InMemoryTaskManager.java:96-101 | the epic is stored as given under the next id, unused before |
| `LegacyManager.LegacyManager.UpdateEpicById` | src/InMemoryTaskManager.java:103-111 | a stored epic is replaced by the new value with the old list, then refreshed |
| `LegacyManager.LegacyManager.DeleteEpicById` | src/InMemoryTaskManager.java:113-122 | the epic's id leaves the history; the epic and its listed subtasks leave the stores, but the listed subtasks stay in the history |
| `LegacyManager.LegacyManager.DropListed` | src/InMemoryTaskManager.java:118-120 | each listed id leaves the subtask store |
| `LegacyManager.LegacyManager.DeleteAllEpics` | src/InMemoryTaskManager.java:76-86 | epic and subtask ids leave the history and both stores are emptied |
| `LegacyManager.LegacyManager.GetListOfSubtasks` | src/InMemoryTaskManager.java:182-185 | exactly the stored subtasks, one per id |
| `LegacyManager.LegacyManager.DeleteAllSubtasks` | src/InMemoryTaskManager.java:187-198 | subtasks leave the store and the history; every epic is cleared to NEW with an empty list |
| `LegacyManager.LegacyManager.GetSubtaskById` | src/InMemoryTaskManager.java:200-206 | a stored subtask is returned and appended to the capped history |
| `LegacyManager.LegacyManager.CreateSubtask` | src/InMemoryTaskManager.java:208-220 | the subtask is stored under the next id exactly when the check passes; its epic lists it last and is refreshed |
| `LegacyManager.LegacyManager.StoreSubtask` | src/InMemoryTaskManager.java:211-214 | the next id is given, the subtask stored, and the id appended to its epic's list |
| `LegacyManager.LegacyManager.UpdateSubtaskById` | src/InMemoryTaskManager.java:222-232 | a stored subtask is replaced exactly when the check passes, and the epic named by the new value is refreshed |
| `LegacyManager.LegacyManager.DeleteSubtaskById` | src/InMemoryTaskManager.java:234-244 | the id leaves the history; a stored subtask leaves its store and its first occurrence leaves its epic's list, then the epic is refreshed |
| `LegacyCodec.LegacyRowFields` | src/FileBackedTaskManager.java:59-83 | the columns are the id, the tag, the title, the status and the description |
| `LegacyCodec.LegacyRowFieldsPlain` | src/FileBackedTaskManager.java:59-83 | the written columns hold no comma when title and description hold none |
| `LegacyCodec.LegacyToRow` | src/FileBackedTaskManager.java:59-83 | the earlier `toString`; the legacy round-trip lemmas prove `LegacyFromRow` reads it back |
| `LegacyCodec.LegacyFromRow` | src/FileBackedTaskManager.java:85-97 | a decoded entity has the class its tag names, its row's id, and no times; an epic comes back fresh; an unknown tag or a short row gives its own fault |
| `LegacyCodec.LegacyTaskRoundTrip` | src/FileBackedTaskManager.java:76-89 | an untimed task with a description reads back as itself |
| `LegacyCodec.LegacyTaskEmptyDescription` | src/FileBackedTaskManager.java:76-89 | a task with an empty description cannot be read back |
| `LegacyCodec.LegacySubtaskRoundTrip` | src/FileBackedTaskManager.java:61-93 | an untimed subtask reads back as itself, whatever its description |
| `LegacyCodec.LegacyEpicRoundTrip` | src/FileBackedTaskManager.java:69-91 | an epic row with a description reads back as a fresh epic |
| `LegacyCodec.LegacyRowNotCurrent` | src/FileBackedTaskManager.java:59-83 | the current reader runs out of columns on an earlier task or subtask row |
| `LegacyCodec.LegacyStep` | src/FileBackedTaskManager.java:22-37 | every row that reads has an id, and the id raises the largest id seen whatever the type |
| `LegacyCodec.UnknownRowSkipped` | src/FileBackedTaskManager.java:22-37 | a row of unknown type only raises the counter |
| `LegacyCodec.LegacyReplay` | src/FileBackedTaskManager.java:21-38 | the epic store holds epics only |
| `LegacyCodec.LegacyLoad` | src/FileBackedTaskManager.java:15-39 | the earlier `loadFromFile`; `ReadLegacyRows`, `LegacyLists` and the counter lemmas state what it builds |
| `LegacyCodec.LegacyFailureSticks` | src/FileBackedTaskManager.java:21-38 | once some rows fail, the whole load fails with the same exception |
| `LegacyCodec.ReadLegacyRows` | src/FileBackedTaskManager.java:21-39 | the read loop computes `LegacyReplay` of the rows |
| `LegacyCodec.LegacyCounterBounds` | src/FileBackedTaskManager.java:20-39 | the counter after loading is at least 0 and at least every row id, skipped rows included |
| `LegacyCodec.LegacyCounterAttained` | src/FileBackedTaskManager.java:20-39 | the counter after loading is 0 or some row's id |
| `LegacyCodec.LegacyChildIds` | src/FileBackedTaskManager.java:35 | never more ids than rows |
| `LegacyCodec.LegacyLists` | src/FileBackedTaskManager.java:29-36 | a loaded epic lists, in file order, the ids of the later subtask rows that name it |
| `LegacyCodec.LegacySaveRows` | src/FileBackedTaskManager.java:46-57 | the file is the earlier header, then a row for every task, epic and subtask |

## Left out

- **Values, not references.** The stores hold entity values, not references. A caller that keeps
  a Java object sees later changes to it, such as an epic's recomputed status. The
  subtask-id list shared through `setSubtaskIds` is also aliased. The model does not capture this
  aliasing.
- **History as a value inside the managers.** Both managers keep their history as a sequence,
  changed by `Added` and `WithoutId` (current) or `Appended` and `WithoutId` (earlier). The linked
  `HistoryManager` class is proved, separately, to implement `Added` and `WithoutId`. The manager
  does not hold a reference to a `HistoryManager` object.
- **HashMap iteration order.** The order is unspecified. Listing values, `save` and the earlier
  prioritized list are proved for every possible order.
- **File I/O.** Files are sequences of lines. Reading and writing, `IOException`,
  `ManagerFileLoadException` and `ManagerSaveException` are not modelled.
- **Time.** `LocalDateTime` and `Duration` are whole minutes. A start is written as its decimal
  minute count instead of ISO-8601 text. The count is injective, so the round trips still mean
  what they say.
- **Digits.** Number parsing accepts only ASCII digits. Java also accepts other Unicode digits.
- **Null dereferences are preconditions.** A call that would dereference null, and so throw a
  `NullPointerException`, is excluded by a `requires` where the Java code makes the dereference:
  - a subtask whose epic does not exist;
  - an epic whose listed ids name missing subtasks when its window is recomputed.

  A start without a duration is not excluded anywhere: its end time is null, which
  `updateEpicsTime` skips and `toString` writes as "null".

  The null end met inside the overlap check is modelled as the outcome `Threw(NullEnd)`.
- **Counter overflow.** `taskIdCounter` is an unbounded integer, so the model does not wrap a
  32-bit `int` past 2147483647.
- **Printing.** `printAllTasks` and the earlier `see` only print, and are not modelled.
- **Node accessors.** `src/utils/Node.java` has getters and setters. They are field reads and
  writes in `History`.
- **Earlier `HistoryManager.remove`.** The earlier managers call `historyManager.remove(id)`, but
  `src/InMemoryHistoryManager.java` has no `remove`, and its `HistoryManager` interface is not part
  of this model. The model takes `remove` to drop every entry with that id.
- **Earlier `Task.java`.** The earlier `Task` class is not part of this model. Its `equals`,
  `getEndTime` and the id 0 of a new object are taken from the current `model.Task`.
- **Earlier file-backed manager.** The mutating overrides of the earlier `FileBackedTaskManager`
  (src/FileBackedTaskManager.java:105-175) are not modelled. They are the earlier manager's
  operations followed by `save`, as in `FileBacked`. Placing the result of the earlier load into a
  manager object is not modelled either: `LegacyReplay` states what the loaded state is.
- **Save then load.** A theorem that loading a saved file gives back the saved state is not
  stated. The row round trips and `LoadedLists` are its parts. Epics do not come back whole: their
  status and times are not restored, as `LoadedEpicsUnset` states.
- `Manager.TaskManager.GetPrioritizedTasks`: the list holds every stored task and subtask with a
  start only under two conditions, and the model proves completeness under them. First, no two
  stored timed entities may share a start: the `TreeSet` compares starts only, so `add` of a second
  entity with the same start does nothing, and `TieLeavesOut` gives such a pair (an entity with zero
  duration passes the overlap check). Second, `deleteTaskById` must not be given a subtask id: its
  `removeIf` drops that subtask from the index while it stays stored (`TaskDeleteDropsSubtask`).
  `deleteEpicById` also needs the epic's list to name no task, which holds for every list the
  manager builds but is not part of the invariant.
- `LegacySchedule.HasOverlapsMeaning`: the "exactly the real overlaps" direction needs distinct
  stored starts. With a tie, the rebuilt set drops an entity and can hide an overlap, as
  `TieHidesOverlap` shows.
