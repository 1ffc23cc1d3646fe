/**
 * The earlier in-memory task manager (`src/InMemoryTaskManager.java`): the same three id-keyed
 * stores and shared id counter as the current manager, but no index of timed entities. The
 * prioritized list is rebuilt on every call, and the overlap check of `createTask`,
 * `updateTaskById`, `createSubtask` and `updateSubtaskById` runs over that rebuilt list.
 *
 * The history is the capped list of the earlier history manager: `add` appends and drops the
 * oldest entry of a full list; `remove(id)` drops the entries with that id.
 */
module LegacyManager {
  import opened Wrappers
  import opened Model
  import opened Seqs
  import opened Schedule
  import opened Epics
  import opened Invariant
  import opened LegacyHistory
  import opened LegacySchedule
  import opened Manager

  class LegacyManager {
    var history: seq<Item>
    var counter: int
    var tasks: map<int, Item>
    var epics: map<int, Item>
    var subtasks: map<int, Item>

    ghost predicate Valid()
      reads this
    {
      Stores(tasks, epics, subtasks, counter) && |history| <= Capacity
    }

    constructor ()
      ensures Valid()
      ensures tasks == map[] && epics == map[] && subtasks == map[] && counter == 0 && history == []
    {
      history := [];
      counter := 0;
      tasks, epics, subtasks := map[], map[], map[];
    }

    /** `getHistory`: the capped list, oldest first. */
    method GetHistory() returns (list: seq<Item>)
      requires Valid()
      ensures list == history && |list| <= Capacity
    {
      list := history;
    }

    /**
     * `getPrioritizedTasks`: the stored tasks with a start, then the stored subtasks with a
     * start, added to a start-ordered set; the result ascends strictly by start and holds only
     * stored tasks and subtasks.
     */
    method GetPrioritizedTasks() returns (list: seq<Item>, ghost ot: seq<int>, ghost os: seq<int>)
      requires Valid()
      ensures Enumerates(ot, tasks) && Enumerates(os, subtasks) && list == PrioritizedList(ot, os, tasks, subtasks)
      ensures Prioritized(list, tasks, subtasks)
      ensures forall i :: 0 <= i < |list| ==> list[i].start.Some? && Stored(list[i], tasks, subtasks)
      ensures forall i, j :: 0 <= i < j < |list| ==> list[i].start.value < list[j].start.value
    {
      var inner;
      inner, ot := AddTimed([], tasks);
      list, os := AddTimed(inner, subtasks);
      PrioritizedStored(ot, os, tasks, epics, subtasks, counter);
      assert Pairwise(list, StartsBefore);
    }

    /**
     * `hasOverlaps(task)`: a task without a start passes; otherwise the verdict of the overlap
     * stream over the rebuilt list. With ends on every timed entity the stream cannot meet a
     * null end, and an overlap it reports is a real overlap with a stored entity.
     */
    method HasOverlaps(task: Item) returns (v: Verdict, ghost seen: seq<Item>)
      requires Valid()
      ensures Ascending(seen) && (task.start.Some? ==> Prioritized(seen, tasks, subtasks))
      ensures v == OverlapCheck(seen, task)
      ensures StoredSchedulable(tasks, subtasks) && Schedulable(task) ==>
        v != NullEnd && (v == Overlap ==> ClashesWithStored(task, tasks, subtasks))
    {
      if task.start.None? {
        return Clear, [];
      }
      var list;
      ghost var ot, os;
      list, ot, os := GetPrioritizedTasks();
      seen := list;
      v := Screen(list, task);
      if StoredSchedulable(tasks, subtasks) && Schedulable(task) {
        HasOverlapsMeaning(list, task, tasks, epics, subtasks, counter);
      }
    }

    /** `keySet().forEach(historyManager::remove)`: one removal per id, in any order. */
    method ForgetAll(ids: set<int>)
      modifies this`history
      ensures history == WithoutIds(old(history), ids)
    {
      var rest := ids;
      ghost var done: set<int> := {};
      ghost var start := history;
      FilterAllKept(start, (x: Item) => x.id !in done);
      while rest != {}
        invariant rest !! done && rest + done == ids
        invariant history == WithoutIds(start, done)
        decreases rest
      {
        HasElement(rest);
        var k :| k in rest;
        history := WithoutId(history, k);
        WithoutIdsStep(start, done, k);
        done := done + {k};
        rest := rest - {k};
      }
    }

    // -------------------------------------------------------------------------
    // The epic refresh

    /** `updateEpicsStatus`: a stored epic gets the status aggregated from its listed subtasks. */
    method UpdateEpicsStatus(id: int)
      requires id in epics ==> epics[id].Epic?
      modifies this`epics
      ensures id !in old(epics) ==> epics == old(epics)
      ensures id in old(epics) ==>
        epics == old(epics)[id := WithStatus(old(epics)[id], AggregateStatus(old(epics)[id].subtaskIds, subtasks))]
    {
      if id !in epics {
        return;
      }
      var epic := epics[id];
      if epic.subtaskIds == [] {
        epics := epics[id := WithStatus(epic, New)];
      }
      var st := TallyStatus(epic.subtaskIds, subtasks);
      epics := epics[id := WithStatus(epic, st)];
    }

    /** `updateEpicsTime`: a stored epic gets the time window of its listed subtasks. */
    method UpdateEpicsTime(id: int)
      requires id in epics ==> epics[id].Epic? && Present(epics[id].subtaskIds, subtasks)
      modifies this`epics
      ensures id !in old(epics) ==> epics == old(epics)
      ensures id in old(epics) ==> epics == old(epics)[id := Window(old(epics)[id], subtasks)]
    {
      if id !in epics {
        return;
      }
      epics := epics[id := Window(epics[id], subtasks)];
    }

    /** Both refreshes in the order every caller runs them; only the epic changes. */
    method Refresh(id: int)
      requires Valid()
      requires id in epics ==> Present(epics[id].subtaskIds, subtasks)
      modifies this`epics
      ensures Valid()
      ensures id !in old(epics) ==> epics == old(epics)
      ensures id in old(epics) ==> epics == old(epics)[id := Refreshed(old(epics)[id], subtasks)]
    {
      ghost var T0, E0, S0, C0 := tasks, epics, subtasks, counter;
      UpdateEpicsStatus(id);
      UpdateEpicsTime(id);
      ghost var E1 := epics;
      StoresReplaced(T0, E0, S0, C0, T0, E1, S0);
    }

    // -------------------------------------------------------------------------
    // Tasks

    /** `getListOfTasks`. */
    method GetListOfTasks() returns (list: seq<Item>)
      ensures |list| == |tasks| && forall x :: x in list <==> exists k :: k in tasks && tasks[k] == x
    {
      list := ValuesOf(tasks);
    }

    /** `deleteAllTasks`: every task id leaves the history, then the store is emptied. */
    method DeleteAllTasks()
      requires Valid()
      modifies this
      ensures Valid()
      ensures tasks == map[] && epics == old(epics) && subtasks == old(subtasks) && counter == old(counter)
      ensures history == WithoutIds(old(history), old(tasks).Keys)
    {
      StoresReplaced(tasks, epics, subtasks, counter, map[], epics, subtasks);
      ForgetAll(tasks.Keys);
      tasks := map[];
    }

    /** `getTaskById`: a found task is returned and added to the capped history. */
    method GetTaskById(id: int) returns (r: Option<Item>)
      requires Valid()
      modifies this`history
      ensures Valid()
      ensures id in tasks ==> r == Some(tasks[id]) && history == Appended(old(history), tasks[id])
      ensures id !in tasks ==> r == None && history == old(history)
    {
      if id !in tasks {
        return None;
      }
      r := Some(tasks[id]);
      history := Appended(history, tasks[id]);
    }

    /**
     * `createTask`: a task that passes the overlap check over the rebuilt list gets the next
     * id and is stored; one that fails it throws before any change.
     */
    method CreateTask(t: Option<Item>) returns (r: Outcome, ghost seen: seq<Item>)
      requires Valid()
      requires t.Some? ==> t.value.Task?
      modifies this
      ensures Valid()
      ensures Ascending(seen)
      ensures t.None? ==> r == Ignored
      ensures t.Some? && t.value.start.Some? ==> Prioritized(seen, old(tasks), old(subtasks))
      ensures t.Some? ==> (r == Applied <==> OverlapCheck(seen, t.value) == Clear)
      ensures t.Some? && r != Applied ==> r == Threw(OverlapCheck(seen, t.value))
      ensures r != Applied ==> unchanged(this)
      ensures r == Applied ==>
        && counter == old(counter) + 1
        && counter !in old(tasks) && counter !in old(epics) && counter !in old(subtasks)
        && tasks == old(tasks)[counter := WithId(t.value, counter)]
        && epics == old(epics) && subtasks == old(subtasks) && history == old(history)
    {
      if t.None? {
        return Ignored, [];
      }
      var v;
      v, seen := HasOverlaps(t.value);
      if v != Clear {
        return Threw(v), seen;
      }
      var x := WithId(t.value, counter + 1);
      StoresFresh(tasks, epics, subtasks, counter, x);
      counter := counter + 1;
      tasks := tasks[x.id := x];
      r := Applied;
    }

    /** `updateTaskById`: a stored task that passes the overlap check replaces the old value. */
    method UpdateTaskById(t: Option<Item>) returns (r: Outcome, ghost seen: seq<Item>)
      requires Valid()
      requires t.Some? ==> t.value.Task?
      modifies this
      ensures Valid()
      ensures Ascending(seen)
      ensures t.None? || t.value.id !in old(tasks) ==> r == Ignored
      ensures t.Some? && t.value.id in old(tasks) && t.value.start.Some? ==> Prioritized(seen, old(tasks), old(subtasks))
      ensures t.Some? && t.value.id in old(tasks) ==> (r == Applied <==> OverlapCheck(seen, t.value) == Clear)
      ensures t.Some? && t.value.id in old(tasks) && r != Applied ==> r == Threw(OverlapCheck(seen, t.value))
      ensures r != Applied ==> unchanged(this)
      ensures r == Applied ==>
        && tasks == old(tasks)[t.value.id := t.value] && epics == old(epics) && subtasks == old(subtasks)
        && counter == old(counter) && history == old(history)
    {
      if t.None? || t.value.id !in tasks {
        return Ignored, [];
      }
      var v;
      v, seen := HasOverlaps(t.value);
      if v != Clear {
        return Threw(v), seen;
      }
      StoresReplaced(tasks, epics, subtasks, counter, tasks[t.value.id := t.value], epics, subtasks);
      tasks := tasks[t.value.id := t.value];
      r := Applied;
    }

    /** `deleteTaskById`: the id leaves the history and the task store, whatever kind of entity it names. */
    method DeleteTaskById(id: int)
      requires Valid()
      modifies this
      ensures Valid()
      ensures tasks == old(tasks) - {id} && epics == old(epics) && subtasks == old(subtasks) && counter == old(counter)
      ensures history == WithoutId(old(history), id)
    {
      StoresReplaced(tasks, epics, subtasks, counter, tasks - {id}, epics, subtasks);
      history := WithoutId(history, id);
      tasks := tasks - {id};
    }

    // -------------------------------------------------------------------------
    // Epics

    /** `getListOfEpics`. */
    method GetListOfEpics() returns (list: seq<Item>)
      ensures |list| == |epics| && forall x :: x in list <==> exists k :: k in epics && epics[k] == x
    {
      list := ValuesOf(epics);
    }

    /** `getEpicById`: a found epic is returned and added to the capped history. */
    method GetEpicById(id: int) returns (r: Option<Item>)
      requires Valid()
      modifies this`history
      ensures Valid()
      ensures id in epics ==> r == Some(epics[id]) && history == Appended(old(history), epics[id])
      ensures id !in epics ==> r == None && history == old(history)
    {
      if id !in epics {
        return None;
      }
      r := Some(epics[id]);
      history := Appended(history, epics[id]);
    }

    /**
     * `getSubtasksOfEpic`: for a stored epic, one slot per listed id in list order, empty where
     * no subtask is stored; the epic is read through `getEpicById` and so enters the history.
     */
    method GetSubtasksOfEpic(id: int) returns (r: Option<seq<Option<Item>>>)
      requires Valid()
      modifies this`history
      ensures Valid()
      ensures id !in epics ==> r == None && history == old(history)
      ensures id in epics ==> r == Some(Lookup(epics[id].subtaskIds, subtasks)) && history == Appended(old(history), epics[id])
    {
      if id !in epics {
        return None;
      }
      var epic := GetEpicById(id);
      r := Some(Lookup(epic.value.subtaskIds, subtasks));
    }

    /** `createEpic`: the epic gets the next id and is stored as given. */
    method CreateEpic(t: Option<Item>) returns (r: Outcome)
      requires Valid()
      requires t.Some? ==> t.value.Epic?
      modifies this
      ensures Valid()
      ensures t.None? ==> r == Ignored && unchanged(this)
      ensures t.Some? ==> (r == Applied
        && counter == old(counter) + 1
        && counter !in old(tasks) && counter !in old(epics) && counter !in old(subtasks)
        && epics == old(epics)[counter := WithId(t.value, counter)]
        && tasks == old(tasks) && subtasks == old(subtasks) && history == old(history))
    {
      if t.None? {
        return Ignored;
      }
      var x := WithId(t.value, counter + 1);
      StoresFresh(tasks, epics, subtasks, counter, x);
      counter := counter + 1;
      epics := epics[x.id := x];
      r := Applied;
    }

    /**
     * `updateEpicById`: a stored epic is replaced by the new value carrying the old subtask-id
     * list, whose status and window are then recomputed.
     */
    method UpdateEpicById(t: Option<Item>) returns (r: Outcome)
      requires Valid()
      requires t.Some? ==> t.value.Epic?
      requires t.Some? && t.value.id in epics ==> Present(epics[t.value.id].subtaskIds, subtasks)
      modifies this`epics
      ensures Valid()
      ensures t.None? || t.value.id !in old(epics) ==> r == Ignored && epics == old(epics)
      ensures t.Some? && t.value.id in old(epics) ==> (r == Applied
        && epics == old(epics)[t.value.id := Refreshed(t.value.(subtaskIds := old(epics)[t.value.id].subtaskIds), subtasks)])
    {
      if t.None? || t.value.id !in epics {
        return Ignored;
      }
      ghost var T0, E0, S0, C0 := tasks, epics, subtasks, counter;
      var epic := epics[t.value.id];
      var newEpic := t.value.(subtaskIds := epic.subtaskIds);
      epics := epics[newEpic.id := newEpic];
      StoresReplaced(T0, E0, S0, C0, T0, epics, S0);
      Refresh(epic.id);
      r := Applied;
    }

    /**
     * `deleteEpicById`: the id always leaves the history; a stored epic leaves its store and
     * each listed subtask leaves the subtask store. The listed subtasks stay in the history.
     */
    method DeleteEpicById(id: int)
      requires Valid()
      modifies this
      ensures Valid()
      ensures tasks == old(tasks) && counter == old(counter)
      ensures history == WithoutId(old(history), id)
      ensures id !in old(epics) ==> epics == old(epics) && subtasks == old(subtasks)
      ensures id in old(epics) ==>
        epics == old(epics) - {id} && subtasks == old(subtasks) - IdsOf(old(epics)[id].subtaskIds)
    {
      ghost var T0, E0, S0, C0 := tasks, epics, subtasks, counter;
      history := WithoutId(history, id);
      if id !in epics {
        return;
      }
      var epic := epics[id];
      DropListed(epic.subtaskIds);
      epics := epics - {id};
      StoresReplaced(T0, E0, S0, C0, T0, epics, subtasks);
    }

    /** The loop of `deleteEpicById` over the epic's list: each listed id leaves the subtask store. */
    method DropListed(ids: seq<int>)
      modifies this`subtasks
      ensures subtasks == old(subtasks) - IdsOf(ids)
    {
      ghost var S0 := subtasks;
      for i := 0 to |ids|
        invariant subtasks == S0 - IdsOf(ids[..i])
      {
        assert IdsOf(ids[..i + 1]) == IdsOf(ids[..i]) + {ids[i]} by {
          assert ids[..i + 1] == ids[..i] + [ids[i]];
        }
        subtasks := subtasks - {ids[i]};
      }
      assert ids[..|ids|] == ids;
    }

    /** `deleteAllEpics`: every epic id and then every subtask id leaves the history; both stores are emptied. */
    method DeleteAllEpics()
      requires Valid()
      modifies this
      ensures Valid()
      ensures epics == map[] && subtasks == map[] && tasks == old(tasks) && counter == old(counter)
      ensures history == WithoutIds(old(history), old(epics).Keys + old(subtasks).Keys)
    {
      StoresReplaced(tasks, epics, subtasks, counter, tasks, map[], map[]);
      WithoutIdsTwice(history, epics.Keys, subtasks.Keys);
      ForgetAll(epics.Keys);
      ForgetAll(subtasks.Keys);
      subtasks := map[];
      epics := map[];
    }

    // -------------------------------------------------------------------------
    // Subtasks

    /** `getListOfSubtasks`. */
    method GetListOfSubtasks() returns (list: seq<Item>)
      ensures |list| == |subtasks| && forall x :: x in list <==> exists k :: k in subtasks && subtasks[k] == x
    {
      list := ValuesOf(subtasks);
    }

    /**
     * `deleteAllSubtasks`: every subtask id leaves the history, the store is emptied, and every
     * epic's list is emptied and its status forced to NEW.
     */
    method DeleteAllSubtasks()
      requires Valid()
      modifies this
      ensures Valid()
      ensures subtasks == map[] && tasks == old(tasks) && counter == old(counter)
      ensures epics.Keys == old(epics).Keys && forall k :: k in epics ==> epics[k] == Cleared(old(epics)[k])
      ensures history == WithoutIds(old(history), old(subtasks).Keys)
    {
      ghost var T0, E0, S0, C0 := tasks, epics, subtasks, counter;
      ForgetAll(subtasks.Keys);
      subtasks := map[];
      epics := ClearAll(epics);
      StoresReplaced(T0, E0, S0, C0, T0, epics, map[]);
    }

    /** `getSubtaskById`: a found subtask is returned and added to the capped history. */
    method GetSubtaskById(id: int) returns (r: Option<Item>)
      requires Valid()
      modifies this`history
      ensures Valid()
      ensures id in subtasks ==> r == Some(subtasks[id]) && history == Appended(old(history), subtasks[id])
      ensures id !in subtasks ==> r == None && history == old(history)
    {
      if id !in subtasks {
        return None;
      }
      r := Some(subtasks[id]);
      history := Appended(history, subtasks[id]);
    }

    /**
     * `createSubtask`: a subtask that passes the overlap check gets the next id and is stored;
     * its epic lists it last and is refreshed. Whenever the check can pass, the epic must exist
     * (the Java code dereferences it after storing the subtask) and its listed ids must name
     * stored subtasks (the window computation dereferences them).
     */
    method CreateSubtask(t: Option<Item>) returns (r: Outcome, ghost seen: seq<Item>)
      requires Valid()
      requires t.Some? ==> t.value.Subtask?
      requires t.Some? && MayPass(t.value, tasks, subtasks) ==>
        t.value.epicId in epics && Present(epics[t.value.epicId].subtaskIds, subtasks)
      modifies this
      ensures Valid()
      ensures Ascending(seen)
      ensures t.None? ==> r == Ignored
      ensures t.Some? && t.value.start.Some? ==> Prioritized(seen, old(tasks), old(subtasks))
      ensures t.Some? ==> (r == Applied <==> OverlapCheck(seen, t.value) == Clear)
      ensures t.Some? && r != Applied ==> r == Threw(OverlapCheck(seen, t.value))
      ensures r != Applied ==> unchanged(this)
      ensures r == Applied ==> var x, e := WithId(t.value, counter), old(epics)[t.value.epicId];
        && counter == old(counter) + 1
        && counter !in old(tasks) && counter !in old(epics) && counter !in old(subtasks)
        && subtasks == old(subtasks)[counter := x] && tasks == old(tasks) && history == old(history)
        && Present(e.subtaskIds + [counter], subtasks)
        && epics == old(epics)[e.id := Refreshed(e.(subtaskIds := e.subtaskIds + [counter]), subtasks)]
    {
      if t.None? {
        return Ignored, [];
      }
      var v;
      v, seen := HasOverlaps(t.value);
      if v != Clear {
        return Threw(v), seen;
      }
      assert MayPass(t.value, tasks, subtasks);
      ghost var E0 := epics;
      var x := StoreSubtask(t.value);
      ghost var e, E1 := E0[t.value.epicId], epics;
      Refresh(t.value.epicId);
      Overwrite(E0, e.id, E1[e.id], Refreshed(E1[e.id], subtasks));
      r := Applied;
    }

    /** The steps of `createSubtask` between the overlap check and the epic refresh. */
    method StoreSubtask(t: Item) returns (x: Item)
      requires Valid()
      requires t.Subtask? && t.epicId in epics && Present(epics[t.epicId].subtaskIds, subtasks)
      modifies this
      ensures Valid()
      ensures x == WithId(t, counter) && counter == old(counter) + 1
      ensures counter !in old(tasks) && counter !in old(epics) && counter !in old(subtasks)
      ensures tasks == old(tasks) && history == old(history)
      ensures subtasks == old(subtasks)[counter := x]
      ensures var e := old(epics)[t.epicId];
        && t.epicId == e.id
        && epics == old(epics)[e.id := e.(subtaskIds := e.subtaskIds + [counter])]
        && Present(e.subtaskIds + [counter], subtasks)
    {
      ghost var T0, E0, S0, C0 := tasks, epics, subtasks, counter;
      x := WithId(t, counter + 1);
      StoresFresh(T0, E0, S0, C0, x);
      counter := counter + 1;
      subtasks := subtasks[x.id := x];
      var epic := epics[t.epicId];
      var listed := epic.(subtaskIds := epic.subtaskIds + [x.id]);
      epics := epics[epic.id := listed];
      StoresReplaced(T0, E0, subtasks, counter, T0, epics, subtasks);
      PresentAppend(epic.subtaskIds, S0, subtasks, x.id);
    }

    /**
     * `updateSubtaskById`: a stored subtask that passes the overlap check replaces the old value,
     * and the epic named by the NEW value is refreshed (it must exist, and its listed ids must
     * name stored subtasks, whenever the check can pass).
     */
    method UpdateSubtaskById(t: Option<Item>) returns (r: Outcome, ghost seen: seq<Item>)
      requires Valid()
      requires t.Some? ==> t.value.Subtask?
      requires t.Some? && t.value.id in subtasks && MayPass(t.value, tasks, subtasks) ==>
        t.value.epicId in epics && Present(epics[t.value.epicId].subtaskIds, subtasks)
      modifies this
      ensures Valid()
      ensures Ascending(seen)
      ensures t.None? || t.value.id !in old(subtasks) ==> r == Ignored
      ensures t.Some? && t.value.id in old(subtasks) && t.value.start.Some? ==> Prioritized(seen, old(tasks), old(subtasks))
      ensures t.Some? && t.value.id in old(subtasks) ==> (r == Applied <==> OverlapCheck(seen, t.value) == Clear)
      ensures t.Some? && t.value.id in old(subtasks) && r != Applied ==> r == Threw(OverlapCheck(seen, t.value))
      ensures r != Applied ==> unchanged(this)
      ensures r == Applied ==> var e := old(epics)[t.value.epicId];
        && subtasks == old(subtasks)[t.value.id := t.value] && tasks == old(tasks)
        && counter == old(counter) && history == old(history)
        && Present(e.subtaskIds, subtasks)
        && epics == old(epics)[e.id := Refreshed(e, subtasks)]
    {
      if t.None? || t.value.id !in subtasks {
        return Ignored, [];
      }
      var v;
      v, seen := HasOverlaps(t.value);
      if v != Clear {
        return Threw(v), seen;
      }
      assert MayPass(t.value, tasks, subtasks);
      ghost var T0, E0, S0, C0 := tasks, epics, subtasks, counter;
      subtasks := subtasks[t.value.id := t.value];
      StoresReplaced(T0, E0, S0, C0, T0, E0, subtasks);
      PresentGrows(epics[t.value.epicId].subtaskIds, S0, subtasks);
      Refresh(t.value.epicId);
      r := Applied;
    }

    /**
     * `deleteSubtaskById`: the id always leaves the history; a stored subtask leaves its store,
     * its first occurrence leaves its epic's list, and the epic is refreshed. The epic must
     * exist and its remaining listed ids must name stored subtasks.
     */
    method DeleteSubtaskById(id: int)
      requires Valid()
      requires id in subtasks ==>
        subtasks[id].epicId in epics && Present(RemoveFirst(epics[subtasks[id].epicId].subtaskIds, id), subtasks - {id})
      modifies this
      ensures Valid()
      ensures history == WithoutId(old(history), id)
      ensures tasks == old(tasks) && counter == old(counter)
      ensures id !in old(subtasks) ==> epics == old(epics) && subtasks == old(subtasks)
      ensures id in old(subtasks) ==> var e := old(epics)[old(subtasks)[id].epicId];
        && subtasks == old(subtasks) - {id}
        && epics == old(epics)[e.id := Refreshed(e.(subtaskIds := RemoveFirst(e.subtaskIds, id)), subtasks)]
    {
      history := WithoutId(history, id);
      if id !in subtasks {
        return;
      }
      ghost var T0, E0, S0, C0 := tasks, epics, subtasks, counter;
      var eid := subtasks[id].epicId;
      subtasks := subtasks - {id};
      var epic := epics[eid];
      epics := epics[eid := epic.(subtaskIds := RemoveFirst(epic.subtaskIds, id))];
      ghost var E1 := epics;
      StoresReplaced(T0, E0, S0, C0, T0, E1, subtasks);
      Refresh(eid);
      Overwrite(E0, eid, E1[eid], Refreshed(E1[eid], subtasks));
    }
  }
}
