/**
 * The in-memory task manager: three id-keyed stores, one id counter shared by all three,
 * the start-ordered index of timed tasks and subtasks, and the browsing history.
 *
 * The stores hold entity values. A call that the Java code ends by throwing
 * (`IllegalStateException` for an overlap, or a null end time met inside the overlap check)
 * returns `Threw` and leaves every field as it was, because the check runs before any change.
 *
 * The history is kept as the sequence of entries of the history manager, head to tail, and
 * changes by `Added` and `WithoutId`, the functions the linked-list `HistoryManager` is proved
 * to implement.
 */
module Manager {
  import opened Wrappers
  import opened Model
  import opened Seqs
  import opened Schedule
  import opened Epics
  import opened History
  import opened Invariant

  /** How a mutating call ends: it changed the state, returned early, or threw before any change. */
  datatype Outcome = Applied | Ignored | Threw(verdict: Verdict)

  /** `new ArrayList<>(m.values())`: every stored value once, in the map's iteration order. */
  method ValuesOf(m: map<int, Item>) returns (list: seq<Item>)
    ensures |list| == |m|
    ensures forall x :: x in list <==> exists k :: k in m && m[k] == x
  {
    list := [];
    var rest := m.Keys;
    ghost var seen: set<int> := {};
    while rest != {}
      invariant rest !! seen && rest + seen == m.Keys
      invariant |list| == |seen|
      invariant forall x :: x in list <==> exists k :: k in seen && m[k] == x
      decreases rest
    {
      HasElement(rest);
      var k :| k in rest;
      list := list + [m[k]];
      rest := rest - {k};
      seen := seen + {k};
    }
    assert seen == m.Keys;
  }

  /** The index after an update: the old entry of the id leaves, and the new value enters if it has a start. */
  function Reindexed(sorted: seq<Item>, x: Item): (r: seq<Item>)
    requires Ascending(sorted)
    ensures Ascending(r)
  {
    FilterKeepsAscending(sorted, (y: Item) => y.id != x.id);
    var rest := WithoutId(sorted, x.id);
    if x.start.Some? then Insert(rest, x) else rest
  }

  /** The loop of `deleteAllSubtasks` over the epics: every list is emptied and every status set to NEW. */

  method ClearAll(epics: map<int, Item>) returns (cleared: map<int, Item>)
    requires forall k :: k in epics ==> epics[k].Epic?
    ensures cleared.Keys == epics.Keys && forall k :: k in cleared ==> cleared[k] == Cleared(epics[k])
  {
    cleared := epics;
    var rest := epics.Keys;
    ghost var done: set<int> := {};
    while rest != {}
      invariant rest !! done && rest + done == epics.Keys && cleared.Keys == epics.Keys
      invariant forall k :: k in cleared ==> cleared[k] == if k in done then Cleared(epics[k]) else epics[k]
      decreases rest
    {
      HasElement(rest);
      var k :| k in rest;
      cleared := cleared[k := Cleared(epics[k])];
      done := done + {k};
      rest := rest - {k};
    }
  }


  class TaskManager {
    var history: seq<Item>
    var sorted: seq<Item>
    var counter: int
    var tasks: map<int, Item>
    var epics: map<int, Item>
    var subtasks: map<int, Item>

    ghost predicate Valid()
      reads this
    {
      && Stores(tasks, epics, subtasks, counter)
      && Indexed(sorted, tasks, subtasks)
      && Known(history, tasks, epics, subtasks)
    }

    constructor ()
      ensures Valid()
      ensures tasks == map[] && epics == map[] && subtasks == map[] && sorted == [] && counter == 0
      ensures history == []
    {
      history := [];
      sorted := [];
      counter := 0;
      tasks, epics, subtasks := map[], map[], map[];
    }

    /** `getHistory`: no id twice, and every entry still stored. */
    method GetHistory() returns (list: seq<Item>)
      requires Valid()
      ensures list == history
      ensures forall i, j :: 0 <= i < j < |list| ==> list[i].id != list[j].id
      ensures forall x :: x in list ==> x.id in tasks || x.id in epics || x.id in subtasks
    {
      list := history;
    }

    /** `getPrioritizedTasks`: the index, which ascends strictly by start and holds only stored tasks and subtasks. */
    method GetPrioritizedTasks() returns (list: seq<Item>)
      requires Valid()
      ensures list == sorted
      ensures forall i :: 0 <= i < |list| ==> list[i].start.Some? && Stored(list[i], tasks, subtasks) && !list[i].Epic?
      ensures forall i, j :: 0 <= i < j < |list| ==> list[i].start.value < list[j].start.value
    {
      list := sorted;
      assert Pairwise(list, StartsBefore);
      forall i | 0 <= i < |list| ensures list[i].start.Some? && Stored(list[i], tasks, subtasks) {
        assert HasStart(list[i]) && list[i] in sorted;
      }
    }

    /** `keySet().forEach(historyManager::remove)`: one removal per id, in any order. */
    method ForgetAll(ids: set<int>)
      modifies this`history
      ensures history == WithoutIds(old(history), ids)
    {
      var rest := ids;
      ghost var done: set<int> := {};
      ghost var start := history;
      FilterAllKept(start, (x: Item) => x.id !in done);
      while rest != {}
        invariant rest !! done && rest + done == ids
        invariant history == WithoutIds(start, done)
        decreases rest
      {
        HasElement(rest);
        var k :| k in rest;
        history := WithoutId(history, k);
        WithoutIdsStep(start, done, k);
        done := done + {k};
        rest := rest - {k};
      }
    }

    // -------------------------------------------------------------------------
    // The epic refresh (private helpers of the Java class)

    /** `updateEpicsStatus`: a stored epic gets the status aggregated from its listed subtasks. */
    method UpdateEpicsStatus(id: int)
      requires id in epics ==> epics[id].Epic?
      modifies this`epics
      ensures id !in old(epics) ==> epics == old(epics)
      ensures id in old(epics) ==>
        epics == old(epics)[id := WithStatus(old(epics)[id], AggregateStatus(old(epics)[id].subtaskIds, subtasks))]
    {
      if id !in epics {
        return;
      }
      var epic := epics[id];
      if epic.subtaskIds == [] {
        epics := epics[id := WithStatus(epic, New)];
      }
      var st := TallyStatus(epic.subtaskIds, subtasks);
      epics := epics[id := WithStatus(epic, st)];
    }

    /** `updateEpicsTime`: a stored epic gets the time window of its listed subtasks. */
    method UpdateEpicsTime(id: int)
      requires id in epics ==> epics[id].Epic? && Present(epics[id].subtaskIds, subtasks)
      modifies this`epics
      ensures id !in old(epics) ==> epics == old(epics)
      ensures id in old(epics) ==> epics == old(epics)[id := Window(old(epics)[id], subtasks)]
    {
      if id !in epics {
        return;
      }
      epics := epics[id := Window(epics[id], subtasks)];
    }

    /**
     * Both refreshes in the order every caller runs them: the epic ends as `Refreshed`. Only the
     * epic changes, so a valid manager stays valid.
     */
    method Refresh(id: int)
      requires Valid()
      requires id in epics ==> Present(epics[id].subtaskIds, subtasks)
      modifies this`epics
      ensures Valid()
      ensures id !in old(epics) ==> epics == old(epics)
      ensures id in old(epics) ==> epics == old(epics)[id := Refreshed(old(epics)[id], subtasks)]
    {
      ghost var T0, E0, S0, C0, H0 := tasks, epics, subtasks, counter, history;
      UpdateEpicsStatus(id);
      UpdateEpicsTime(id);
      ghost var E1 := epics;
      StoresReplaced(T0, E0, S0, C0, T0, E1, S0);
      KnownGrows(H0, T0, E0, S0, T0, E1, S0);
    }

    // -------------------------------------------------------------------------
    // Tasks

    /** `getListOfTasks`. */
    method GetListOfTasks() returns (list: seq<Item>)
      ensures |list| == |tasks| && forall x :: x in list <==> exists k :: k in tasks && tasks[k] == x
    {
      list := ValuesOf(tasks);
    }

    /** `deleteAllTasks`: forgets every task, and the index keeps only subtasks. */
    method DeleteAllTasks()
      requires Valid()
      modifies this
      ensures Valid()
      ensures tasks == map[] && epics == old(epics) && subtasks == old(subtasks) && counter == old(counter)
      ensures sorted == OnlySubtasks(old(sorted))
      ensures forall x :: x in sorted <==> x in old(sorted) && x.Subtask?
      ensures history == WithoutIds(old(history), old(tasks).Keys)
      ensures old(Complete(sorted, tasks, subtasks)) ==> Complete(sorted, tasks, subtasks)
    {
      TasksClearedComplete(sorted, tasks, subtasks);
      StoresReplaced(tasks, epics, subtasks, counter, map[], epics, subtasks);
      KnownWithoutIds(history, tasks.Keys, tasks, epics, subtasks, map[], epics, subtasks);
      IndexOnlySubtasks(sorted, tasks, subtasks, map[]);
      FilterMembers(sorted, (x: Item) => x.Subtask?);
      ForgetAll(tasks.Keys);
      tasks := map[];
      sorted := OnlySubtasks(sorted);
    }

    /** `getTaskById`: a found task is returned and read into the history. */
    method GetTaskById(id: int) returns (r: Option<Item>)
      requires Valid()
      modifies this`history
      ensures Valid()
      ensures id in tasks ==> r == Some(tasks[id]) && history == Added(old(history), tasks[id])
      ensures id !in tasks ==> r == None && history == old(history)
    {
      if id !in tasks {
        return None;
      }
      KnownAdded(history, tasks[id], tasks, epics, subtasks);
      r := Some(tasks[id]);
      history := Added(history, tasks[id]);
    }

    /**
     * `createTask`: a task that passes the overlap check gets the next id, is stored, and enters
     * the index when it has a start.
     */
    method CreateTask(t: Option<Item>) returns (r: Outcome)
      requires Valid()
      requires t.Some? ==> t.value.Task?
      modifies this
      ensures Valid()
      ensures t.None? ==> r == Ignored
      ensures t.Some? ==> (r == Applied <==> Validate(old(sorted), t.value) == Clear)
      ensures t.Some? && r != Applied ==> r == Threw(Validate(old(sorted), t.value))
      ensures r != Applied ==> unchanged(this)
      ensures r == Applied ==> var x := WithId(t.value, counter);
        && counter == old(counter) + 1
        && counter !in old(tasks) && counter !in old(epics) && counter !in old(subtasks)
        && tasks == old(tasks)[counter := x] && epics == old(epics) && subtasks == old(subtasks)
        && sorted == (if x.start.Some? then Insert(old(sorted), x) else old(sorted))
        && history == old(history)
      ensures old(Complete(sorted, tasks, subtasks)) && StartsDistinct(tasks, subtasks) ==> Complete(sorted, tasks, subtasks)
    {
      if t.None? {
        return Ignored;
      }
      var v := Validate(sorted, t.value);
      if v != Clear {
        return Threw(v);
      }
      var x := WithId(t.value, counter + 1);
      StoresFresh(tasks, epics, subtasks, counter, x);
      CreatedComplete(sorted, tasks, subtasks, x, tasks[x.id := x], subtasks);
      IndexGrows(sorted, tasks, subtasks, tasks[x.id := x], subtasks);
      KnownGrows(history, tasks, epics, subtasks, tasks[x.id := x], epics, subtasks);
      counter := counter + 1;
      tasks := tasks[x.id := x];
      if x.start.Some? {
        IndexInsert(sorted, tasks, subtasks, x);
        sorted := Insert(sorted, x);
      }
      r := Applied;
    }

    /**
     * `updateTaskById`: a stored task that passes the overlap check replaces the old value,
     * in the store and in the index.
     */
    method UpdateTaskById(t: Option<Item>) returns (r: Outcome)
      requires Valid()
      requires t.Some? ==> t.value.Task?
      modifies this
      ensures Valid()
      ensures t.None? || t.value.id !in old(tasks) ==> r == Ignored
      ensures t.Some? && t.value.id in old(tasks) ==> (r == Applied <==> Validate(old(sorted), t.value) == Clear)
      ensures t.Some? && t.value.id in old(tasks) && r != Applied ==> r == Threw(Validate(old(sorted), t.value))
      ensures r != Applied ==> unchanged(this)
      ensures r == Applied ==>
        && tasks == old(tasks)[t.value.id := t.value] && epics == old(epics) && subtasks == old(subtasks)
        && counter == old(counter) && history == old(history)
        && sorted == Reindexed(old(sorted), t.value)
      ensures old(Complete(sorted, tasks, subtasks)) && StartsDistinct(tasks, subtasks) ==> Complete(sorted, tasks, subtasks)
    {
      if t.None? || t.value.id !in tasks {
        return Ignored;
      }
      var v := Validate(sorted, t.value);
      if v != Clear {
        return Threw(v);
      }
      var x := t.value;
      ReplacedComplete(sorted, tasks, subtasks, x, tasks[x.id := x], subtasks);
      StoresReplaced(tasks, epics, subtasks, counter, tasks[x.id := x], epics, subtasks);
      KnownGrows(history, tasks, epics, subtasks, tasks[x.id := x], epics, subtasks);
      IndexWithoutId(sorted, tasks, subtasks, tasks[x.id := x], subtasks, x.id);
      tasks := tasks[x.id := x];
      sorted := WithoutId(sorted, x.id);
      if x.start.Some? {
        IndexInsert(sorted, tasks, subtasks, x);
        sorted := Insert(sorted, x);
      }
      r := Applied;
    }

    /**
     * `deleteTaskById`: the id leaves the history, the task store and the index, whatever kind
     * of entity it names.
     */
    method DeleteTaskById(id: int)
      requires Valid()
      modifies this
      ensures Valid()
      ensures tasks == old(tasks) - {id} && epics == old(epics) && subtasks == old(subtasks) && counter == old(counter)
      ensures sorted == WithoutId(old(sorted), id)
      ensures history == WithoutId(old(history), id)
      ensures old(Complete(sorted, tasks, subtasks)) && id !in old(subtasks) ==> Complete(sorted, tasks, subtasks)
    {
      if id !in subtasks {
        TaskDeletedComplete(sorted, tasks, subtasks, id);
      }
      StoresReplaced(tasks, epics, subtasks, counter, tasks - {id}, epics, subtasks);
      KnownWithoutId(history, id, tasks, epics, subtasks, tasks - {id}, epics, subtasks);
      IndexWithoutId(sorted, tasks, subtasks, tasks - {id}, subtasks, id);
      history := WithoutId(history, id);
      tasks := tasks - {id};
      sorted := WithoutId(sorted, id);
    }

    // -------------------------------------------------------------------------
    // Epics

    /** `getListOfEpics`. */
    method GetListOfEpics() returns (list: seq<Item>)
      ensures |list| == |epics| && forall x :: x in list <==> exists k :: k in epics && epics[k] == x
    {
      list := ValuesOf(epics);
    }

    /** `getEpicById`: a found epic is returned and read into the history. */
    method GetEpicById(id: int) returns (r: Option<Item>)
      requires Valid()
      modifies this`history
      ensures Valid()
      ensures id in epics ==> r == Some(epics[id]) && history == Added(old(history), epics[id])
      ensures id !in epics ==> r == None && history == old(history)
    {
      if id !in epics {
        return None;
      }
      KnownAdded(history, epics[id], tasks, epics, subtasks);
      r := Some(epics[id]);
      history := Added(history, epics[id]);
    }

    /**
     * `getSubtasksOfEpic`: for a stored epic, one slot per listed id in list order, empty where
     * no subtask is stored; the epic is read through `getEpicById` and so enters the history.
     */
    method GetSubtasksOfEpic(id: int) returns (r: Option<seq<Option<Item>>>)
      requires Valid()
      modifies this`history
      ensures Valid()
      ensures id !in epics ==> r == None && history == old(history)
      ensures id in epics ==> r == Some(Lookup(epics[id].subtaskIds, subtasks)) && history == Added(old(history), epics[id])
    {
      if id !in epics {
        return None;
      }
      var epic := GetEpicById(id);
      r := Some(Lookup(epic.value.subtaskIds, subtasks));
    }

    /** `createEpic`: the epic gets the next id and is stored as given. */
    method CreateEpic(t: Option<Item>) returns (r: Outcome)
      requires Valid()
      requires t.Some? ==> t.value.Epic?
      modifies this
      ensures Valid()
      ensures t.None? ==> r == Ignored && unchanged(this)
      ensures t.Some? ==> (r == Applied
        && counter == old(counter) + 1
        && counter !in old(tasks) && counter !in old(epics) && counter !in old(subtasks)
        && epics == old(epics)[counter := WithId(t.value, counter)]
        && tasks == old(tasks) && subtasks == old(subtasks) && sorted == old(sorted) && history == old(history))
    {
      if t.None? {
        return Ignored;
      }
      var x := WithId(t.value, counter + 1);
      StoresFresh(tasks, epics, subtasks, counter, x);
      KnownGrows(history, tasks, epics, subtasks, tasks, epics[x.id := x], subtasks);
      counter := counter + 1;
      epics := epics[x.id := x];
      r := Applied;
    }

    /**
     * `updateEpicById`: a stored epic is replaced by the new value carrying the old subtask-id
     * list, whose status and window are then recomputed.
     */
    method UpdateEpicById(t: Option<Item>) returns (r: Outcome)
      requires Valid()
      requires t.Some? ==> t.value.Epic?
      requires t.Some? && t.value.id in epics ==> Present(epics[t.value.id].subtaskIds, subtasks)
      modifies this`epics
      ensures Valid()
      ensures t.None? || t.value.id !in old(epics) ==> r == Ignored && epics == old(epics)
      ensures t.Some? && t.value.id in old(epics) ==> (r == Applied
        && epics == old(epics)[t.value.id := Refreshed(t.value.(subtaskIds := old(epics)[t.value.id].subtaskIds), old(subtasks))])
    {
      if t.None? || t.value.id !in epics {
        return Ignored;
      }
      ghost var T0, E0, S0, C0, H0 := tasks, epics, subtasks, counter, history;
      var epic := epics[t.value.id];
      var newEpic := t.value.(subtaskIds := epic.subtaskIds);
      epics := epics[newEpic.id := newEpic];
      Refresh(epic.id);
      ghost var E1 := epics;
      StoresReplaced(T0, E0, S0, C0, T0, E1, S0);
      KnownGrows(H0, T0, E0, S0, T0, E1, S0);
      r := Applied;
    }

    /**
     * `deleteEpicById`: the id always leaves the history; a stored epic leaves its store, each
     * listed subtask leaves the history and the subtask store, and the index drops the epic's
     * id and every listed id.
     */
    method DeleteEpicById(id: int)
      requires Valid()
      modifies this
      ensures Valid()
      ensures tasks == old(tasks) && counter == old(counter)
      ensures id !in old(epics) ==>
        && epics == old(epics) && subtasks == old(subtasks) && sorted == old(sorted)
        && history == WithoutId(old(history), id)
      ensures id in old(epics) ==> var victims := IdsOf(old(epics)[id].subtaskIds) + {id};
        && epics == old(epics) - {id}
        && subtasks == old(subtasks) - IdsOf(old(epics)[id].subtaskIds)
        && sorted == WithoutIds(old(sorted), victims)
        && history == WithoutIds(old(history), victims)
      ensures old(Complete(sorted, tasks, subtasks)) && (id in old(epics) ==> IdsOf(old(epics)[id].subtaskIds) !! old(tasks).Keys)
        ==> Complete(sorted, tasks, subtasks)
    {
      ghost var T0, E0, S0, C0, I0, H0 := tasks, epics, subtasks, counter, sorted, history;
      KnownWithoutId(H0, id, T0, E0, S0, T0, E0, S0);
      if id in epics {
        EpicDeleted(I0, T0, E0, S0, C0, H0, id, IdsOf(E0[id].subtaskIds));
      }
      history := WithoutId(history, id);
      if id !in epics {
        return;
      }
      var epic := epics[id];
      epics := epics - {id};
      ForgetListed(epic.subtaskIds);
      var victims := IdsOf(epic.subtaskIds) + {id};
      sorted := WithoutIds(sorted, victims);
      WithoutIdThenIds(H0, id, IdsOf(epic.subtaskIds));
    }

    /** The loop of `deleteEpicById` over the epic's list: each listed id leaves the history and the subtask store. */
    method ForgetListed(ids: seq<int>)
      modifies this`history, this`subtasks
      ensures history == WithoutIds(old(history), IdsOf(ids))
      ensures subtasks == old(subtasks) - IdsOf(ids)
    {
      ghost var H0, S0 := history, subtasks;
      ghost var none: set<int> := {};
      FilterAllKept(H0, (x: Item) => x.id !in none);
      assert IdsOf(ids[..0]) == none;
      for i := 0 to |ids|
        invariant history == WithoutIds(H0, IdsOf(ids[..i]))
        invariant subtasks == S0 - IdsOf(ids[..i])
      {
        WithoutIdsStep(H0, IdsOf(ids[..i]), ids[i]);
        assert IdsOf(ids[..i + 1]) == IdsOf(ids[..i]) + {ids[i]} by {
          assert ids[..i + 1] == ids[..i] + [ids[i]];
        }
        history := WithoutId(history, ids[i]);
        subtasks := subtasks - {ids[i]};
      }
      assert ids[..|ids|] == ids;
    }

    /** `deleteAllEpics`: every epic and every subtask leaves the stores and the history; the index keeps only tasks. */
    method DeleteAllEpics()
      requires Valid()
      modifies this
      ensures Valid()
      ensures epics == map[] && subtasks == map[] && tasks == old(tasks) && counter == old(counter)
      ensures sorted == WithoutSubtasks(old(sorted))
      ensures history == WithoutIds(old(history), old(epics).Keys + old(subtasks).Keys)
      ensures old(Complete(sorted, tasks, subtasks)) ==> Complete(sorted, tasks, subtasks)
    {
      SubtasksClearedComplete(sorted, tasks, subtasks);
      var ids := epics.Keys + subtasks.Keys;
      StoresReplaced(tasks, epics, subtasks, counter, tasks, map[], map[]);
      KnownWithoutIds(history, ids, tasks, epics, subtasks, tasks, map[], map[]);
      IndexWithoutSubtasks(sorted, tasks, subtasks, map[]);
      WithoutIdsTwice(history, epics.Keys, subtasks.Keys);
      ForgetAll(epics.Keys);
      ForgetAll(subtasks.Keys);
      subtasks := map[];
      epics := map[];
      sorted := WithoutSubtasks(sorted);
    }

    // -------------------------------------------------------------------------
    // Subtasks

    /** `getListOfSubtasks`. */
    method GetListOfSubtasks() returns (list: seq<Item>)
      ensures |list| == |subtasks| && forall x :: x in list <==> exists k :: k in subtasks && subtasks[k] == x
    {
      list := ValuesOf(subtasks);
    }

    /**
     * `deleteAllSubtasks`: every subtask leaves the history and its store, every epic's list is
     * emptied and its status forced to NEW, and the index keeps only tasks.
     */
    method DeleteAllSubtasks()
      requires Valid()
      modifies this
      ensures Valid()
      ensures subtasks == map[] && tasks == old(tasks) && counter == old(counter)
      ensures epics.Keys == old(epics).Keys && forall k :: k in epics ==> epics[k] == Cleared(old(epics)[k])
      ensures sorted == WithoutSubtasks(old(sorted))
      ensures history == WithoutIds(old(history), old(subtasks).Keys)
      ensures old(Complete(sorted, tasks, subtasks)) ==> Complete(sorted, tasks, subtasks)
    {
      ghost var T0, E0, S0, C0, I0, H0 := tasks, epics, subtasks, counter, sorted, history;
      SubtasksClearedComplete(I0, T0, S0);
      ForgetAll(subtasks.Keys);
      subtasks := map[];
      epics := ClearAll(epics);
      sorted := WithoutSubtasks(sorted);
      ghost var E1 := epics;
      StoresReplaced(T0, E0, S0, C0, T0, E1, map[]);
      KnownWithoutIds(H0, S0.Keys, T0, E0, S0, T0, E1, map[]);
      IndexWithoutSubtasks(I0, T0, S0, map[]);
      assert Stores(tasks, epics, subtasks, counter);
      assert Indexed(sorted, tasks, subtasks);
      assert Known(history, tasks, epics, subtasks);
    }


    /** `getSubtaskById`: a found subtask is returned and read into the history. */
    method GetSubtaskById(id: int) returns (r: Option<Item>)
      requires Valid()
      modifies this`history
      ensures Valid()
      ensures id in subtasks ==> r == Some(subtasks[id]) && history == Added(old(history), subtasks[id])
      ensures id !in subtasks ==> r == None && history == old(history)
    {
      if id !in subtasks {
        return None;
      }
      KnownAdded(history, subtasks[id], tasks, epics, subtasks);
      r := Some(subtasks[id]);
      history := Added(history, subtasks[id]);
    }

    /**
     * `createSubtask`: a subtask that passes the overlap check gets the next id and is stored;
     * its epic lists it last and is refreshed; it enters the index when it has a start.
     * The epic must exist (the Java code dereferences it after storing the subtask), and the
     * epic's listed ids must name stored subtasks (the window computation dereferences them).
     */
    method CreateSubtask(t: Option<Item>) returns (r: Outcome)
      requires Valid()
      requires t.Some? ==> t.value.Subtask?
      requires t.Some? && Validate(sorted, t.value) == Clear ==>
        t.value.epicId in epics && Present(epics[t.value.epicId].subtaskIds, subtasks)
      modifies this
      ensures Valid()
      ensures t.None? ==> r == Ignored
      ensures t.Some? ==> (r == Applied <==> Validate(old(sorted), t.value) == Clear)
      ensures t.Some? && r != Applied ==> r == Threw(Validate(old(sorted), t.value))
      ensures r != Applied ==> unchanged(this)
      ensures r == Applied ==> var x, e := WithId(t.value, counter), old(epics)[t.value.epicId];
        && counter == old(counter) + 1
        && counter !in old(tasks) && counter !in old(epics) && counter !in old(subtasks)
        && subtasks == old(subtasks)[counter := x] && tasks == old(tasks)
        && Present(e.subtaskIds + [counter], subtasks)
        && epics == old(epics)[e.id := Refreshed(e.(subtaskIds := e.subtaskIds + [counter]), subtasks)]
        && sorted == (if x.start.Some? then Insert(old(sorted), x) else old(sorted))
        && history == old(history)
      ensures old(Complete(sorted, tasks, subtasks)) && StartsDistinct(tasks, subtasks) ==> Complete(sorted, tasks, subtasks)
    {
      if t.None? {
        return Ignored;
      }
      var v := Validate(sorted, t.value);
      if v != Clear {
        return Threw(v);
      }
      ghost var E0 := epics;
      var x := StoreSubtask(t.value);
      ghost var e, E1 := E0[t.value.epicId], epics;
      Refresh(t.value.epicId);
      Overwrite(E0, e.id, E1[e.id], Refreshed(E1[e.id], subtasks));
      r := Applied;
    }

    /** The steps of `createSubtask` between the overlap check and the epic refresh. */
    method StoreSubtask(t: Item) returns (x: Item)
      requires Valid()
      requires t.Subtask? && t.epicId in epics && Present(epics[t.epicId].subtaskIds, subtasks)
      modifies this
      ensures Valid()
      ensures x == WithId(t, counter) && counter == old(counter) + 1
      ensures counter !in old(tasks) && counter !in old(epics) && counter !in old(subtasks)
      ensures tasks == old(tasks) && history == old(history)
      ensures subtasks == old(subtasks)[counter := x]
      ensures var e := old(epics)[t.epicId];
        && t.epicId == e.id
        && epics == old(epics)[e.id := e.(subtaskIds := e.subtaskIds + [counter])]
        && Present(e.subtaskIds + [counter], subtasks)
      ensures sorted == if t.start.Some? then Insert(old(sorted), x) else old(sorted)
      ensures old(Complete(sorted, tasks, subtasks)) && StartsDistinct(tasks, subtasks) ==> Complete(sorted, tasks, subtasks)
    {
      ghost var T0, E0, S0, C0, I0, H0 := tasks, epics, subtasks, counter, sorted, history;
      x := WithId(t, counter + 1);
      StoresFresh(T0, E0, S0, C0, x);
      CreatedComplete(I0, T0, S0, x, T0, S0[x.id := x]);
      counter := counter + 1;
      subtasks := subtasks[x.id := x];
      var epic := epics[t.epicId];
      var listed := epic.(subtaskIds := epic.subtaskIds + [x.id]);
      epics := epics[epic.id := listed];
      if x.start.Some? {
        sorted := Insert(sorted, x);
      }
      SubtaskAdded(T0, E0, S0, C0, I0, H0, x, epic.id, listed, sorted);
      PresentAppend(epic.subtaskIds, S0, subtasks, x.id);
      assert Stores(tasks, epics, subtasks, counter);
      assert Indexed(sorted, tasks, subtasks);
      assert Known(history, tasks, epics, subtasks);
    }

    /**
     * `updateSubtaskById`: a stored subtask that passes the overlap check replaces the old value;
     * the epic named by the NEW value is refreshed (it must exist, and its listed ids must name
     * stored subtasks); the index is updated as for tasks.
     */
    method UpdateSubtaskById(t: Option<Item>) returns (r: Outcome)
      requires Valid()
      requires t.Some? ==> t.value.Subtask?
      requires t.Some? && t.value.id in subtasks && Validate(sorted, t.value) == Clear ==>
        t.value.epicId in epics && Present(epics[t.value.epicId].subtaskIds, subtasks)
      modifies this
      ensures Valid()
      ensures t.None? || t.value.id !in old(subtasks) ==> r == Ignored
      ensures t.Some? && t.value.id in old(subtasks) ==> (r == Applied <==> Validate(old(sorted), t.value) == Clear)
      ensures t.Some? && t.value.id in old(subtasks) && r != Applied ==> r == Threw(Validate(old(sorted), t.value))
      ensures r != Applied ==> unchanged(this)
      ensures r == Applied ==> var e := old(epics)[t.value.epicId];
        && subtasks == old(subtasks)[t.value.id := t.value] && tasks == old(tasks)
        && counter == old(counter) && history == old(history)
        && Present(e.subtaskIds, subtasks)
        && epics == old(epics)[e.id := Refreshed(e, subtasks)]
        && sorted == Reindexed(old(sorted), t.value)
      ensures old(Complete(sorted, tasks, subtasks)) && StartsDistinct(tasks, subtasks) ==> Complete(sorted, tasks, subtasks)
    {
      if t.None? || t.value.id !in subtasks {
        return Ignored;
      }
      var v := Validate(sorted, t.value);
      if v != Clear {
        return Threw(v);
      }
      ghost var S0 := subtasks;
      ReplaceSubtask(t.value);
      PresentGrows(epics[t.value.epicId].subtaskIds, S0, subtasks);
      Refresh(t.value.epicId);
      r := Applied;
    }

    /**
     * The store and index steps of `updateSubtaskById`. The Java method refreshes the epic
     * between the two; the refresh reads and writes only the epic store, so running it after
     * both ends in the same state.
     */
    method ReplaceSubtask(x: Item)
      requires Valid()
      requires x.Subtask? && x.id in subtasks
      modifies this`subtasks, this`sorted
      ensures Valid()
      ensures subtasks == old(subtasks)[x.id := x]
      ensures sorted == Reindexed(old(sorted), x)
      ensures old(Complete(sorted, tasks, subtasks)) && StartsDistinct(tasks, subtasks) ==> Complete(sorted, tasks, subtasks)
    {
      ghost var T0, E0, S0, C0, I0, H0 := tasks, epics, subtasks, counter, sorted, history;
      ReplacedComplete(I0, T0, S0, x, T0, S0[x.id := x]);
      subtasks := subtasks[x.id := x];
      ghost var S1 := subtasks;
      StoresReplaced(T0, E0, S0, C0, T0, E0, S1);
      KnownGrows(H0, T0, E0, S0, T0, E0, S1);
      IndexWithoutId(I0, T0, S0, T0, S1, x.id);
      sorted := WithoutId(sorted, x.id);
      if x.start.Some? {
        IndexInsert(sorted, T0, S1, x);
        sorted := Insert(sorted, x);
      }
      assert Stores(tasks, epics, subtasks, counter);
      assert Indexed(sorted, tasks, subtasks);
      assert Known(history, tasks, epics, subtasks);
    }

    /**
     * `deleteSubtaskById`: the id always leaves the history; a stored subtask leaves its store,
     * its first occurrence leaves its epic's list, the epic is refreshed, and the index drops
     * the id. The epic must exist and its remaining listed ids must name stored subtasks.
     */
    method DeleteSubtaskById(id: int)
      requires Valid()
      requires id in subtasks ==>
        subtasks[id].epicId in epics && Present(RemoveFirst(epics[subtasks[id].epicId].subtaskIds, id), subtasks - {id})
      modifies this
      ensures Valid()
      ensures history == WithoutId(old(history), id)
      ensures tasks == old(tasks) && counter == old(counter)
      ensures id !in old(subtasks) ==> epics == old(epics) && subtasks == old(subtasks) && sorted == old(sorted)
      ensures id in old(subtasks) ==> var e := old(epics)[old(subtasks)[id].epicId];
        && subtasks == old(subtasks) - {id}
        && epics == old(epics)[e.id := Refreshed(e.(subtaskIds := RemoveFirst(e.subtaskIds, id)), subtasks)]
        && sorted == WithoutId(old(sorted), id)
      ensures old(Complete(sorted, tasks, subtasks)) ==> Complete(sorted, tasks, subtasks)
    {
      if id !in subtasks {
        ghost var T0, E0, S0, H0 := tasks, epics, subtasks, history;
        KnownWithoutId(H0, id, T0, E0, S0, T0, E0, S0);
        history := WithoutId(history, id);
        return;
      }
      ghost var E0 := epics;
      var eid := DropSubtask(id);
      ghost var E1 := epics;
      Refresh(eid);
      Overwrite(E0, eid, E1[eid], Refreshed(E1[eid], subtasks));
    }

    /** The steps of `deleteSubtaskById` before the epic refresh, for a stored subtask. */
    method DropSubtask(id: int) returns (eid: int)
      requires Valid()
      requires id in subtasks && subtasks[id].epicId in epics
      modifies this
      ensures Valid()
      ensures eid == old(subtasks)[id].epicId && eid in old(epics)
      ensures history == WithoutId(old(history), id)
      ensures tasks == old(tasks) && counter == old(counter)
      ensures subtasks == old(subtasks) - {id}
      ensures var e := old(epics)[eid];
        epics == old(epics)[eid := e.(subtaskIds := RemoveFirst(e.subtaskIds, id))]
      ensures sorted == WithoutId(old(sorted), id)
      ensures old(Complete(sorted, tasks, subtasks)) ==> Complete(sorted, tasks, subtasks)
    {
      SubtaskDeletedComplete(sorted, tasks, subtasks, id);
      eid := subtasks[id].epicId;
      var epic := epics[eid];
      ghost var E1, S1 := epics[eid := epic.(subtaskIds := RemoveFirst(epic.subtaskIds, id))], subtasks - {id};
      StoresReplaced(tasks, epics, subtasks, counter, tasks, E1, S1);
      KnownWithoutId(history, id, tasks, epics, subtasks, tasks, E1, S1);
      IndexWithoutId(sorted, tasks, subtasks, tasks, S1, id);
      history := WithoutId(history, id);
      subtasks := subtasks - {id};
      epics := epics[eid := epic.(subtaskIds := RemoveFirst(epic.subtaskIds, id))];
      sorted := WithoutId(sorted, id);
    }
  }
}
