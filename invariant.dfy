/**
 * The invariant of the task manager, stated over the values of its fields, and how each kind
 * of change to those values keeps it.
 */
module Invariant {
  import opened Wrappers
  import opened Model
  import opened Seqs
  import opened Schedule
  import opened History

  /** Each value is filed under its own id, which is positive and not above the counter. */
  ghost predicate Filed(m: map<int, Item>, counter: int) {
    forall k :: k in m ==> m[k].id == k && 0 < k <= counter
  }

  /** Each store holds its own kind, under its own id; no id is in two stores. */
  ghost predicate Stores(tasks: map<int, Item>, epics: map<int, Item>, subtasks: map<int, Item>, counter: int) {
    && 0 <= counter
    && Filed(tasks, counter) && Filed(epics, counter) && Filed(subtasks, counter)
    && (forall k :: k in tasks ==> tasks[k].Task?)
    && (forall k :: k in epics ==> epics[k].Epic?)
    && (forall k :: k in subtasks ==> subtasks[k].Subtask?)
    && tasks.Keys !! epics.Keys && tasks.Keys !! subtasks.Keys && epics.Keys !! subtasks.Keys
  }

  /** `x` is the stored value of a task or a subtask. */
  ghost predicate Stored(x: Item, tasks: map<int, Item>, subtasks: map<int, Item>) {
    (x.Task? && x.id in tasks && tasks[x.id] == x) || (x.Subtask? && x.id in subtasks && subtasks[x.id] == x)
  }

  /** The index ascends strictly by start and holds only stored tasks and subtasks. */
  ghost predicate Indexed(sorted: seq<Item>, tasks: map<int, Item>, subtasks: map<int, Item>) {
    Ascending(sorted) && forall x :: x in sorted ==> Stored(x, tasks, subtasks)
  }

  /** Every stored task and subtask with a start is in the index: the converse of `Indexed`. */
  ghost predicate Complete(sorted: seq<Item>, tasks: map<int, Item>, subtasks: map<int, Item>) {
    forall x :: Stored(x, tasks, subtasks) && x.start.Some? ==> x in sorted
  }

  /** No two stored tasks or subtasks start at the same time. */
  ghost predicate StartsDistinct(tasks: map<int, Item>, subtasks: map<int, Item>) {
    forall x, y :: Stored(x, tasks, subtasks) && Stored(y, tasks, subtasks) && x.start.Some? && x.start == y.start ==> x == y
  }

  /** The history holds each id at most once, and every entity in it is still stored under its id. */
  ghost predicate Known(h: seq<Item>, tasks: map<int, Item>, epics: map<int, Item>, subtasks: map<int, Item>) {
    UniqueIds(h) && forall x :: x in h ==> x.id in tasks || x.id in epics || x.id in subtasks
  }

  /** Stores that lose entries, or have entries replaced by values of the same kind and id, stay valid. */
  lemma StoresReplaced(tasks: map<int, Item>, epics: map<int, Item>, subtasks: map<int, Item>, counter: int,
                       tasks': map<int, Item>, epics': map<int, Item>, subtasks': map<int, Item>)
    requires Stores(tasks, epics, subtasks, counter)
    requires tasks'.Keys <= tasks.Keys && epics'.Keys <= epics.Keys && subtasks'.Keys <= subtasks.Keys
    requires forall k :: k in tasks' ==> tasks'[k].Task? && tasks'[k].id == k
    requires forall k :: k in epics' ==> epics'[k].Epic? && epics'[k].id == k
    requires forall k :: k in subtasks' ==> subtasks'[k].Subtask? && subtasks'[k].id == k
    ensures Stores(tasks', epics', subtasks', counter)
  {
  }

  /** Filing a value under the next id keeps the stores valid and the id unused before. */
  lemma StoresFresh(tasks: map<int, Item>, epics: map<int, Item>, subtasks: map<int, Item>, counter: int, x: Item)
    requires Stores(tasks, epics, subtasks, counter) && x.id == counter + 1
    ensures x.id !in tasks && x.id !in epics && x.id !in subtasks
    ensures x.Task? ==> Stores(tasks[x.id := x], epics, subtasks, counter + 1)
    ensures x.Epic? ==> Stores(tasks, epics[x.id := x], subtasks, counter + 1)
    ensures x.Subtask? ==> Stores(tasks, epics, subtasks[x.id := x], counter + 1)
  {
  }

  /** Stores that only gain entries keep every index entry stored. */
  lemma IndexGrows(sorted: seq<Item>, tasks: map<int, Item>, subtasks: map<int, Item>,
                   tasks': map<int, Item>, subtasks': map<int, Item>)
    requires Indexed(sorted, tasks, subtasks)
    requires forall k :: k in tasks ==> k in tasks' && tasks'[k] == tasks[k]
    requires forall k :: k in subtasks ==> k in subtasks' && subtasks'[k] == subtasks[k]
    ensures Indexed(sorted, tasks', subtasks')
  {
  }

  /** Adding a stored, timed entry keeps the index valid. */
  lemma IndexInsert(sorted: seq<Item>, tasks: map<int, Item>, subtasks: map<int, Item>, x: Item)
    requires Indexed(sorted, tasks, subtasks) && x.start.Some? && Stored(x, tasks, subtasks)
    ensures Indexed(Insert(sorted, x), tasks, subtasks)
  {
  }

  /** Dropping one id from the index tolerates any change to the stores at that id. */
  lemma IndexWithoutId(sorted: seq<Item>, tasks: map<int, Item>, subtasks: map<int, Item>,
                       tasks': map<int, Item>, subtasks': map<int, Item>, id: int)
    requires Indexed(sorted, tasks, subtasks)
    requires forall k :: k in tasks && k != id ==> k in tasks' && tasks'[k] == tasks[k]
    requires forall k :: k in subtasks && k != id ==> k in subtasks' && subtasks'[k] == subtasks[k]
    ensures Indexed(WithoutId(sorted, id), tasks', subtasks')
  {
    FilterKeepsAscending(sorted, (x: Item) => x.id != id);
    FilterMembers(sorted, (x: Item) => x.id != id);
  }

  /** Dropping a set of ids from the index tolerates any change to the stores at those ids. */
  lemma IndexWithoutIds(sorted: seq<Item>, tasks: map<int, Item>, subtasks: map<int, Item>,
                        tasks': map<int, Item>, subtasks': map<int, Item>, ids: set<int>)
    requires Indexed(sorted, tasks, subtasks)
    requires forall k :: k in tasks && k !in ids ==> k in tasks' && tasks'[k] == tasks[k]
    requires forall k :: k in subtasks && k !in ids ==> k in subtasks' && subtasks'[k] == subtasks[k]
    ensures Indexed(WithoutIds(sorted, ids), tasks', subtasks')
  {
    FilterKeepsAscending(sorted, (x: Item) => x.id !in ids);
    FilterMembers(sorted, (x: Item) => x.id !in ids);
  }

  /** Keeping only subtasks in the index frees the task store. */
  lemma IndexOnlySubtasks(sorted: seq<Item>, tasks: map<int, Item>, subtasks: map<int, Item>, tasks': map<int, Item>)
    requires Indexed(sorted, tasks, subtasks)
    ensures Indexed(OnlySubtasks(sorted), tasks', subtasks)
  {
    FilterKeepsAscending(sorted, (x: Item) => x.Subtask?);
    FilterMembers(sorted, (x: Item) => x.Subtask?);
  }

  /** Dropping every subtask from the index frees the subtask store. */
  lemma IndexWithoutSubtasks(sorted: seq<Item>, tasks: map<int, Item>, subtasks: map<int, Item>, subtasks': map<int, Item>)
    requires Indexed(sorted, tasks, subtasks)
    ensures Indexed(WithoutSubtasks(sorted), tasks, subtasks')
  {
    FilterKeepsAscending(sorted, (x: Item) => !x.Subtask?);
    FilterMembers(sorted, (x: Item) => !x.Subtask?);
  }

  /** Stores that keep every id keep the history known. */
  lemma KnownGrows(h: seq<Item>, tasks: map<int, Item>, epics: map<int, Item>, subtasks: map<int, Item>,
                   tasks': map<int, Item>, epics': map<int, Item>, subtasks': map<int, Item>)
    requires Known(h, tasks, epics, subtasks)
    requires tasks.Keys <= tasks'.Keys && epics.Keys <= epics'.Keys && subtasks.Keys <= subtasks'.Keys
    ensures Known(h, tasks', epics', subtasks')
  {
  }

  /** Forgetting a set of ids in the history lets the stores drop those ids. */
  lemma KnownWithoutIds(h: seq<Item>, ids: set<int>, tasks: map<int, Item>, epics: map<int, Item>, subtasks: map<int, Item>,
                        tasks': map<int, Item>, epics': map<int, Item>, subtasks': map<int, Item>)
    requires Known(h, tasks, epics, subtasks)
    requires forall k :: k !in ids && (k in tasks || k in epics || k in subtasks) ==> k in tasks' || k in epics' || k in subtasks'
    ensures Known(WithoutIds(h, ids), tasks', epics', subtasks')
  {
    FilterMembers(h, (x: Item) => x.id !in ids);
    WithoutIdsUnique(h, ids);
  }

  /** Forgetting one id in the history lets the stores drop that id. */
  lemma KnownWithoutId(h: seq<Item>, id: int, tasks: map<int, Item>, epics: map<int, Item>, subtasks: map<int, Item>,
                       tasks': map<int, Item>, epics': map<int, Item>, subtasks': map<int, Item>)
    requires Known(h, tasks, epics, subtasks)
    requires forall k :: k != id && (k in tasks || k in epics || k in subtasks) ==> k in tasks' || k in epics' || k in subtasks'
    ensures Known(WithoutId(h, id), tasks', epics', subtasks')
  {
    FilterMembers(h, (x: Item) => x.id != id);
    WithoutIdFacts(h, id);
  }

  /** Reading a stored entity keeps the history known. */
  lemma KnownAdded(h: seq<Item>, t: Item, tasks: map<int, Item>, epics: map<int, Item>, subtasks: map<int, Item>)
    requires Known(h, tasks, epics, subtasks) && (t.id in tasks || t.id in epics || t.id in subtasks)
    ensures Known(Added(h, t), tasks, epics, subtasks)
  {
    AddedFacts(h, t);
    FilterMembers(h, (x: Item) => x.id != t.id);
  }

  /** Forgetting a set of ids keeps the ids of the history unique. */
  lemma WithoutIdsUnique(h: seq<Item>, ids: set<int>)
    requires UniqueIds(h)
    ensures UniqueIds(WithoutIds(h, ids))
  {
    var distinct := (a: Item, b: Item) => a.id != b.id;
    assert Pairwise(h, distinct);
    FilterPairwise(h, (x: Item) => x.id !in ids, distinct);
    var r := WithoutIds(h, ids);
    assert Pairwise(r, distinct);
    forall i, j | 0 <= i < j < |r| ensures r[i].id != r[j].id {
      assert distinct(r[i], r[j]);
    }
  }

  /** A fresh subtask stored, its epic's entry replaced, and the index grown: the stores stay valid. */
  lemma SubtaskAdded(tasks: map<int, Item>, epics: map<int, Item>, subtasks: map<int, Item>, counter: int,
                     sorted: seq<Item>, h: seq<Item>, x: Item, eid: int, epic: Item, sorted': seq<Item>)
    requires Stores(tasks, epics, subtasks, counter) && Indexed(sorted, tasks, subtasks) && Known(h, tasks, epics, subtasks)
    requires x.Subtask? && x.id == counter + 1
    requires eid in epics && epic.Epic? && epic.id == eid
    requires sorted' == if x.start.Some? then Insert(sorted, x) else sorted
    ensures Stores(tasks, epics[eid := epic], subtasks[x.id := x], counter + 1)
    ensures Indexed(sorted', tasks, subtasks[x.id := x])
    ensures Known(h, tasks, epics[eid := epic], subtasks[x.id := x])
  {
    StoresFresh(tasks, epics, subtasks, counter, x);
    var subtasks' := subtasks[x.id := x];
    StoresReplaced(tasks, epics, subtasks', counter + 1, tasks, epics[eid := epic], subtasks');
    KnownGrows(h, tasks, epics, subtasks, tasks, epics[eid := epic], subtasks');
    IndexGrows(sorted, tasks, subtasks, tasks, subtasks');
    if x.start.Some? {
      IndexInsert(sorted, tasks, subtasks', x);
    }
  }

  // ---------------------------------------------------------------------------
  // Completeness of the index

  /**
   * Entering a stored `x` into an index `s` that holds every other stored timed entry, and only
   * stored entries of other ids, gives a complete index when no two stored entries share a start:
   * `add` then never meets a start already taken.
   */
  lemma EnterComplete(s: seq<Item>, tasks: map<int, Item>, subtasks: map<int, Item>, x: Item)
    requires Ascending(s) && Stored(x, tasks, subtasks) && tasks.Keys !! subtasks.Keys
    requires forall y :: y in s ==> Stored(y, tasks, subtasks) && y.id != x.id
    requires forall y :: Stored(y, tasks, subtasks) && y.start.Some? && y.id != x.id ==> y in s
    requires StartsDistinct(tasks, subtasks)
    ensures Complete(Enter(s, x), tasks, subtasks)
  {
    if x.start.Some? {
      forall i | 0 <= i < |s| ensures s[i].start != x.start {
        assert s[i] in s;
      }
    }
  }

  /** An index that loses the entries `keep` rejects stays complete when no stored timed entry is among them. */
  lemma FilterComplete(sorted: seq<Item>, tasks: map<int, Item>, subtasks: map<int, Item>,
                       tasks': map<int, Item>, subtasks': map<int, Item>, keep: Item -> bool)
    requires Complete(sorted, tasks, subtasks)
    requires forall y :: Stored(y, tasks', subtasks') && y.start.Some? ==> Stored(y, tasks, subtasks) && keep(y)
    ensures Complete(Filter(sorted, keep), tasks', subtasks')
  {
    FilterMembers(sorted, keep);
  }

  /**
   * `createTask` / `createSubtask`: a new entity filed under an unused id and entered into a
   * sound, complete index leaves it complete, provided no two stored entries then share a start.
   */
  lemma CreatedComplete(sorted: seq<Item>, tasks: map<int, Item>, subtasks: map<int, Item>, x: Item,
                        tasks': map<int, Item>, subtasks': map<int, Item>)
    requires Indexed(sorted, tasks, subtasks) && tasks.Keys !! subtasks.Keys
    requires x.id !in tasks && x.id !in subtasks
    requires x.Task? ==> tasks' == tasks[x.id := x] && subtasks' == subtasks
    requires x.Subtask? ==> tasks' == tasks && subtasks' == subtasks[x.id := x]
    requires x.Task? || x.Subtask?
    ensures Complete(sorted, tasks, subtasks) && StartsDistinct(tasks', subtasks') ==> Complete(Enter(sorted, x), tasks', subtasks')
  {
    if Complete(sorted, tasks, subtasks) && StartsDistinct(tasks', subtasks') {
      forall y | y in sorted ensures Stored(y, tasks', subtasks') && y.id != x.id {
        assert Stored(y, tasks, subtasks);
      }
      forall y | Stored(y, tasks', subtasks') && y.start.Some? && y.id != x.id ensures y in sorted {
        assert Stored(y, tasks, subtasks);
      }
      EnterComplete(sorted, tasks', subtasks', x);
    }
  }

  /**
   * `updateTaskById` / `updateSubtaskById`: replacing a stored entity and its index entry leaves
   * a sound, complete index complete, provided no two stored entries then share a start.
   */
  lemma ReplacedComplete(sorted: seq<Item>, tasks: map<int, Item>, subtasks: map<int, Item>, x: Item,
                         tasks': map<int, Item>, subtasks': map<int, Item>)
    requires Indexed(sorted, tasks, subtasks) && tasks.Keys !! subtasks.Keys
    requires x.Task? ==> x.id in tasks && tasks' == tasks[x.id := x] && subtasks' == subtasks
    requires x.Subtask? ==> x.id in subtasks && tasks' == tasks && subtasks' == subtasks[x.id := x]
    requires x.Task? || x.Subtask?
    ensures Ascending(WithoutId(sorted, x.id))
    ensures Complete(sorted, tasks, subtasks) && StartsDistinct(tasks', subtasks') ==>
      Complete(Enter(WithoutId(sorted, x.id), x), tasks', subtasks')
  {
    FilterKeepsAscending(sorted, (y: Item) => y.id != x.id);
    if Complete(sorted, tasks, subtasks) && StartsDistinct(tasks', subtasks') {
      var rest := WithoutId(sorted, x.id);
      FilterMembers(sorted, (y: Item) => y.id != x.id);
      forall y | y in rest ensures Stored(y, tasks', subtasks') && y.id != x.id {
        assert Stored(y, tasks, subtasks);
      }
      forall y | Stored(y, tasks', subtasks') && y.start.Some? && y.id != x.id ensures y in rest {
        assert Stored(y, tasks, subtasks);
      }
      EnterComplete(rest, tasks', subtasks', x);
    }
  }

  /** `deleteTaskById` of an id that names no stored subtask keeps a complete index complete. */
  lemma TaskDeletedComplete(sorted: seq<Item>, tasks: map<int, Item>, subtasks: map<int, Item>, id: int)
    requires id !in subtasks
    ensures Complete(sorted, tasks, subtasks) ==> Complete(WithoutId(sorted, id), tasks - {id}, subtasks)
  {
    if Complete(sorted, tasks, subtasks) {
      FilterComplete(sorted, tasks, subtasks, tasks - {id}, subtasks, (y: Item) => y.id != id);
    }
  }

  /** `deleteSubtaskById` of a stored subtask keeps a complete index complete. */
  lemma SubtaskDeletedComplete(sorted: seq<Item>, tasks: map<int, Item>, subtasks: map<int, Item>, id: int)
    requires id in subtasks && tasks.Keys !! subtasks.Keys
    ensures Complete(sorted, tasks, subtasks) ==> Complete(WithoutId(sorted, id), tasks, subtasks - {id})
  {
    if Complete(sorted, tasks, subtasks) {
      FilterComplete(sorted, tasks, subtasks, tasks, subtasks - {id}, (y: Item) => y.id != id);
    }
  }

  /**
   * `deleteEpicById` of a stored epic keeps a complete index complete, provided none of its
   * listed ids names a stored task.
   */
  lemma EpicDeletedComplete(sorted: seq<Item>, tasks: map<int, Item>, epics: map<int, Item>, subtasks: map<int, Item>,
                            counter: int, id: int, listed: set<int>)
    requires Stores(tasks, epics, subtasks, counter) && id in epics && listed !! tasks.Keys
    ensures Complete(sorted, tasks, subtasks) ==> Complete(WithoutIds(sorted, listed + {id}), tasks, subtasks - listed)
  {
    if Complete(sorted, tasks, subtasks) {
      FilterComplete(sorted, tasks, subtasks, tasks, subtasks - listed, (y: Item) => y.id !in listed + {id});
    }
  }

  /**
   * `deleteEpicById` of a stored epic: dropping the epic, the ids it lists and the index and
   * history entries of all of them keeps the invariant, and keeps a complete index complete when
   * no listed id names a stored task.
   */
  lemma EpicDeleted(sorted: seq<Item>, tasks: map<int, Item>, epics: map<int, Item>, subtasks: map<int, Item>,
                    counter: int, h: seq<Item>, id: int, listed: set<int>)
    requires Stores(tasks, epics, subtasks, counter) && Indexed(sorted, tasks, subtasks)
    requires Known(h, tasks, epics, subtasks) && id in epics
    ensures Stores(tasks, epics - {id}, subtasks - listed, counter)
    ensures Indexed(WithoutIds(sorted, listed + {id}), tasks, subtasks - listed)
    ensures Known(WithoutIds(h, listed + {id}), tasks, epics - {id}, subtasks - listed)
    ensures Complete(sorted, tasks, subtasks) && listed !! tasks.Keys
      ==> Complete(WithoutIds(sorted, listed + {id}), tasks, subtasks - listed)
  {
    StoresReplaced(tasks, epics, subtasks, counter, tasks, epics - {id}, subtasks - listed);
    IndexWithoutIds(sorted, tasks, subtasks, tasks, subtasks - listed, listed + {id});
    KnownWithoutIds(h, listed + {id}, tasks, epics, subtasks, tasks, epics - {id}, subtasks - listed);
    if listed !! tasks.Keys {
      EpicDeletedComplete(sorted, tasks, epics, subtasks, counter, id, listed);
    }
  }

  /** `deleteAllTasks` keeps a complete index complete. */
  lemma TasksClearedComplete(sorted: seq<Item>, tasks: map<int, Item>, subtasks: map<int, Item>)
    ensures Complete(sorted, tasks, subtasks) ==> Complete(OnlySubtasks(sorted), map[], subtasks)
  {
    if Complete(sorted, tasks, subtasks) {
      FilterComplete(sorted, tasks, subtasks, map[], subtasks, (y: Item) => y.Subtask?);
    }
  }

  /** `deleteAllEpics` and `deleteAllSubtasks` keep a complete index complete. */
  lemma SubtasksClearedComplete(sorted: seq<Item>, tasks: map<int, Item>, subtasks: map<int, Item>)
    requires forall k :: k in tasks ==> tasks[k].Task?
    ensures Complete(sorted, tasks, subtasks) ==> Complete(WithoutSubtasks(sorted), tasks, map[])
  {
    if Complete(sorted, tasks, subtasks) {
      FilterComplete(sorted, tasks, subtasks, tasks, map[], (y: Item) => !y.Subtask?);
    }
  }

  /**
   * Why `StartsDistinct` is needed: two zero-length tasks at the same minute pass the overlap
   * check, but the index is ordered by start alone and keeps only the first, so the second is
   * stored with a start and missing from the index.
   */
  lemma TieLeavesOut(t: int)
    ensures var a, b := Task(1, "", "", New, Some(t), Some(0)), Task(2, "", "", New, Some(t), Some(0));
      && Ascending([a])
      && Complete([a], map[1 := a], map[])
      && Validate([a], b) == Clear
      && Insert([a], b) == [a]
      && !Complete(Insert([a], b), map[1 := a, 2 := b], map[])
  {
    var a, b := Task(1, "", "", New, Some(t), Some(0)), Task(2, "", "", New, Some(t), Some(0));
    assert Pairwise([a], StartsBefore);
    assert Stored(b, map[1 := a, 2 := b], map[]) && b !in [a];
  }

  /**
   * Why `deleteTaskById` needs an id that names no subtask: it drops every index entry with the
   * id, so a timed subtask passed by its id leaves the index and stays stored.
   */
  lemma TaskDeleteDropsSubtask(t: int)
    ensures var x := Subtask(1, "", "", New, Some(t), Some(30), 2);
      && Complete([x], map[], map[1 := x])
      && WithoutId([x], 1) == []
      && !Complete(WithoutId([x], 1), map[] - {1}, map[1 := x])
  {
    var x := Subtask(1, "", "", New, Some(t), Some(30), 2);
    FilterMembers([x], (y: Item) => y.id != 1);
    assert Stored(x, map[], map[1 := x]);
  }
}
