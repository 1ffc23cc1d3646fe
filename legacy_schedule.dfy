/**
 * The prioritized list of the earlier manager (`src/InMemoryTaskManager.java`), which keeps no
 * index: each call builds a fresh `TreeSet` ordered only by start time, adds every stored task
 * with a start and then every stored subtask with a start, in the maps' iteration order, and
 * the overlap check runs over that list. A value whose start is already present is not added.
 */
module LegacySchedule {
  import opened Wrappers
  import opened Model
  import opened Seqs
  import opened Schedule
  import opened Invariant

  /** The set after adding the values of `m` in key order `order`, those with a start only. */
  function Collected(s: seq<Item>, order: seq<int>, m: map<int, Item>): (r: seq<Item>)
    requires Ascending(s)
    requires forall i :: 0 <= i < |order| ==> order[i] in m
    ensures Ascending(r)
  {
    if order == [] then s
    else Enter(Collected(s, order[..|order| - 1], m), m[order[|order| - 1]])
  }

  /** The list `getPrioritizedTasks` returns for given iteration orders of the two maps. */
  function PrioritizedList(ot: seq<int>, os: seq<int>, tasks: map<int, Item>, subtasks: map<int, Item>): (r: seq<Item>)
    requires forall i :: 0 <= i < |ot| ==> ot[i] in tasks
    requires forall i :: 0 <= i < |os| ==> os[i] in subtasks
    ensures Ascending(r)
  {
    Collected(Collected([], ot, tasks), os, subtasks)
  }

  /** `list` is what `getPrioritizedTasks` may return: the maps' iteration orders are not fixed. */
  ghost predicate Prioritized(list: seq<Item>, tasks: map<int, Item>, subtasks: map<int, Item>) {
    exists ot: seq<int>, os: seq<int> ::
      Enumerates(ot, tasks) && Enumerates(os, subtasks) && list == PrioritizedList(ot, os, tasks, subtasks)
  }

  /** `m.values().stream().filter(x -> x.getStartTime() != null).forEach(sortedTasks::add)`. */
  method AddTimed(sorted: seq<Item>, m: map<int, Item>) returns (r: seq<Item>, ghost order: seq<int>)
    requires Ascending(sorted)
    ensures Enumerates(order, m) && r == Collected(sorted, order, m)
  {
    r, order := sorted, [];
    var rest := m.Keys;
    while rest != {}
      invariant rest <= m.Keys
      invariant forall k :: k in m <==> k in order || k in rest
      invariant forall i :: 0 <= i < |order| ==> order[i] in m
      invariant forall k :: k in order ==> k !in rest
      invariant forall i, j :: 0 <= i < j < |order| ==> order[i] != order[j]
      invariant |order| + |rest| == |m.Keys|
      invariant r == Collected(sorted, order, m)
      decreases rest
    {
      HasElement(rest);
      var id :| id in rest;
      assert (order + [id])[..|order|] == order;
      if m[id].start.Some? {
        r := Insert(r, m[id]);
      }
      order := order + [id];
      rest := rest - {id};
    }
  }

  /** `y` is stored in `m` under some key. */
  ghost predicate ValueOf(y: Item, m: map<int, Item>) {
    exists k :: k in m && m[k] == y
  }

  lemma ValueAt(m: map<int, Item>, k: int)
    requires k in m
    ensures ValueOf(m[k], m)
  {
  }

  /** An entry already in the set stays: `add` never removes anything. */
  lemma EnterKeeps(s: seq<Item>, x: Item)
    requires Ascending(s)
    ensures forall y :: y in s ==> y in Enter(s, x)
  {
  }

  /**
   * What the set holds after the additions: what it held before, and values of `m` with a
   * start; and the start of every value of `m` added is taken by some entry.
   */
  lemma {:induction false} CollectedFacts(s: seq<Item>, order: seq<int>, m: map<int, Item>)
    requires Ascending(s)
    requires forall i :: 0 <= i < |order| ==> order[i] in m
    ensures var r := Collected(s, order, m);
      && (forall y :: y in s ==> y in r)
      && (forall y :: y in r ==> y in s || ValueOf(y, m))
      && (forall i :: 0 <= i < |order| && m[order[i]].start.Some? ==> StartTaken(r, m[order[i]].start.value))
  {
    if order != [] {
      var front := order[..|order| - 1];
      var x := m[order[|order| - 1]];
      CollectedFacts(s, front, m);
      var p := Collected(s, front, m);
      var r := Collected(s, order, m);
      EnterKeeps(p, x);
      ValueAt(m, order[|order| - 1]);
      forall i | 0 <= i < |order| && m[order[i]].start.Some? ensures StartTaken(r, m[order[i]].start.value) {
        if i < |front| {
          assert order[i] == front[i];
          StartKept(p, r, m[order[i]].start.value);
        } else {
          InsertedIsPresent(p, x);
        }
      }
    }
  }

  /** A start taken in a set is still taken in any set holding all of its entries. */
  lemma StartKept(p: seq<Item>, r: seq<Item>, t: int)
    requires StartTaken(p, t) && forall y :: y in p ==> y in r
    ensures StartTaken(r, t)
  {
    var j :| 0 <= j < |p| && p[j].start == Some(t);
    assert p[j] in r;
    var k :| 0 <= k < |r| && r[k] == p[j];
  }

  /** Some entry of the list starting at `t` is a task. */
  predicate TaskAt(list: seq<Item>, t: int) {
    exists i :: 0 <= i < |list| && list[i].start == Some(t) && list[i].Task?
  }

  /** The recomputed list ascends strictly by start and holds only stored tasks and subtasks with a start. */
  lemma PrioritizedStored(ot: seq<int>, os: seq<int>, tasks: map<int, Item>, epics: map<int, Item>,
                          subtasks: map<int, Item>, counter: int)
    requires Stores(tasks, epics, subtasks, counter)
    requires Enumerates(ot, tasks) && Enumerates(os, subtasks)
    ensures var list := PrioritizedList(ot, os, tasks, subtasks);
      && Ascending(list)
      && (forall i :: 0 <= i < |list| ==> list[i].start.Some? && Stored(list[i], tasks, subtasks))
  {
    var inner := Collected([], ot, tasks);
    CollectedFacts([], ot, tasks);
    CollectedFacts(inner, os, subtasks);
    ValuesStored(PrioritizedList(ot, os, tasks, subtasks), inner, tasks, subtasks);
  }

  /** A list drawn from the values of the two stores holds stored entities only. */
  lemma ValuesStored(list: seq<Item>, inner: seq<Item>, tasks: map<int, Item>, subtasks: map<int, Item>)
    requires forall k :: k in tasks ==> tasks[k].Task? && tasks[k].id == k
    requires forall k :: k in subtasks ==> subtasks[k].Subtask? && subtasks[k].id == k
    requires Ascending(list)
    requires forall y :: y in inner ==> ValueOf(y, tasks)
    requires forall y :: y in list ==> y in inner || ValueOf(y, subtasks)
    ensures forall i :: 0 <= i < |list| ==> list[i].start.Some? && Stored(list[i], tasks, subtasks)
  {
    forall i | 0 <= i < |list| ensures list[i].start.Some? && Stored(list[i], tasks, subtasks) {
      assert HasStart(list[i]);
      var y := list[i];
      assert y in list;
      if y in inner {
        assert ValueOf(y, tasks);
        var k :| k in tasks && tasks[k] == y;
      } else {
        assert ValueOf(y, subtasks);
        var k :| k in subtasks && subtasks[k] == y;
      }
    }
  }

  /**
   * The start of every stored task and subtask is taken by some entry of the recomputed list,
   * and because the tasks go in first, the entry at a task's start is always a task.
   */
  lemma PrioritizedStarts(ot: seq<int>, os: seq<int>, tasks: map<int, Item>, epics: map<int, Item>,
                          subtasks: map<int, Item>, counter: int)
    requires Stores(tasks, epics, subtasks, counter)
    requires Enumerates(ot, tasks) && Enumerates(os, subtasks)
    ensures var list := PrioritizedList(ot, os, tasks, subtasks);
      && (forall k :: k in tasks && tasks[k].start.Some? ==> TaskAt(list, tasks[k].start.value))
      && (forall k :: k in subtasks && subtasks[k].start.Some? ==> StartTaken(list, subtasks[k].start.value))
  {
    var inner := Collected([], ot, tasks);
    CollectedFacts([], ot, tasks);
    CollectedFacts(inner, os, subtasks);
    TaskStartsKept(PrioritizedList(ot, os, tasks, subtasks), inner, ot, tasks);
    SubtaskStartsTaken(PrioritizedList(ot, os, tasks, subtasks), os, subtasks);
  }

  lemma TaskStartsKept(list: seq<Item>, inner: seq<Item>, ot: seq<int>, tasks: map<int, Item>)
    requires forall k :: k in tasks ==> tasks[k].Task?
    requires Enumerates(ot, tasks)
    requires forall y :: y in inner ==> ValueOf(y, tasks)
    requires forall y :: y in inner ==> y in list
    requires forall i :: 0 <= i < |ot| && tasks[ot[i]].start.Some? ==> StartTaken(inner, tasks[ot[i]].start.value)
    ensures forall k :: k in tasks && tasks[k].start.Some? ==> TaskAt(list, tasks[k].start.value)
  {
    forall k | k in tasks && tasks[k].start.Some? ensures TaskAt(list, tasks[k].start.value) {
      var t := tasks[k].start.value;
      var i := PositionOf(ot, tasks, k);
      var j :| 0 <= j < |inner| && inner[j].start == Some(t);
      var y := inner[j];
      assert y in inner;
      assert ValueOf(y, tasks);
      var kk :| kk in tasks && tasks[kk] == y;
      assert y in list;
      var n :| 0 <= n < |list| && list[n] == y;
    }
  }

  lemma SubtaskStartsTaken(list: seq<Item>, os: seq<int>, subtasks: map<int, Item>)
    requires Enumerates(os, subtasks)
    requires forall i :: 0 <= i < |os| && subtasks[os[i]].start.Some? ==> StartTaken(list, subtasks[os[i]].start.value)
    ensures forall k :: k in subtasks && subtasks[k].start.Some? ==> StartTaken(list, subtasks[k].start.value)
  {
    forall k | k in subtasks && subtasks[k].start.Some? ensures StartTaken(list, subtasks[k].start.value) {
      var i := PositionOf(os, subtasks, k);
    }
  }

  /** Every key of `m` is at some position of an enumeration of `m`. */
  lemma PositionOf(order: seq<int>, m: map<int, Item>, k: int) returns (i: int)
    requires Enumerates(order, m) && k in m
    ensures 0 <= i < |order| && order[i] == k
  {
    i :| 0 <= i < |order| && order[i] == k;
  }

  /** No two stored tasks or subtasks share a start time. */
  ghost predicate DistinctStarts(tasks: map<int, Item>, subtasks: map<int, Item>) {
    forall a, b :: Stored(a, tasks, subtasks) && Stored(b, tasks, subtasks) && a.start.Some? && a.start == b.start ==> a == b
  }

  /** Without ties, the recomputed list holds every stored task and subtask that has a start. */
  lemma PrioritizedComplete(ot: seq<int>, os: seq<int>, tasks: map<int, Item>, epics: map<int, Item>,
                            subtasks: map<int, Item>, counter: int)
    requires Stores(tasks, epics, subtasks, counter)
    requires Enumerates(ot, tasks) && Enumerates(os, subtasks) && DistinctStarts(tasks, subtasks)
    ensures forall y :: Stored(y, tasks, subtasks) && y.start.Some? ==> y in PrioritizedList(ot, os, tasks, subtasks)
  {
    var list := PrioritizedList(ot, os, tasks, subtasks);
    PrioritizedStored(ot, os, tasks, epics, subtasks, counter);
    PrioritizedStarts(ot, os, tasks, epics, subtasks, counter);
    forall y | Stored(y, tasks, subtasks) && y.start.Some? ensures y in list {
      var t := y.start.value;
      if y.Task? {
        assert TaskAt(list, t);
      } else {
        assert StartTaken(list, t);
      }
      var i :| 0 <= i < |list| && list[i].start == Some(t);
      assert Stored(list[i], tasks, subtasks);
    }
  }

  /**
   * The outcome of `hasOverlaps(c)` over the list `seen` it built: a task without a start is
   * never checked; otherwise the stream over `seen` decides (`NullEnd` is the exception thrown
   * on a null end time).
   */
  function OverlapCheck(seen: seq<Item>, c: Item): Verdict
    requires Ascending(seen)
  {
    if c.start.None? then Clear else Screen(seen, c)
  }

  /** Some list `getPrioritizedTasks` may build lets `c` through the overlap check. */
  ghost predicate MayPass(c: Item, tasks: map<int, Item>, subtasks: map<int, Item>) {
    c.start.None? || exists seen :: Prioritized(seen, tasks, subtasks) && Ascending(seen) && Screen(seen, c) == Clear
  }

  /** Some stored task or subtask with a start, other than `c` by `equals`, overlaps `c`. */
  ghost predicate ClashesWithStored(c: Item, tasks: map<int, Item>, subtasks: map<int, Item>)
    requires Schedulable(c)
  {
    exists y :: Stored(y, tasks, subtasks) && Schedulable(y) && !SameEntity(y, c) && IsOverlapping(y, c)
  }

  /** Every stored task and subtask with a start also has an end. */
  ghost predicate StoredSchedulable(tasks: map<int, Item>, subtasks: map<int, Item>) {
    forall y :: Stored(y, tasks, subtasks) && y.start.Some? ==> Schedulable(y)
  }

  /**
   * `hasOverlaps` over a list it may have built: with ends everywhere it never meets a null end;
   * an overlap it reports is a real one with a stored entity; and without ties among the
   * stored starts it reports exactly the real overlaps.
   */
  lemma HasOverlapsMeaning(list: seq<Item>, c: Item, tasks: map<int, Item>, epics: map<int, Item>,
                           subtasks: map<int, Item>, counter: int)
    requires Stores(tasks, epics, subtasks, counter) && Prioritized(list, tasks, subtasks)
    requires StoredSchedulable(tasks, subtasks) && Schedulable(c)
    ensures forall i :: 0 <= i < |list| ==> HasStart(list[i])
    ensures Screen(list, c) != NullEnd
    ensures Screen(list, c) == Overlap ==> ClashesWithStored(c, tasks, subtasks)
    ensures DistinctStarts(tasks, subtasks) ==> (Screen(list, c) == Overlap <==> ClashesWithStored(c, tasks, subtasks))
  {
    var ot, os :| Enumerates(ot, tasks) && Enumerates(os, subtasks) && list == PrioritizedList(ot, os, tasks, subtasks);
    PrioritizedStored(ot, os, tasks, epics, subtasks, counter);
    ListSchedulable(list, tasks, subtasks);
    if Screen(list, c) == Overlap {
      var i :| 0 <= i < |list| && !SameEntity(list[i], c) && IsOverlapping(list[i], c);
      assert Stored(list[i], tasks, subtasks);
    }
    if DistinctStarts(tasks, subtasks) && ClashesWithStored(c, tasks, subtasks) {
      PrioritizedComplete(ot, os, tasks, epics, subtasks, counter);
      ClashListed(list, c, tasks, subtasks);
    }
  }

  lemma ListSchedulable(list: seq<Item>, tasks: map<int, Item>, subtasks: map<int, Item>)
    requires StoredSchedulable(tasks, subtasks)
    requires forall i :: 0 <= i < |list| ==> list[i].start.Some? && Stored(list[i], tasks, subtasks)
    ensures AllSchedulable(list)
  {
  }

  lemma ClashListed(list: seq<Item>, c: Item, tasks: map<int, Item>, subtasks: map<int, Item>)
    requires Schedulable(c) && ClashesWithStored(c, tasks, subtasks) && AllSchedulable(list)
    requires forall y :: Stored(y, tasks, subtasks) && y.start.Some? ==> y in list
    ensures AnyOverlap(list, c)
  {
    var y :| Stored(y, tasks, subtasks) && Schedulable(y) && !SameEntity(y, c) && IsOverlapping(y, c);
    var i :| 0 <= i < |list| && list[i] == y;
  }

  /**
   * A tie hides an overlap: a task and a subtask starting at the same minute leave only the task
   * in the list, so a candidate that overlaps only the longer subtask passes the check.
   */
  lemma TieHidesOverlap()
    ensures var tasks := map[1 := Task(1, "a", "", New, Some(0), Some(10))];
      var subtasks := map[2 := Subtask(2, "b", "", New, Some(0), Some(100), 3)];
      var c := Task(0, "c", "", New, Some(50), Some(10));
      && PrioritizedList([1], [2], tasks, subtasks) == [tasks[1]]
      && Screen(PrioritizedList([1], [2], tasks, subtasks), c) == Clear
      && ClashesWithStored(c, tasks, subtasks)
  {
    var tasks := map[1 := Task(1, "a", "", New, Some(0), Some(10))];
    var subtasks := map[2 := Subtask(2, "b", "", New, Some(0), Some(100), 3)];
    var c := Task(0, "c", "", New, Some(50), Some(10));
    assert [1][..0] == [] && [2][..0] == [];
    assert Stored(subtasks[2], tasks, subtasks) && IsOverlapping(subtasks[2], c);
  }
}
