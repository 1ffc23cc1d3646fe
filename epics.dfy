/**
 * How an epic's status and time window follow from its subtasks.
 *
 * The manager keeps an epic's subtasks as a list of ids; an id whose subtask is no longer
 * stored is skipped by the status count but still counts towards the list's length.
 */
module Epics {
  import opened Wrappers
  import opened Model

  // ---------------------------------------------------------------------------
  // Status (InMemoryTaskManager.updateEpicsStatus)

  /** The statuses of the listed subtasks that are stored, in list order. */
  function ListedStatuses(ids: seq<int>, subtasks: map<int, Item>): (r: seq<Status>)
    ensures |r| <= |ids|
  {
    if ids == [] then []
    else
      var last := ids[|ids| - 1];
      ListedStatuses(ids[..|ids| - 1], subtasks) + (if last in subtasks then [subtasks[last].status] else [])
  }

  /** Occurrences of `st` in `ss`. */
  function Count(ss: seq<Status>, st: Status): (r: nat)
    ensures r <= |ss|
    ensures r == |ss| <==> forall i :: 0 <= i < |ss| ==> ss[i] == st
  {
    if ss == [] then 0
    else
      var rest := Count(ss[..|ss| - 1], st);
      assert forall i :: 0 <= i < |ss| - 1 ==> ss[..|ss| - 1][i] == ss[i];
      rest + (if ss[|ss| - 1] == st then 1 else 0)
  }

  /**
   * The status chosen from the two counts: DONE when every listed id counted as DONE, else NEW
   * when every one counted as NEW, else IN_PROGRESS. The bar is the length of the id list.
   */
  function AggregateStatus(ids: seq<int>, subtasks: map<int, Item>): Status {
    var ss := ListedStatuses(ids, subtasks);
    if Count(ss, Done) == |ids| then Done
    else if Count(ss, New) == |ids| then New
    else InProgress
  }

  /** Every listed id names a stored subtask with status `st`. */
  predicate AllListed(ids: seq<int>, subtasks: map<int, Item>, st: Status) {
    forall i :: 0 <= i < |ids| ==> ids[i] in subtasks && subtasks[ids[i]].status == st
  }

  /** The listed statuses are all `st` exactly when every listed subtask is stored with status `st`. */
  lemma {:induction false} CountListed(ids: seq<int>, subtasks: map<int, Item>, st: Status)
    ensures Count(ListedStatuses(ids, subtasks), st) == |ids| <==> AllListed(ids, subtasks, st)
  {
    if ids != [] {
      var front := ids[..|ids| - 1];
      CountListed(front, subtasks, st);
      CountSnoc(ids, subtasks, st);
      AllListedSnoc(ids, subtasks, st);
    }
  }

  /** One more listed id adds one to the count exactly when it is stored with status `st`. */
  lemma CountSnoc(ids: seq<int>, subtasks: map<int, Item>, st: Status)
    requires ids != []
    ensures var last := ids[|ids| - 1];
      Count(ListedStatuses(ids, subtasks), st)
        == Count(ListedStatuses(ids[..|ids| - 1], subtasks), st) + (if last in subtasks && subtasks[last].status == st then 1 else 0)
  {
    var last := ids[|ids| - 1];
    var rest := ListedStatuses(ids[..|ids| - 1], subtasks);
    var ss := ListedStatuses(ids, subtasks);
    if last in subtasks {
      assert ss == rest + [subtasks[last].status];
      assert ss[..|ss| - 1] == rest;
    } else {
      assert ss == rest;
    }
  }

  /** The count over the first `i + 1` listed ids, from the count over the first `i`. */
  lemma CountStep(ids: seq<int>, subtasks: map<int, Item>, st: Status, i: int)
    requires 0 <= i < |ids|
    ensures Count(ListedStatuses(ids[..i + 1], subtasks), st)
      == Count(ListedStatuses(ids[..i], subtasks), st) + (if ids[i] in subtasks && subtasks[ids[i]].status == st then 1 else 0)
  {
    CountSnoc(ids[..i + 1], subtasks, st);
    assert ids[..i + 1][..i] == ids[..i];
  }

  lemma AllListedSnoc(ids: seq<int>, subtasks: map<int, Item>, st: Status)
    requires ids != []
    ensures var last := ids[|ids| - 1];
      (AllListed(ids, subtasks, st)
       <==> AllListed(ids[..|ids| - 1], subtasks, st) && last in subtasks && subtasks[last].status == st)
  {
    var front := ids[..|ids| - 1];
    assert forall i :: 0 <= i < |front| ==> front[i] == ids[i];
  }

  /** DONE exactly when every listed subtask is stored and DONE; an empty list is vacuously DONE. */
  lemma StatusDone(ids: seq<int>, subtasks: map<int, Item>)
    ensures AggregateStatus(ids, subtasks) == Done <==> AllListed(ids, subtasks, Done)
  {
    CountListed(ids, subtasks, Done);
  }

  /** NEW exactly when the list is non-empty and every listed subtask is stored and NEW. */
  lemma StatusNew(ids: seq<int>, subtasks: map<int, Item>)
    ensures AggregateStatus(ids, subtasks) == New <==> |ids| > 0 && AllListed(ids, subtasks, New)
  {
    CountListed(ids, subtasks, Done);
    CountListed(ids, subtasks, New);
    if |ids| > 0 && AllListed(ids, subtasks, New) {
      assert subtasks[ids[0]].status == New;
    }
  }

  /** IN_PROGRESS otherwise: some listed id is missing, or the statuses are mixed, or one is IN_PROGRESS. */
  lemma StatusInProgress(ids: seq<int>, subtasks: map<int, Item>)
    ensures AggregateStatus(ids, subtasks) == InProgress
        <==> !AllListed(ids, subtasks, Done) && !(|ids| > 0 && AllListed(ids, subtasks, New))
  {
    StatusDone(ids, subtasks);
    StatusNew(ids, subtasks);
  }

  /**
   * The counting loop of `updateEpicsStatus`: listed ids without a stored subtask are skipped,
   * then the two counts are compared with the length of the list.
   */
  method TallyStatus(ids: seq<int>, subtasks: map<int, Item>) returns (st: Status)
    ensures st == AggregateStatus(ids, subtasks)
  {
    var countDone, countNew := 0, 0;
    for i := 0 to |ids|
      invariant countDone == Count(ListedStatuses(ids[..i], subtasks), Done)
      invariant countNew == Count(ListedStatuses(ids[..i], subtasks), New)
    {
      CountStep(ids, subtasks, Done, i);
      CountStep(ids, subtasks, New, i);
      var id := ids[i];
      if id in subtasks {
        var status := subtasks[id].status;
        if status == Done {
          countDone := countDone + 1;
        }
        if status == New {
          countNew := countNew + 1;
        }
      }
    }
    assert ids[..|ids|] == ids;
    if countDone == |ids| {
      st := Done;
    } else if countNew == |ids| {
      st := New;
    } else {
      st := InProgress;
    }
  }

  // ---------------------------------------------------------------------------
  // The subtask-id list

  /** `List.remove(Object)` on the id list: drops the first occurrence, if there is one. */
  function RemoveFirst(s: seq<int>, x: int): (r: seq<int>)
    ensures x !in s ==> r == s
    ensures x in s ==> |r| == |s| - 1
  {
    if s == [] then []
    else if s[0] == x then s[1..]
    else [s[0]] + RemoveFirst(s[1..], x)
  }

  /** What is dropped is the first occurrence; everything before and after it stays in order. */
  lemma {:induction false} RemoveFirstCut(s: seq<int>, x: int) returns (i: int)
    requires x in s
    ensures 0 <= i < |s| && s[i] == x && x !in s[..i]
    ensures RemoveFirst(s, x) == s[..i] + s[i + 1..]
  {
    if s[0] == x {
      i := 0;
    } else {
      var j := RemoveFirstCut(s[1..], x);
      i := j + 1;
      assert s[..i] == [s[0]] + s[1..][..j];
      assert s[i + 1..] == s[1..][j + 1..];
    }
  }

  /** An epic after `getSubtaskIds().clear()` and `setStatus(NEW)`: everything else is kept. */
  function Cleared(epic: Item): (r: Item)
    requires epic.Epic?
    ensures r.Epic? && r.subtaskIds == [] && r.status == New
    ensures r.id == epic.id && r.title == epic.title && r.description == epic.description
    ensures r.start == epic.start && r.duration == epic.duration && r.endTime == epic.endTime
  {
    epic.(subtaskIds := [], status := New)
  }

  /** `new HashSet<>(ids)`. */
  function IdsOf(ids: seq<int>): (r: set<int>)
    ensures forall k :: k in r <==> k in ids
  {
    set i | 0 <= i < |ids| :: ids[i]
  }

  /** `ids.stream().map(subtasks::get).toList()`: one slot per listed id, `None` where nothing is stored. */
  function Lookup(ids: seq<int>, subtasks: map<int, Item>): (r: seq<Option<Item>>)
    ensures |r| == |ids|
    ensures forall i :: 0 <= i < |ids| ==> (r[i].Some? <==> ids[i] in subtasks)
    ensures forall i :: 0 <= i < |ids| && ids[i] in subtasks ==> r[i].value == subtasks[ids[i]]
  {
    seq(|ids|, i requires 0 <= i < |ids| => if ids[i] in subtasks then Some(subtasks[ids[i]]) else None)
  }

  // ---------------------------------------------------------------------------
  // Time window (InMemoryTaskManager.updateEpicsTime)

  /** Every listed id names a stored subtask, so the streams over the list do not dereference null. */
  predicate Present(ids: seq<int>, subtasks: map<int, Item>) {
    forall i :: 0 <= i < |ids| ==> ids[i] in subtasks
  }

  /** A list stays present when the store keeps its ids. */
  lemma PresentGrows(ids: seq<int>, subtasks: map<int, Item>, subtasks': map<int, Item>)
    requires Present(ids, subtasks) && subtasks.Keys <= subtasks'.Keys
    ensures Present(ids, subtasks')
  {
  }

  /** A list stays present when the store grows and a stored id is appended to it. */
  lemma PresentAppend(ids: seq<int>, subtasks: map<int, Item>, subtasks': map<int, Item>, id: int)
    requires Present(ids, subtasks) && subtasks.Keys <= subtasks'.Keys && id in subtasks'
    ensures Present(ids + [id], subtasks')
  {
  }

  /** The listed subtasks, in list order. */
  function Listed(ids: seq<int>, subtasks: map<int, Item>): (r: seq<Item>)
    requires Present(ids, subtasks)
    ensures |r| == |ids| && forall i :: 0 <= i < |ids| ==> r[i] == subtasks[ids[i]]
  {
    seq(|ids|, i requires 0 <= i < |ids| && ids[i] in subtasks => subtasks[ids[i]])
  }

  /** The least non-null start, as `min` over the filtered stream. */
  function EarliestStart(xs: seq<Item>): (r: Option<int>)
    ensures r.None? <==> forall i :: 0 <= i < |xs| ==> xs[i].start.None?
    ensures r.Some? ==> (exists i :: 0 <= i < |xs| && xs[i].start == r)
    ensures r.Some? ==> forall i :: 0 <= i < |xs| && xs[i].start.Some? ==> r.value <= xs[i].start.value
  {
    if xs == [] then None
    else
      var rest := EarliestStart(xs[1..]);
      assert forall i :: 1 <= i < |xs| ==> xs[i] == xs[1..][i - 1];
      var here := xs[0].start;
      if here.None? then rest
      else if rest.None? || here.value <= rest.value then here
      else rest
  }

  /** The greatest non-null end time, as `max` over the filtered stream. */
  function LatestEnd(xs: seq<Item>): (r: Option<int>)
    ensures r.None? <==> forall i :: 0 <= i < |xs| ==> EndTime(xs[i]).None?
    ensures r.Some? ==> (exists i :: 0 <= i < |xs| && EndTime(xs[i]) == r)
    ensures r.Some? ==> forall i :: 0 <= i < |xs| && EndTime(xs[i]).Some? ==> EndTime(xs[i]).value <= r.value
  {
    if xs == [] then None
    else
      var rest := LatestEnd(xs[1..]);
      assert forall i :: 1 <= i < |xs| ==> xs[i] == xs[1..][i - 1];
      var here := EndTime(xs[0]);
      if here.None? then rest
      else if rest.None? || here.value >= rest.value then here
      else rest
  }

  /**
   * The epic after its time is recomputed. Only start, duration and end may change, and an
   * empty list clears all three.
   */
  function Window(epic: Item, subtasks: map<int, Item>): (r: Item)
    requires epic.Epic? && Present(epic.subtaskIds, subtasks)
    ensures r.Epic? && r == epic.(start := r.start, duration := r.duration, endTime := r.endTime)
    ensures epic.subtaskIds == [] ==> r.start.None? && r.duration.None? && r.endTime.None?
  {
    if epic.subtaskIds == [] then
      epic.(start := None, duration := None, endTime := None)
    else
      var xs := Listed(epic.subtaskIds, subtasks);
      var first, last := EarliestStart(xs), LatestEnd(xs);
      if first.Some? && last.Some? then
        epic.(start := first, endTime := last, duration := Some(last.value - first.value))
      else
        epic
  }

  /**
   * The epic after `updateEpicsStatus` and then `updateEpicsTime`: its status aggregates the
   * listed subtasks and its window spans them; id, title, description and list are kept.
   */
  function Refreshed(epic: Item, subtasks: map<int, Item>): (r: Item)
    requires epic.Epic? && Present(epic.subtaskIds, subtasks)
    ensures r.Epic? && r.id == epic.id && r.title == epic.title && r.description == epic.description
    ensures r.subtaskIds == epic.subtaskIds && r.status == AggregateStatus(epic.subtaskIds, subtasks)
  {
    Window(WithStatus(epic, AggregateStatus(epic.subtaskIds, subtasks)), subtasks)
  }

  /** Some listed subtask has a start, and some (possibly another) has an end. */
  predicate HasSpan(xs: seq<Item>) {
    (exists i :: 0 <= i < |xs| && xs[i].start.Some?) && (exists i :: 0 <= i < |xs| && EndTime(xs[i]).Some?)
  }

  /**
   * With a span, the epic runs from the earliest listed start to the latest listed end: both
   * are attained by some listed subtask, every listed subtask's window lies inside, and the
   * duration is the length of the window.
   */
  lemma WindowSpans(epic: Item, subtasks: map<int, Item>)
    requires epic.Epic? && Present(epic.subtaskIds, subtasks)
    requires HasSpan(Listed(epic.subtaskIds, subtasks))
    ensures var w, xs := Window(epic, subtasks), Listed(epic.subtaskIds, subtasks);
      && w.start.Some? && w.endTime.Some? && w.duration == Some(w.endTime.value - w.start.value)
      && (exists i :: 0 <= i < |xs| && xs[i].start == w.start)
      && (exists i :: 0 <= i < |xs| && EndTime(xs[i]) == w.endTime)
      && (forall i :: 0 <= i < |xs| && xs[i].start.Some? ==> w.start.value <= xs[i].start.value)
      && (forall i :: 0 <= i < |xs| && EndTime(xs[i]).Some? ==> EndTime(xs[i]).value <= w.endTime.value)
  {
    assert epic.subtaskIds != [];
  }

  /** Without a span, a non-empty list leaves the epic as it was, stale times included. */
  lemma WindowStale(epic: Item, subtasks: map<int, Item>)
    requires epic.Epic? && Present(epic.subtaskIds, subtasks)
    requires epic.subtaskIds != [] && !HasSpan(Listed(epic.subtaskIds, subtasks))
    ensures Window(epic, subtasks) == epic
  {
  }

  /** Two subtasks at [t, t+30) and [t+60, t+90), with a gap between them, give an epic spanning [t, t+90). */
  lemma TwoSubtaskWindow(t: int)
    ensures Window(Epic(1, "", "", New, None, None, [2, 3], None),
                   map[2 := Subtask(2, "", "", New, Some(t), Some(30), 1),
                       3 := Subtask(3, "", "", New, Some(t + 60), Some(30), 1)])
            == Epic(1, "", "", New, Some(t), Some(90), [2, 3], Some(t + 90))
  {
    var m := map[2 := Subtask(2, "", "", New, Some(t), Some(30), 1),
                 3 := Subtask(3, "", "", New, Some(t + 60), Some(30), 1)];
    var xs := Listed([2, 3], m);
    assert xs == [m[2], m[3]];
    assert xs[1..] == [m[3]] && xs[1..][1..] == [];
    assert EarliestStart(xs[1..]) == Some(t + 60);
    assert EarliestStart(xs) == Some(t);
    assert LatestEnd(xs[1..]) == Some(t + 90);
    assert LatestEnd(xs) == Some(t + 90);
  }
}
