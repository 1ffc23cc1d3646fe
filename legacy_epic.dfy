/**
 * The earlier epic class (`src/Epic.java`): an epic without times that works out its own status
 * from the list of all subtasks, keeping only those whose epic id is its own.
 */
module LegacyEpic {
  import opened Model
  import opened Seqs
  import Epics

  /** Whether `s` is a subtask of the epic with id `id`. */
  predicate BelongsTo(s: Item, id: int) {
    s.Subtask? && s.epicId == id
  }

  /** The filter that keeps the subtasks of the epic with id `id`. */
  function Mine(id: int): Item -> bool {
    s => BelongsTo(s, id)
  }

  /** The subtasks of the epic with id `id`, in the order of `all`. */
  function Related(all: seq<Item>, id: int): (r: seq<Item>)
    ensures |r| <= |all|
  {
    Filter(all, Mine(id))
  }

  /** The statuses of `subs`, in order. */
  function StatusesOf(subs: seq<Item>): (r: seq<Status>)
    ensures |r| == |subs|
    ensures forall i :: 0 <= i < |subs| ==> r[i] == subs[i].status
  {
    if subs == [] then [] else StatusesOf(subs[..|subs| - 1]) + [subs[|subs| - 1].status]
  }

  /**
   * The status after `updateStatus(all)` on an epic with id `id` and status `current`: unchanged
   * when no subtask belongs to it, else DONE when all of its subtasks are DONE, else NEW when all
   * are NEW, else IN_PROGRESS.
   */
  function UpdatedStatus(current: Status, all: seq<Item>, id: int): Status {
    var subs := Related(all, id);
    var ss := StatusesOf(subs);
    if subs == [] then current
    else if Epics.Count(ss, Done) == |subs| then Done
    else if Epics.Count(ss, New) == |subs| then New
    else InProgress
  }

  /** Whether every element of `subs` has status `st`. */
  predicate AllOf(subs: seq<Item>, st: Status) {
    forall i :: 0 <= i < |subs| ==> subs[i].status == st
  }

  /** The status rule, in terms of the epic's own subtasks and nothing else. */
  lemma UpdatedStatusCases(current: Status, all: seq<Item>, id: int)
    ensures var subs := Related(all, id);
      && (subs == [] ==> UpdatedStatus(current, all, id) == current)
      && (subs != [] ==> (UpdatedStatus(current, all, id) == Done <==> AllOf(subs, Done)))
      && (subs != [] ==> (UpdatedStatus(current, all, id) == New <==> AllOf(subs, New)))
      && (subs != [] ==> (UpdatedStatus(current, all, id) == InProgress
                          <==> !AllOf(subs, Done) && !AllOf(subs, New)))
  {
    var subs := Related(all, id);
    var ss := StatusesOf(subs);
    if subs != [] && AllOf(subs, New) {
      assert ss[0] == New;
    }
  }

  /** Subtasks of other epics, and any other entity, do not affect the result. */
  lemma {:induction false} OnlyRelatedCount(current: Status, all: seq<Item>, other: seq<Item>, id: int)
    requires forall i :: 0 <= i < |other| ==> !BelongsTo(other[i], id)
    ensures UpdatedStatus(current, all + other, id) == UpdatedStatus(current, all, id)
    ensures UpdatedStatus(current, other + all, id) == UpdatedStatus(current, all, id)
  {
    var keep := Mine(id);
    FilterConcat(all, other, keep);
    FilterConcat(other, all, keep);
    NoneKept(other, id);
    assert Filter(all, keep) + [] == Filter(all, keep);
    assert [] + Filter(all, keep) == Filter(all, keep);
  }

  lemma {:induction false} NoneKept(other: seq<Item>, id: int)
    requires forall i :: 0 <= i < |other| ==> !BelongsTo(other[i], id)
    ensures Related(other, id) == []
  {
    if other != [] {
      assert forall i :: 0 <= i < |other[1..]| ==> other[1..][i] == other[i + 1];
      NoneKept(other[1..], id);
    }
  }

  /** Adding one more status to a list adds one to the count exactly when it is `st`. */
  lemma CountSnoc(ss: seq<Status>, x: Status, st: Status)
    ensures Epics.Count(ss + [x], st) == Epics.Count(ss, st) + (if x == st then 1 else 0)
  {
    assert (ss + [x])[..|ss|] == ss;
  }

  /** Counting one more subtask of `subs` adds one exactly when its status is `st`. */
  lemma CountStep(subs: seq<Item>, i: int, st: Status)
    requires 0 <= i < |subs|
    ensures Epics.Count(StatusesOf(subs[..i + 1]), st)
      == Epics.Count(StatusesOf(subs[..i]), st) + (if subs[i].status == st then 1 else 0)
  {
    assert subs[..i + 1][..i] == subs[..i];
    CountSnoc(StatusesOf(subs[..i]), subs[i].status, st);
  }

  /** The first loop of `updateStatus`: the subtasks whose epic id is `id`, in list order. */
  method CollectRelated(allSubtasks: seq<Item>, id: int) returns (subtasks: seq<Item>)
    ensures subtasks == Related(allSubtasks, id)
    ensures forall i :: 0 <= i < |subtasks| ==> BelongsTo(subtasks[i], id)
  {
    var keep := Mine(id);
    subtasks := [];
    for i := 0 to |allSubtasks|
      invariant subtasks == Filter(allSubtasks[..i], keep)
      invariant forall k :: 0 <= k < |subtasks| ==> BelongsTo(subtasks[k], id)
    {
      var s := allSubtasks[i];
      FilterConcat(allSubtasks[..i], [s], keep);
      assert allSubtasks[..i + 1] == allSubtasks[..i] + [s];
      assert Filter([s], keep) == if keep(s) then [s] else [];
      if s.Subtask? && s.epicId == id {
        subtasks := subtasks + [s];
      }
    }
    assert allSubtasks[..|allSubtasks|] == allSubtasks;
  }

  /** An epic of the earlier model: the fields `src/Epic.java` and its superclass keep. */
  class LegacyEpic {
    var id: int
    var title: string
    var description: string
    var status: Status
    var subtaskIds: seq<int>

    /** `new Epic(title, description)`: status NEW and an empty subtask list. */
    constructor (title: string, description: string)
      ensures id == 0 && this.title == title && this.description == description
      ensures status == New && subtaskIds == []
    {
      id := 0;
      this.title, this.description := title, description;
      status := New;
      subtaskIds := [];
    }

    /** `addSubtask`: appends the id, keeping the earlier ones in order. */
    method AddSubtask(sid: int)
      modifies this`subtaskIds
      ensures subtaskIds == old(subtaskIds) + [sid]
    {
      subtaskIds := subtaskIds + [sid];
    }

    /** `setSubtaskIds`. */
    method SetSubtaskIds(ids: seq<int>)
      modifies this`subtaskIds
      ensures subtaskIds == ids
    {
      subtaskIds := ids;
    }

    /**
     * `updateStatus(allSubtasks)`: collects the subtasks whose epic id is this epic's id, returns
     * when there are none, and otherwise counts DONE and NEW among them.
     */
    method UpdateStatus(allSubtasks: seq<Item>)
      modifies this`status
      ensures status == UpdatedStatus(old(status), allSubtasks, id)
    {
      var subtasks := CollectRelated(allSubtasks, id);
      if subtasks == [] {
        return;
      }
      var countDone, countNew := 0, 0;
      for i := 0 to |subtasks|
        invariant countDone == Epics.Count(StatusesOf(subtasks[..i]), Done)
        invariant countNew == Epics.Count(StatusesOf(subtasks[..i]), New)
      {
        CountStep(subtasks, i, Done);
        CountStep(subtasks, i, New);
        if subtasks[i].status == Done {
          countDone := countDone + 1;
        }
        if subtasks[i].status == New {
          countNew := countNew + 1;
        }
      }
      assert subtasks[..|subtasks|] == subtasks;
      if countDone == |subtasks| {
        status := Done;
      } else if countNew == |subtasks| {
        status := New;
      } else {
        status := InProgress;
      }
    }
  }
}
