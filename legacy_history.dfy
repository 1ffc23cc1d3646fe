/**
 * The earlier history manager (`src/InMemoryHistoryManager.java`): an `ArrayList` of the last
 * ten entities viewed, oldest first, with no de-duplication.
 */
module LegacyHistory {
  import opened Wrappers
  import opened Model

  /** The most entries the list keeps. */
  const Capacity: nat := 10

  /** The list after one `add`: a full list drops its oldest entry, then the entity goes last. */
  function Appended(h: seq<Item>, t: Item): (r: seq<Item>)
    ensures |h| <= Capacity ==> |r| <= Capacity
    ensures |r| >= 1 && r[|r| - 1] == t
  {
    (if |h| == Capacity then h[1..] else h) + [t]
  }

  /** The list after adding each of `ts` in turn, starting empty. */
  function AddedAll(ts: seq<Item>): seq<Item> {
    if ts == [] then [] else Appended(AddedAll(ts[..|ts| - 1]), ts[|ts| - 1])
  }

  /** The last `n` entries of `s`, or all of them when there are fewer. */
  function LastOf(s: seq<Item>, n: nat): (r: seq<Item>)
    ensures |r| <= n && |r| <= |s|
  {
    if |s| <= n then s else s[|s| - n..]
  }

  /** The history always holds exactly the last ten entities added, in the order they were added. */
  lemma {:induction false} KeepsLastTen(ts: seq<Item>)
    ensures AddedAll(ts) == LastOf(ts, Capacity)
  {
    if ts != [] {
      var front := ts[..|ts| - 1];
      KeepsLastTen(front);
      if |front| >= Capacity {
        assert LastOf(front, Capacity)[1..] + [ts[|ts| - 1]] == ts[|ts| - Capacity..];
      } else {
        assert front + [ts[|ts| - 1]] == ts;
      }
    }
  }

  /** No de-duplication: adding the same entity twice to a short list records it twice. */
  lemma AddedTwice(h: seq<Item>, t: Item)
    requires |h| + 2 <= Capacity
    ensures Appended(Appended(h, t), t) == h + [t, t]
  {
  }

  class CappedHistory {
    var history: seq<Item>

    ghost predicate Valid()
      reads this
    {
      |history| <= Capacity
    }

    constructor ()
      ensures Valid() && history == []
    {
      history := [];
    }

    /** `add`: null is ignored; otherwise a full list loses its oldest entry and the entity goes last. */
    method Add(task: Option<Item>)
      requires Valid()
      modifies this
      ensures Valid()
      ensures task.None? ==> history == old(history)
      ensures task.Some? ==> history == Appended(old(history), task.value)
    {
      if task.None? {
        return;
      }
      if |history| == Capacity {
        history := history[1..];
      }
      history := history + [task.value];
    }

    /** `getHistory`: the list itself, oldest first. */
    method GetHistory() returns (list: seq<Item>)
      requires Valid()
      ensures list == history && |list| <= Capacity
    {
      list := history;
    }
  }
}
