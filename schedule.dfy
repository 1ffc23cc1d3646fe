/**
 * Time intervals and the prioritized index.
 *
 * The index is a `TreeSet` ordered only by start time, so it holds at most one entry per
 * start time and `add` of an entry whose start is already present does nothing. It is
 * modelled as a sequence strictly ascending by start.
 */
module Schedule {
  import opened Wrappers
  import opened Model
  import opened Seqs

  // ---------------------------------------------------------------------------
  // Overlap (InMemoryTaskManager.isOverlapping / validateNoOverlap)

  /** `isOverlapping(e, c)`: e ends after c starts and e starts before c ends. */
  predicate IsOverlapping(e: Item, c: Item)
    requires Schedulable(e) && Schedulable(c)
  {
    EndTime(e).value > c.start.value && e.start.value < EndTime(c).value
  }

  /** Minute `t` lies in the half-open window [start, end) of `x`. */
  predicate Covers(x: Item, t: int)
    requires Schedulable(x)
  {
    x.start.value <= t < EndTime(x).value
  }

  /** For non-empty windows, overlapping means sharing a minute; the relation is symmetric. */
  lemma OverlapIsSharedMinute(e: Item, c: Item)
    requires Schedulable(e) && Schedulable(c)
    requires e.start.value < EndTime(e).value && c.start.value < EndTime(c).value
    ensures IsOverlapping(e, c) <==> exists t :: Covers(e, t) && Covers(c, t)
    ensures IsOverlapping(e, c) <==> IsOverlapping(c, e)
  {
    if IsOverlapping(e, c) {
      var t := if e.start.value < c.start.value then c.start.value else e.start.value;
      assert Covers(e, t) && Covers(c, t);
    }
  }

  /** Windows that only touch (one ends when the other starts) do not overlap. */
  lemma AbuttingDoNotOverlap(e: Item, c: Item)
    requires Schedulable(e) && Schedulable(c)
    requires EndTime(e).value == c.start.value || EndTime(c).value == e.start.value
    ensures !IsOverlapping(e, c)
  {
  }

  /** Is there an entry, other than `c` itself (by `equals`), that overlaps `c`? The stream's `anyMatch`. */
  function AnyOverlap(s: seq<Item>, c: Item): (r: bool)
    requires forall i :: 0 <= i < |s| ==> Schedulable(s[i])
    requires Schedulable(c)
    ensures r <==> exists i :: 0 <= i < |s| && !SameEntity(s[i], c) && IsOverlapping(s[i], c)
  {
    if s == [] then false
    else if !SameEntity(s[0], c) && IsOverlapping(s[0], c) then true
    else
      var rest := AnyOverlap(s[1..], c);
      assert forall i :: 1 <= i < |s| ==> s[i] == s[1..][i - 1];
      rest
  }

  /** All entries can take part in an overlap check. */
  predicate AllSchedulable(s: seq<Item>) {
    forall i :: 0 <= i < |s| ==> Schedulable(s[i])
  }

  /** `validateNoOverlap` throws: `c` has a start and overlaps an entry other than itself. */
  predicate Conflicts(index: seq<Item>, c: Item)
    requires c.start.Some? ==> Schedulable(c) && AllSchedulable(index)
  {
    c.start.Some? && AnyOverlap(index, c)
  }

  /** What `validateNoOverlap` does: return, throw `IllegalStateException`, or dereference a null end time. */
  datatype Verdict = Clear | Overlap | NullEnd

  /**
   * The stream `filter(t -> !t.equals(c)).anyMatch(t -> isOverlapping(t, c))` over the index in
   * ascending order, evaluated as Java does: the entry's end is read first (null throws), and only
   * when it lies after `c`'s start is `c`'s end read (null throws).
   */
  function Screen(s: seq<Item>, c: Item): (r: Verdict)
    requires c.start.Some? && forall i :: 0 <= i < |s| ==> HasStart(s[i])
    ensures AllSchedulable(s) && Schedulable(c) ==> r != NullEnd && (r == Overlap <==> AnyOverlap(s, c))
    ensures r == NullEnd ==> EndTime(c).None? || exists i :: 0 <= i < |s| && EndTime(s[i]).None?
  {
    if s == [] then Clear
    else
      assert forall i :: 1 <= i < |s| ==> s[1..][i - 1] == s[i];
      assert HasStart(s[0]);
      if SameEntity(s[0], c) then Screen(s[1..], c)
      else if EndTime(s[0]).None? then NullEnd
      else if EndTime(s[0]).value > c.start.value then
        if EndTime(c).None? then NullEnd
        else if s[0].start.value < EndTime(c).value then Overlap
        else Screen(s[1..], c)
      else Screen(s[1..], c)
  }

  /** `validateNoOverlap`: an item without a start is never rejected. */
  function Validate(index: seq<Item>, c: Item): (r: Verdict)
    requires forall i :: 0 <= i < |index| ==> HasStart(index[i])
    ensures c.start.None? ==> r == Clear
    ensures c.start.Some? && AllSchedulable(index) && Schedulable(c) ==> r != NullEnd && (r == Overlap <==> Conflicts(index, c))
  {
    if c.start.None? then Clear else Screen(index, c)
  }

  /** The two examples of the manager's tests: 30-minute windows 31 minutes apart pass, 29 minutes apart clash. */
  lemma ShiftedWindows(t: int)
    ensures !IsOverlapping(Task(1, "", "", New, Some(t), Some(30)), Task(2, "", "", New, Some(t + 31), Some(30)))
    ensures !IsOverlapping(Task(1, "", "", New, Some(t), Some(30)), Task(2, "", "", New, Some(t - 31), Some(30)))
    ensures IsOverlapping(Task(1, "", "", New, Some(t), Some(30)), Task(2, "", "", New, Some(t + 29), Some(30)))
    ensures IsOverlapping(Task(1, "", "", New, Some(t), Some(30)), Task(2, "", "", New, Some(t - 29), Some(30)))
  {
  }

  // ---------------------------------------------------------------------------
  // The index (sortedTasks)

  predicate HasStart(x: Item) {
    x.start.Some?
  }

  predicate StartsBefore(a: Item, b: Item) {
    a.start.Some? && b.start.Some? && a.start.value < b.start.value
  }

  /** Every entry has a start and starts strictly ascend, so no two entries share a start. */
  ghost predicate Ascending(s: seq<Item>) {
    (forall i :: 0 <= i < |s| ==> HasStart(s[i])) && Pairwise(s, StartsBefore)
  }

  /** Some entry starts at `t`. */
  predicate StartTaken(s: seq<Item>, t: int) {
    exists i :: 0 <= i < |s| && s[i].start == Some(t)
  }

  lemma TailAscending(s: seq<Item>)
    requires Ascending(s) && s != []
    ensures Ascending(s[1..])
  {
    var tail := s[1..];
    forall i, j | 0 <= i < j < |tail| ensures StartsBefore(tail[i], tail[j]) {
      assert tail[i] == s[i + 1] && tail[j] == s[j + 1];
    }
  }

  lemma ConsAscending(a: Item, rest: seq<Item>)
    requires HasStart(a) && Ascending(rest)
    requires forall y :: y in rest ==> StartsBefore(a, y)
    ensures Ascending([a] + rest)
  {
    var r := [a] + rest;
    forall i, j | 0 <= i < j < |r| ensures StartsBefore(r[i], r[j]) {
      assert r[j] == rest[j - 1];
      if i > 0 { assert r[i] == rest[i - 1]; }
    }
  }

  /** The head of an ascending sequence starts before everything behind it. */
  lemma HeadFirst(s: seq<Item>)
    requires Ascending(s) && s != []
    ensures forall y :: y in s[1..] ==> StartsBefore(s[0], y)
  {
    forall y | y in s[1..] ensures StartsBefore(s[0], y) {
      var k :| 0 <= k < |s[1..]| && s[1..][k] == y;
      assert s[k + 1] == y;
    }
  }

  lemma StartTakenTail(s: seq<Item>, t: int)
    requires s != [] && s[0].start != Some(t)
    ensures StartTaken(s, t) <==> StartTaken(s[1..], t)
  {
    if StartTaken(s, t) {
      var i :| 0 <= i < |s| && s[i].start == Some(t);
      assert s[1..][i - 1] == s[i];
    }
    if StartTaken(s[1..], t) {
      var i :| 0 <= i < |s[1..]| && s[1..][i].start == Some(t);
      assert s[i + 1] == s[1..][i];
    }
  }

  /** `TreeSet.add` under the start-time comparator. */
  function Insert(s: seq<Item>, x: Item): (r: seq<Item>)
    requires x.start.Some? && Ascending(s)
    ensures Ascending(r)
    ensures StartTaken(s, x.start.value) ==> r == s
    ensures !StartTaken(s, x.start.value) ==> |r| == |s| + 1 && (forall y :: y in r <==> y in s || y == x)
  {
    if s == [] then [x]
    else if s[0].start == x.start then s
    else if x.start.value < s[0].start.value then
      HeadFirst(s);
      assert s == [s[0]] + s[1..];
      StartTakenTail(s, x.start.value);
      ConsAscending(x, s);
      [x] + s
    else
      TailAscending(s);
      HeadFirst(s);
      StartTakenTail(s, x.start.value);
      var rest := Insert(s[1..], x);
      assert s == [s[0]] + s[1..];
      ConsAscending(s[0], rest);
      [s[0]] + rest
  }

  /** `add(task)` on the index, for an entity that has a start time; one without is left out. */
  function Enter(sorted: seq<Item>, x: Item): (r: seq<Item>)
    requires Ascending(sorted)
    ensures Ascending(r)
  {
    if x.start.Some? then Insert(sorted, x) else sorted
  }

  /** After a new start is inserted, the entry at that start is the inserted item. */
  lemma InsertedIsPresent(s: seq<Item>, x: Item)
    requires x.start.Some? && Ascending(s)
    ensures StartTaken(Insert(s, x), x.start.value)
    ensures x in Insert(s, x) || StartTaken(s, x.start.value)
  {
    var r := Insert(s, x);
    if StartTaken(s, x.start.value) {
    } else {
      assert x in r;
      var i :| 0 <= i < |r| && r[i] == x;
    }
  }

  // Named `removeIf` filters on the index and the history.

  /** Entries whose id differs from `id`. */
  function WithoutId(s: seq<Item>, id: int): seq<Item> {
    Filter(s, (x: Item) => x.id != id)
  }

  /** Entries whose id is not in `ids`. */
  function WithoutIds(s: seq<Item>, ids: set<int>): seq<Item> {
    Filter(s, (x: Item) => x.id !in ids)
  }

  /** `removeIf(task -> !(task instanceof Subtask))`. */
  function OnlySubtasks(s: seq<Item>): seq<Item> {
    Filter(s, (x: Item) => x.Subtask?)
  }

  /** `removeIf(task -> task instanceof Subtask)`. */
  function WithoutSubtasks(s: seq<Item>): seq<Item> {
    Filter(s, (x: Item) => !x.Subtask?)
  }

  lemma {:induction false} FilterKeepsAscending(s: seq<Item>, keep: Item -> bool)
    requires Ascending(s)
    ensures Ascending(Filter(s, keep))
  {
    FilterPairwise(s, keep, StartsBefore);
    FilterMembers(s, keep);
    var r := Filter(s, keep);
    forall i | 0 <= i < |r| ensures HasStart(r[i]) {
      assert r[i] in s;
    }
  }

  lemma FilterKeepsSchedulable(s: seq<Item>, keep: Item -> bool)
    requires AllSchedulable(s)
    ensures AllSchedulable(Filter(s, keep))
  {
    FilterMembers(s, keep);
    var r := Filter(s, keep);
    forall i | 0 <= i < |r| ensures Schedulable(r[i]) {
      assert r[i] in s;
    }
  }

  /** Removing one id and then a set of ids is removing their union. */
  lemma WithoutIdsStep(s: seq<Item>, ids: set<int>, id: int)
    ensures WithoutId(WithoutIds(s, ids), id) == WithoutIds(s, ids + {id})
  {
    FilterTwice(s, (x: Item) => x.id !in ids, (x: Item) => x.id != id, (x: Item) => x.id !in ids + {id});
  }

  /** Removing two sets of ids one after the other is removing their union. */
  lemma WithoutIdsTwice(s: seq<Item>, a: set<int>, b: set<int>)
    ensures WithoutIds(WithoutIds(s, a), b) == WithoutIds(s, a + b)
  {
    FilterTwice(s, (x: Item) => x.id !in a, (x: Item) => x.id !in b, (x: Item) => x.id !in a + b);
  }

  /** Removing one id and then a set of ids is removing their union. */
  lemma WithoutIdThenIds(s: seq<Item>, id: int, ids: set<int>)
    ensures WithoutIds(WithoutId(s, id), ids) == WithoutIds(s, ids + {id})
  {
    FilterTwice(s, (x: Item) => x.id != id, (x: Item) => x.id !in ids, (x: Item) => x.id !in ids + {id});
  }

  lemma InsertKeepsSchedulable(s: seq<Item>, x: Item)
    requires x.start.Some? && Ascending(s) && AllSchedulable(s) && Schedulable(x)
    ensures AllSchedulable(Insert(s, x))
  {
    var r := Insert(s, x);
    forall i | 0 <= i < |r| ensures Schedulable(r[i]) {
      assert r[i] in s || r[i] == x;
      if r[i] in s {
        var k :| 0 <= k < |s| && s[k] == r[i];
      }
    }
  }
}
