/**
 * Rebuilding a manager from its saved rows (`FileBackedTaskManager.loadFromFile`) and writing
 * its rows back (`save`). The file is a sequence of lines; the first is the header.
 */
module Snapshot {
  import opened Wrappers
  import opened Model
  import opened Schedule
  import opened Codec
  import opened Invariant
  import Seqs

  /** The header line `save` writes first and `loadFromFile` skips unread. */
  const Header: string := "id,type,name,status,description,epic,startTime,duration"

  /** The part of a manager that loading fills in: the three stores, the index and the largest id seen. */
  datatype Loaded = Loaded(tasks: map<int, Item>, epics: map<int, Item>, subtasks: map<int, Item>,
                           sorted: seq<Item>, maxId: int)

  /** A freshly constructed manager, before any row is read. */
  const Empty: Loaded := Loaded(map[], map[], map[], [], 0)

  /** The rows after the header; an empty file has none. */
  function Rows(lines: seq<string>): (r: seq<string>)
    ensures |lines| >= 1 ==> r == lines[1..]
    ensures |lines| == 0 ==> r == []
  {
    if |lines| == 0 then [] else lines[1..]
  }

  /** The id in a row's first column, when the row has a type column and the id parses. */
  function RowId(line: string): Option<int> {
    var val := Split(line);
    if |val| < 2 then None else ParseInt(val[0])
  }

  /** The stores hold their own kinds and the index ascends. */
  ghost predicate Shaped(s: Loaded) {
    && (forall k :: k in s.tasks ==> s.tasks[k].Task?)
    && (forall k :: k in s.epics ==> s.epics[k].Epic?)
    && (forall k :: k in s.subtasks ==> s.subtasks[k].Subtask?)
    && Ascending(s.sorted)
  }

  /**
   * The checks a row meets before it is filed: the type column is read, the id parsed,
   * then the whole row decoded. The entity is of the class its tag names.
   */
  function ReadRow(line: string): (r: Result<Item, Fault>)
    ensures r.Success? ==> RowId(line) == Some(r.value.id) && FromRow(line) == r
    ensures r.Success? ==> Split(line)[1] == TypeTag(r.value)
  {
    var val := Split(line);
    var tag :- Field(val, 1);
    var id :- IntField(val, 0);
    FromRow(line)
  }

  /**
   * Filing a decoded entity, as the `switch` on the tag does: a task or an epic is put under
   * its id; a subtask too, and its id is appended to the list of the epic it names, which
   * throws when that epic has not been loaded. Entries with a start enter the index, and the
   * largest id is kept.
   */
  function File(s: Loaded, x: Item): (r: Result<Loaded, Fault>)
    requires Shaped(s)
    ensures r.Success? ==> Shaped(r.value)
    ensures r.Success? ==> r.value.sorted == Enter(s.sorted, x)
    ensures r.Success? ==> r.value.maxId == (if s.maxId >= x.id then s.maxId else x.id)
    ensures r.Failure? <==> x.Subtask? && x.epicId !in s.epics
  {
    var maxId := if s.maxId >= x.id then s.maxId else x.id;
    if x.Task? then
      Success(s.(tasks := s.tasks[x.id := x], sorted := Enter(s.sorted, x), maxId := maxId))
    else if x.Epic? then
      Success(s.(epics := s.epics[x.id := x], sorted := Enter(s.sorted, x), maxId := maxId))
    else if x.epicId !in s.epics then
      Failure(MissingEpic(x.epicId))
    else
      var e := s.epics[x.epicId];
      Success(s.(subtasks := s.subtasks[x.id := x],
                 epics := s.epics[x.epicId := e.(subtaskIds := e.subtaskIds + [x.id])],
                 sorted := Enter(s.sorted, x), maxId := maxId))
  }

  /** One pass of the read loop. */
  function Step(s: Loaded, line: string): (r: Result<Loaded, Fault>)
    requires Shaped(s)
    ensures r.Success? ==> Shaped(r.value)
  {
    var x :- ReadRow(line);
    File(s, x)
  }

  /** The rows read in file order from an empty manager; the first fault ends the load. */
  function Replay(rows: seq<string>): (r: Result<Loaded, Fault>)
    ensures r.Success? ==> Shaped(r.value)
  {
    if rows == [] then Success(Empty)
    else
      var s :- Replay(rows[..|rows| - 1]);
      Step(s, rows[|rows| - 1])
  }

  /** The manager `loadFromFile` returns, or the exception it throws. */
  function Load(lines: seq<string>): Result<Loaded, Fault> {
    Replay(Rows(lines))
  }

  /** Once a prefix of the rows fails, the whole load fails with the same fault. */
  lemma {:induction false} FailureSticks(rows: seq<string>, n: int)
    requires 0 <= n <= |rows| && Replay(rows[..n]).Failure?
    ensures Replay(rows) == Replay(rows[..n])
    decreases |rows|
  {
    if n < |rows| {
      var prefix := rows[..|rows| - 1];
      assert prefix[..n] == rows[..n];
      FailureSticks(prefix, n);
    } else {
      assert rows[..n] == rows;
    }
  }

  /** The read loop of `loadFromFile`, over the rows after the header. */
  method ReadRows(rows: seq<string>) returns (r: Result<Loaded, Fault>)
    ensures r == Replay(rows)
  {
    var tasks: map<int, Item>, epics: map<int, Item>, subtasks: map<int, Item> := map[], map[], map[];
    var sorted: seq<Item> := [];
    var maxId := 0;
    var i := 0;
    while i < |rows|
      invariant 0 <= i <= |rows|
      invariant Replay(rows[..i]) == Success(Loaded(tasks, epics, subtasks, sorted, maxId))
    {
      ghost var before := Loaded(tasks, epics, subtasks, sorted, maxId);
      ReplayNext(rows, i, before);
      var line := rows[i];
      RowChecks(line);
      var val := Split(line);
      if |val| < 2 {
        FailureSticks(rows, i + 1);
        return Failure(MissingField(1));
      }
      var taskType := val[1];
      var parsed := ParseInt(val[0]);
      if parsed.None? {
        FailureSticks(rows, i + 1);
        return Failure(BadNumber(val[0]));
      }
      var taskId := parsed.value;
      maxId := if maxId >= taskId then maxId else taskId;
      var task := FromRow(line);
      if task.Failure? {
        FailureSticks(rows, i + 1);
        return Failure(task.error);
      }
      var x := task.value;
      if taskType == "TASK" {
        tasks := tasks[taskId := x];
        if x.start.Some? {
          sorted := Insert(sorted, x);
        }
      } else if taskType == "EPIC" {
        epics := epics[taskId := x];
        if x.start.Some? {
          sorted := Insert(sorted, x);
        }
      } else if taskType == "SUBTASK" {
        subtasks := subtasks[taskId := x];
        if x.epicId !in epics {
          FailureSticks(rows, i + 1);
          return Failure(MissingEpic(x.epicId));
        }
        epics := epics[x.epicId := epics[x.epicId].(subtaskIds := epics[x.epicId].subtaskIds + [taskId])];
        if x.start.Some? {
          sorted := Insert(sorted, x);
        }
      }
      i := i + 1;
    }
    assert rows[..i] == rows;
    r := Success(Loaded(tasks, epics, subtasks, sorted, maxId));
  }

  /** Reading one more row is one more step of the read loop. */
  lemma ReplayNext(rows: seq<string>, i: int, s: Loaded)
    requires 0 <= i < |rows| && Replay(rows[..i]) == Success(s)
    ensures Shaped(s) && Replay(rows[..i + 1]) == Step(s, rows[i])
  {
    assert rows[..i + 1][..i] == rows[..i];
  }

  /** The checks `ReadRow` makes, in order, before the row is decoded. */
  lemma RowChecks(line: string)
    ensures |Split(line)| < 2 ==> ReadRow(line) == Failure(MissingField(1))
    ensures |Split(line)| >= 2 && ParseInt(Split(line)[0]).None? ==> ReadRow(line) == Failure(BadNumber(Split(line)[0]))
    ensures |Split(line)| >= 2 && ParseInt(Split(line)[0]).Some? ==> ReadRow(line) == FromRow(line)
  {
  }

  // ---------------------------------------------------------------- what a load produces

  /** Every row decoded, in file order; the first row that cannot be read decides the fault. */
  function Decoded(rows: seq<string>): (r: Result<seq<Item>, Fault>)
    ensures r.Success? ==> |r.value| == |rows|
  {
    if rows == [] then Success([])
    else
      var xs :- Decoded(rows[..|rows| - 1]);
      var x :- ReadRow(rows[|rows| - 1]);
      Success(xs + [x])
  }

  /** The decoded entities filed one after another into an empty manager. */
  function FileAll(xs: seq<Item>): (r: Result<Loaded, Fault>)
    ensures r.Success? ==> Shaped(r.value)
  {
    if xs == [] then Success(Empty)
    else
      var s :- FileAll(xs[..|xs| - 1]);
      File(s, xs[|xs| - 1])
  }

  /** Each decoded entity is what its own row reads as. */
  lemma {:induction false} DecodedRows(rows: seq<string>)
    requires Decoded(rows).Success?
    ensures forall i :: 0 <= i < |rows| ==> ReadRow(rows[i]) == Success(Decoded(rows).value[i])
  {
    if rows != [] {
      var prefix := rows[..|rows| - 1];
      DecodedLast(rows);
      DecodedRows(prefix);
      SnocReads(ReadRow, rows, prefix, Decoded(rows).value, Decoded(prefix).value);
    }
  }

  /** What `read` gives for each row before the last, and for the last, it gives for every row. */
  lemma SnocReads(read: string -> Result<Item, Fault>, rows: seq<string>, prefix: seq<string>, xs: seq<Item>, ys: seq<Item>)
    requires rows != [] && prefix == rows[..|rows| - 1]
    requires |xs| == |rows| && xs[..|xs| - 1] == ys
    requires read(rows[|rows| - 1]) == Success(xs[|xs| - 1])
    requires forall i :: 0 <= i < |prefix| ==> read(prefix[i]) == Success(ys[i])
    ensures forall i :: 0 <= i < |rows| ==> read(rows[i]) == Success(xs[i])
  {
    forall i | 0 <= i < |rows|
      ensures read(rows[i]) == Success(xs[i])
    {
      if i < |prefix| {
        assert rows[i] == prefix[i] && xs[i] == ys[i];
      }
    }
  }

  /** Decoding the rows decodes those before the last, then the last. */
  lemma DecodedLast(rows: seq<string>)
    requires rows != [] && Decoded(rows).Success?
    ensures Decoded(rows[..|rows| - 1]).Success? && ReadRow(rows[|rows| - 1]).Success?
    ensures Decoded(rows).value == Decoded(rows[..|rows| - 1]).value + [ReadRow(rows[|rows| - 1]).value]
  {
  }

  /** A load that succeeds decodes every row and files the entities in file order. */
  lemma {:induction false} ReplayFiles(rows: seq<string>)
    requires Replay(rows).Success?
    ensures Decoded(rows).Success? && Replay(rows) == FileAll(Decoded(rows).value)
  {
    if rows != [] {
      var prefix := rows[..|rows| - 1];
      ReplayFiles(prefix);
      var xs := Decoded(rows).value;
      assert xs[..|xs| - 1] == Decoded(prefix).value;
    }
  }

  /** The ids of the subtasks in `xs` that name epic `eid`, in order. */
  function ChildIds(xs: seq<Item>, eid: int): (r: seq<int>)
    ensures |r| <= |xs|
  {
    if xs == [] then []
    else
      var x := xs[|xs| - 1];
      ChildIds(xs[..|xs| - 1], eid) + (if x.Subtask? && x.epicId == eid then [x.id] else [])
  }

  /** Filing keeps the largest id: never negative, at least every id filed, and one of them unless 0. */
  lemma {:induction false} FiledCounter(xs: seq<Item>)
    requires FileAll(xs).Success?
    ensures var s := FileAll(xs).value;
      && s.maxId >= 0
      && (forall i :: 0 <= i < |xs| ==> xs[i].id <= s.maxId)
      && (s.maxId == 0 || exists i :: 0 <= i < |xs| && xs[i].id == s.maxId)
  {
    if xs != [] {
      var prefix := xs[..|xs| - 1];
      FiledCounter(prefix);
      var p := FileAll(prefix).value;
      var s := FileAll(xs).value;
      assert forall i :: 0 <= i < |prefix| ==> prefix[i] == xs[i];
      if s.maxId != 0 && s.maxId == p.maxId && s.maxId != xs[|xs| - 1].id {
        var i :| 0 <= i < |prefix| && prefix[i].id == p.maxId;
        assert xs[i].id == s.maxId;
      }
    }
  }

  /** An epic filed at position `j` and never replaced lists the subtasks filed after it that name it. */
  lemma {:induction false} FiledLists(xs: seq<Item>, j: int, eid: int)
    requires FileAll(xs).Success?
    requires 0 <= j < |xs| && xs[j].Epic? && xs[j].id == eid && xs[j].subtaskIds == []
    requires forall k :: j < k < |xs| ==> !(xs[k].Epic? && xs[k].id == eid)
    ensures eid in FileAll(xs).value.epics
    ensures FileAll(xs).value.epics[eid].subtaskIds == ChildIds(xs[j + 1..], eid)
  {
    var prefix, x := xs[..|xs| - 1], xs[|xs| - 1];
    FileLast(xs);
    FileEpics(FileAll(prefix).value, x, eid);
    if j == |xs| - 1 {
      assert xs[j + 1..] == [];
    } else {
      assert prefix[j] == xs[j];
      forall k | j < k < |prefix| ensures !(prefix[k].Epic? && prefix[k].id == eid) {
        assert prefix[k] == xs[k];
      }
      FiledLists(prefix, j, eid);
      ChildIdsLast(xs, j, eid);
    }
  }

  /** Filing all entities files those before the last, then the last. */
  lemma FileLast(xs: seq<Item>)
    requires xs != [] && FileAll(xs).Success?
    ensures FileAll(xs[..|xs| - 1]).Success?
    ensures File(FileAll(xs[..|xs| - 1]).value, xs[|xs| - 1]) == FileAll(xs)
  {
  }

  /** Filing `x` puts an epic under its id, and appends a subtask's id to the epic it names. */
  lemma FileEpics(p: Loaded, x: Item, eid: int)
    requires Shaped(p) && File(p, x).Success?
    ensures var s := File(p, x).value;
      x.Epic? && x.id == eid ==> eid in s.epics && s.epics[eid] == x
    ensures var s := File(p, x).value;
      !(x.Epic? && x.id == eid) && eid in p.epics ==>
        eid in s.epics && s.epics[eid].subtaskIds == p.epics[eid].subtaskIds + (if x.Subtask? && x.epicId == eid then [x.id] else [])
  {
  }

  /** The subtasks after position `j` are those before the last one, then the last one if it names `eid`. */
  lemma ChildIdsLast(xs: seq<Item>, j: int, eid: int)
    requires 0 <= j < |xs| - 1
    ensures var x := xs[|xs| - 1];
      ChildIds(xs[j + 1..], eid) == ChildIds(xs[..|xs| - 1][j + 1..], eid) + (if x.Subtask? && x.epicId == eid then [x.id] else [])
  {
    var t := xs[j + 1..];
    assert t[..|t| - 1] == xs[..|xs| - 1][j + 1..];
    assert t[|t| - 1] == xs[|xs| - 1];
  }

  /** An epic as `new Epic(id, title, description)` builds it. */
  predicate Unset(x: Item) {
    x.Epic? ==> x.status == New && x.start.None? && x.duration.None? && x.endTime.None?
  }

  /** Filing never computes an epic's status or times, and the index receives no epic without a start. */
  lemma {:induction false} FiledEpicsUnset(xs: seq<Item>)
    requires FileAll(xs).Success?
    requires forall i :: 0 <= i < |xs| ==> Unset(xs[i])
    ensures var s := FileAll(xs).value;
      && (forall k :: k in s.epics ==> Unset(s.epics[k]))
      && (forall x :: x in s.sorted ==> !x.Epic? && x.start.Some?)
  {
    if xs != [] {
      var prefix := xs[..|xs| - 1];
      assert forall i :: 0 <= i < |prefix| ==> prefix[i] == xs[i];
      FiledEpicsUnset(prefix);
      var p := FileAll(prefix).value;
      var x := xs[|xs| - 1];
      if x.start.Some? {
        assert !x.Epic?;
        InsertedIsPresent(p.sorted, x);
      }
    }
  }

  /** Entities with positive ids, no two alike. */
  ghost predicate DistinctIds(xs: seq<Item>) {
    && (forall i :: 0 <= i < |xs| ==> xs[i].id > 0)
    && (forall i, k :: 0 <= i < k < |xs| ==> xs[i].id != xs[k].id)
  }

  /** Filing entities with distinct positive ids yields stores and an index that keep the manager's invariant. */
  lemma {:induction false} FiledValid(xs: seq<Item>)
    requires FileAll(xs).Success? && DistinctIds(xs)
    requires forall i :: 0 <= i < |xs| ==> Unset(xs[i])
    ensures var s := FileAll(xs).value;
      && Stores(s.tasks, s.epics, s.subtasks, s.maxId)
      && Indexed(s.sorted, s.tasks, s.subtasks)
      && forall k :: k in s.tasks || k in s.epics || k in s.subtasks ==> exists i :: 0 <= i < |xs| && xs[i].id == k
  {
    if xs != [] {
      var prefix, x := xs[..|xs| - 1], xs[|xs| - 1];
      assert forall i :: 0 <= i < |prefix| ==> prefix[i] == xs[i];
      FiledValid(prefix);
      var p := FileAll(prefix).value;
      assert x.id !in p.tasks && x.id !in p.epics && x.id !in p.subtasks;
      FileKeepsValid(p, x);
    }
  }

  /** Filing an entity with a fresh positive id into valid stores keeps them valid and adds exactly its id. */
  lemma FileKeepsValid(p: Loaded, x: Item)
    requires Shaped(p) && Stores(p.tasks, p.epics, p.subtasks, p.maxId) && Indexed(p.sorted, p.tasks, p.subtasks)
    requires x.id > 0 && x.id !in p.tasks && x.id !in p.epics && x.id !in p.subtasks && Unset(x)
    requires File(p, x).Success?
    ensures var s := File(p, x).value;
      && Stores(s.tasks, s.epics, s.subtasks, s.maxId)
      && Indexed(s.sorted, s.tasks, s.subtasks)
      && forall k :: k in s.tasks || k in s.epics || k in s.subtasks ==> k in p.tasks || k in p.epics || k in p.subtasks || k == x.id
  {
    var s := File(p, x).value;
    IndexGrows(p.sorted, p.tasks, p.subtasks, s.tasks, s.subtasks);
    if x.start.Some? {
      assert !x.Epic?;
      IndexInsert(p.sorted, s.tasks, s.subtasks, x);
    }
  }

  /** The entities a successful load decoded, row by row. */
  lemma LoadedEntities(rows: seq<string>) returns (xs: seq<Item>)
    requires Replay(rows).Success?
    ensures Decoded(rows) == Success(xs) && Replay(rows) == FileAll(xs) && |xs| == |rows|
    ensures forall i :: 0 <= i < |rows| ==> ReadRow(rows[i]) == Success(xs[i]) && RowId(rows[i]) == Some(xs[i].id)
    ensures forall i :: 0 <= i < |rows| ==> Unset(xs[i])
  {
    ReplayFiles(rows);
    xs := Decoded(rows).value;
    DecodedRows(rows);
  }

  /**
   * After loading, the counter is the largest row id, or 0 when no id is larger, so the
   * next create hands out one more than every loaded id.
   */
  lemma LoadedCounter(rows: seq<string>)
    requires Replay(rows).Success?
    ensures var s := Replay(rows).value;
      && s.maxId >= 0
      && (forall i :: 0 <= i < |rows| ==> RowId(rows[i]).Some? && RowId(rows[i]).value <= s.maxId)
      && (s.maxId == 0 || exists i :: 0 <= i < |rows| && RowId(rows[i]) == Some(s.maxId))
  {
    var xs := LoadedEntities(rows);
    FiledCounter(xs);
    var s := FileAll(xs).value;
    forall i | 0 <= i < |rows| ensures RowId(rows[i]).Some? && RowId(rows[i]).value <= s.maxId {
      assert RowId(rows[i]) == Some(xs[i].id);
    }
    if s.maxId != 0 {
      var i :| 0 <= i < |xs| && xs[i].id == s.maxId;
      assert RowId(rows[i]) == Some(s.maxId);
    }
  }

  /** A row that reads as the epic with id `eid`. */
  predicate IsEpicRow(line: string, eid: int) {
    ReadRow(line).Success? && ReadRow(line).value.Epic? && ReadRow(line).value.id == eid
  }

  /**
   * A loaded epic lists, in file order, the ids of the subtask rows after its own row that
   * name it; its own row leaves the list empty.
   */
  lemma LoadedLists(rows: seq<string>, j: int, eid: int) returns (xs: seq<Item>)
    requires Replay(rows).Success?
    requires 0 <= j < |rows| && IsEpicRow(rows[j], eid)
    requires forall k :: j < k < |rows| ==> !IsEpicRow(rows[k], eid)
    ensures Decoded(rows) == Success(xs) && |xs| == |rows|
    ensures eid in Replay(rows).value.epics
    ensures Replay(rows).value.epics[eid].subtaskIds == ChildIds(xs[j + 1..], eid)
  {
    xs := LoadedEntities(rows);
    FiledLists(xs, j, eid);
  }

  /**
   * Loading never restores an epic's status or times: every loaded epic is NEW with no start,
   * duration or end, whatever its subtasks, and the index holds only timed tasks and subtasks.
   */
  lemma LoadedEpicsUnset(rows: seq<string>)
    requires Replay(rows).Success?
    ensures var s := Replay(rows).value;
      && (forall k :: k in s.epics ==> Unset(s.epics[k]))
      && (forall x :: x in s.sorted ==> !x.Epic? && x.start.Some?)
  {
    var xs := LoadedEntities(rows);
    FiledEpicsUnset(xs);
  }

  /** Every row carries a positive id that no other row carries, as in a file `save` wrote. */
  predicate FreshIds(rows: seq<string>) {
    && (forall i :: 0 <= i < |rows| ==> RowId(rows[i]).Some? && RowId(rows[i]).value > 0)
    && (forall i, k :: 0 <= i < k < |rows| ==> RowId(rows[i]) != RowId(rows[k]))
  }

  /** Rows with fresh positive ids load into stores and an index that keep the manager's invariant. */
  lemma LoadedValid(rows: seq<string>)
    requires Replay(rows).Success? && FreshIds(rows)
    ensures var s := Replay(rows).value;
      Stores(s.tasks, s.epics, s.subtasks, s.maxId) && Indexed(s.sorted, s.tasks, s.subtasks)
  {
    var xs := LoadedEntities(rows);
    FiledValid(xs);
  }

  /** A task or subtask with a start: what the index is meant to hold. */
  predicate IsTimedEntry(x: Item) {
    !x.Epic? && x.start.Some?
  }

  /** Filing entities with distinct ids stores every task and subtask under its own id. */
  lemma {:induction false} FiledStored(xs: seq<Item>)
    requires FileAll(xs).Success? && DistinctIds(xs)
    ensures var s := FileAll(xs).value;
      forall i :: 0 <= i < |xs| && !xs[i].Epic? ==> Stored(xs[i], s.tasks, s.subtasks)
  {
    if xs != [] {
      var prefix, x := xs[..|xs| - 1], xs[|xs| - 1];
      assert forall i :: 0 <= i < |prefix| ==> prefix[i] == xs[i];
      FiledStored(prefix);
      var p, s := FileAll(prefix).value, FileAll(xs).value;
      FileLast(xs);
      forall i | 0 <= i < |xs| && !xs[i].Epic? ensures Stored(xs[i], s.tasks, s.subtasks) {
        if i < |prefix| {
          assert Stored(prefix[i], p.tasks, p.subtasks) && xs[i].id != x.id;
        }
      }
    }
  }

  /**
   * Filing entities with distinct positive ids gives a complete index, provided no two stored
   * tasks or subtasks share a start.
   */
  lemma {:induction false} FiledComplete(xs: seq<Item>)
    requires FileAll(xs).Success? && DistinctIds(xs)
    requires forall i :: 0 <= i < |xs| ==> Unset(xs[i])
    ensures var s := FileAll(xs).value;
      StartsDistinct(s.tasks, s.subtasks) ==> Complete(s.sorted, s.tasks, s.subtasks)
  {
    if xs != [] {
      var prefix, x := xs[..|xs| - 1], xs[|xs| - 1];
      assert forall i :: 0 <= i < |prefix| ==> prefix[i] == xs[i];
      FiledComplete(prefix);
      FiledValid(prefix);
      var p := FileAll(prefix).value;
      assert x.id !in p.tasks && x.id !in p.epics && x.id !in p.subtasks;
      FileKeepsComplete(p, x);
    }
  }

  /** Filing one more entity with a fresh id keeps the index complete under distinct starts. */
  lemma FileKeepsComplete(p: Loaded, x: Item)
    requires Shaped(p) && Stores(p.tasks, p.epics, p.subtasks, p.maxId) && Indexed(p.sorted, p.tasks, p.subtasks)
    requires x.id !in p.tasks && x.id !in p.epics && x.id !in p.subtasks && Unset(x)
    requires File(p, x).Success?
    requires StartsDistinct(p.tasks, p.subtasks) ==> Complete(p.sorted, p.tasks, p.subtasks)
    ensures var s := File(p, x).value;
      StartsDistinct(s.tasks, s.subtasks) ==> Complete(s.sorted, s.tasks, s.subtasks)
  {
    var s := File(p, x).value;
    if StartsDistinct(s.tasks, s.subtasks) && !x.Epic? {
      forall y | Stored(y, p.tasks, p.subtasks) ensures Stored(y, s.tasks, s.subtasks) {
      }
      assert StartsDistinct(p.tasks, p.subtasks);
      CreatedComplete(p.sorted, p.tasks, p.subtasks, x, s.tasks, s.subtasks);
    }
  }

  /** Rows with fresh positive ids load into a complete index when no two loaded tasks or subtasks share a start. */
  lemma LoadedComplete(rows: seq<string>)
    requires Replay(rows).Success? && FreshIds(rows)
    ensures var s := Replay(rows).value;
      StartsDistinct(s.tasks, s.subtasks) ==> Complete(s.sorted, s.tasks, s.subtasks)
  {
    var xs := LoadedEntities(rows);
    FiledComplete(xs);
  }

  /**
   * Rows with fresh positive ids, no two loaded tasks or subtasks sharing a start: every TASK
   * and SUBTASK row with a start enters the index.
   */
  lemma LoadedRowsIndexed(rows: seq<string>)
    requires Replay(rows).Success? && FreshIds(rows)
    ensures var s := Replay(rows).value;
      StartsDistinct(s.tasks, s.subtasks) ==>
        forall i :: 0 <= i < |rows| && ReadRow(rows[i]).Success? && IsTimedEntry(ReadRow(rows[i]).value) ==>
          ReadRow(rows[i]).value in s.sorted
  {
    var xs := LoadedEntities(rows);
    FiledComplete(xs);
    FiledStored(xs);
  }

  // ---------------------------------------------------------------- saving

  /** The rows `render` writes for the values of `m`, taken in the given key order. */
  function Rendered(order: seq<int>, m: map<int, Item>, render: Item -> string): (r: seq<string>)
    requires forall i :: 0 <= i < |order| ==> order[i] in m
    ensures |r| == |order|
    ensures forall i :: 0 <= i < |order| ==> r[i] == render(m[order[i]])
  {
    if order == [] then []
    else Rendered(order[..|order| - 1], m, render) + [render(m[order[|order| - 1]])]
  }

  /** One loop of `save` over a map: a row per value, in the map's (unspecified) key order. */
  method WriteRows(m: map<int, Item>, render: Item -> string) returns (rows: seq<string>, ghost order: seq<int>)
    ensures Seqs.Enumerates(order, m) && rows == Rendered(order, m, render)
  {
    rows, order := [], [];
    var rest := m.Keys;
    while rest != {}
      invariant rest <= m.Keys
      invariant forall k :: k in m <==> k in order || k in rest
      invariant forall i :: 0 <= i < |order| ==> order[i] in m
      invariant forall k :: k in order ==> k !in rest
      invariant forall i, j :: 0 <= i < j < |order| ==> order[i] != order[j]
      invariant |order| + |rest| == |m.Keys|
      invariant rows == Rendered(order, m, render)
      decreases rest
    {
      Seqs.HasElement(rest);
      var id :| id in rest;
      rows := rows + [render(m[id])];
      order := order + [id];
      rest := rest - {id};
    }
  }

  /** A file as `save` writes it: the header, then every task, every epic and every subtask. */
  ghost predicate Saved(file: seq<string>, tasks: map<int, Item>, epics: map<int, Item>, subtasks: map<int, Item>) {
    exists ot: seq<int>, oe: seq<int>, os: seq<int> ::
      && Seqs.Enumerates(ot, tasks) && Seqs.Enumerates(oe, epics) && Seqs.Enumerates(os, subtasks)
      && file == [Header] + Rendered(ot, tasks, ToRow) + Rendered(oe, epics, ToRow) + Rendered(os, subtasks, ToRow)
  }

  /** `save`: the header, then the tasks, the epics and the subtasks, each group in its map's order. */
  method SaveRows(tasks: map<int, Item>, epics: map<int, Item>, subtasks: map<int, Item>) returns (file: seq<string>)
    ensures Saved(file, tasks, epics, subtasks)
  {
    var t, ot := WriteRows(tasks, ToRow);
    var e, oe := WriteRows(epics, ToRow);
    var s, os := WriteRows(subtasks, ToRow);
    file := [Header] + t + e + s;
  }
}
