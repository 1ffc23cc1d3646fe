/**
 * The earlier snapshot format (`src/FileBackedTaskManager.java`), written before entities had
 * times: a TASK or EPIC row has five columns, a SUBTASK row six, the last being its epic id.
 * Loading fills the three stores and the counter; there is no index to fill, and a row whose
 * type column is none of the three tags is skipped after its id has been counted.
 */
module LegacyCodec {
  import opened Wrappers
  import opened Model
  import opened Codec
  import Seqs
  import Snapshot

  /** The header line of the earlier format. */
  const LegacyHeader: string := "id,type,name,status,description,epic"

  // ---------------------------------------------------------------- rows

  /** The fields the earlier `toString` writes, in column order. */
  function LegacyRowFields(x: Item): (r: seq<string>)
    ensures |r| >= 5 && r[0] == IntText(x.id) && r[1] == TypeTag(x)
    ensures r[2] == x.title && r[3] == StatusText(x.status) && r[4] == x.description
  {
    match x
    case Task(id, title, description, status, _, _) =>
      [IntText(id), "TASK", title, StatusText(status), description]
    case Epic(id, title, description, status, _, _, _, _) =>
      [IntText(id), "EPIC", title, StatusText(status), description]
    case Subtask(id, title, description, status, _, _, epicId) =>
      [IntText(id), "SUBTASK", title, StatusText(status), description, IntText(epicId)]
  }

  /** The earlier `toString`: one row per entity, without times. */
  function LegacyToRow(x: Item): string {
    Join(LegacyRowFields(x))
  }

  /**
   * The earlier `fromString`: the entity a row denotes, with no times. The constructor
   * arguments are read in Java's order (id, title, description, status, epic id).
   */
  function LegacyFromRow(line: string): (r: Result<Item, Fault>)
    ensures r.Success? ==> |Split(line)| >= 2 && Split(line)[1] == TypeTag(r.value)
    ensures r.Success? ==> ParseInt(Split(line)[0]) == Some(r.value.id)
    ensures r.Success? ==> r.value.start.None? && r.value.duration.None?
    ensures r.Success? && r.value.Epic? ==> r.value == FreshEpic(r.value.id, r.value.title, r.value.description)
    ensures |Split(line)| >= 2 && Split(line)[1] !in {"TASK", "EPIC", "SUBTASK"} ==>
      r == Failure(UnknownType(Split(line)[1]))
    ensures |Split(line)| < 2 ==> r == Failure(MissingField(1))
  {
    var val := Split(line);
    var tag :- Field(val, 1);
    if tag == "TASK" then
      var id :- IntField(val, 0);
      var title :- Field(val, 2);
      var description :- Field(val, 4);
      var status :- StatusField(val, 3);
      Success(Task(id, title, description, status, None, None))
    else if tag == "EPIC" then
      var id :- IntField(val, 0);
      var title :- Field(val, 2);
      var description :- Field(val, 4);
      Success(FreshEpic(id, title, description))
    else if tag == "SUBTASK" then
      var id :- IntField(val, 0);
      var title :- Field(val, 2);
      var description :- Field(val, 4);
      var status :- StatusField(val, 3);
      var epicId :- IntField(val, 5);
      Success(Subtask(id, title, description, status, None, None, epicId))
    else
      Failure(UnknownType(tag))
  }

  /** An entity of the earlier model: no start and no duration, and an epic has no end either. */
  predicate Timeless(x: Item) {
    x.start.None? && x.duration.None? && (x.Epic? ==> x.endTime.None?)
  }

  /** The written fields hold no comma when the entity's texts hold none. */
  lemma LegacyRowFieldsPlain(x: Item)
    requires NoComma(x.title) && NoComma(x.description)
    ensures forall i :: 0 <= i < |LegacyRowFields(x)| ==> NoComma(LegacyRowFields(x)[i])
  {
  }

  /** A task row reads back as the same task when its description is not empty. */
  lemma LegacyTaskRoundTrip(x: Item)
    requires x.Task? && Timeless(x) && NoComma(x.title) && NoComma(x.description) && x.description != ""
    requires IntMin <= x.id <= IntMax
    ensures LegacyFromRow(LegacyToRow(x)) == Success(x)
  {
    var val := LegacyRowFields(x);
    LegacyRowFieldsPlain(x);
    SplitJoin(val);
    IntFieldText(val, 0, x.id);
    StatusRoundTrip(x.status, val[3]);
  }

  /** A task with an empty description cannot be read back: `split` drops the empty last column. */
  lemma LegacyTaskEmptyDescription(x: Item)
    requires x.Task? && NoComma(x.title) && x.description == ""
    requires IntMin <= x.id <= IntMax
    ensures LegacyFromRow(LegacyToRow(x)) == Failure(MissingField(4))
  {
    var val := LegacyRowFields(x);
    LegacyRowFieldsPlain(x);
    SplitJoinEmptyLast(val);
    IntFieldText(val, 0, x.id);
  }

  /** A subtask row reads back as the same subtask, its epic id included, whatever its description. */
  lemma LegacySubtaskRoundTrip(x: Item)
    requires x.Subtask? && Timeless(x) && NoComma(x.title) && NoComma(x.description)
    requires IntMin <= x.id <= IntMax && IntMin <= x.epicId <= IntMax
    ensures LegacyFromRow(LegacyToRow(x)) == Success(x)
  {
    var val := LegacyRowFields(x);
    LegacyRowFieldsPlain(x);
    SplitJoin(val);
    IntFieldText(val, 0, x.id);
    StatusRoundTrip(x.status, val[3]);
    IntFieldText(val, 5, x.epicId);
  }

  /** An epic row reads back as a fresh epic: the written status and the subtask list are dropped. */
  lemma LegacyEpicRoundTrip(x: Item)
    requires x.Epic? && NoComma(x.title) && NoComma(x.description) && x.description != ""
    requires IntMin <= x.id <= IntMax
    ensures LegacyFromRow(LegacyToRow(x)) == Success(FreshEpic(x.id, x.title, x.description))
  {
    LegacyRowFieldsPlain(x);
    SplitJoin(LegacyRowFields(x));
    IntFieldText(LegacyRowFields(x), 0, x.id);
  }

  /**
   * The two formats do not mix: the current reader runs out of columns on an earlier task or
   * subtask row, where it looks for the start time.
   */
  lemma LegacyRowNotCurrent(x: Item)
    requires !x.Epic? && NoComma(x.title) && NoComma(x.description) && x.description != ""
    requires IntMin <= x.id <= IntMax && (x.Subtask? ==> IntMin <= x.epicId <= IntMax)
    ensures FromRow(LegacyToRow(x)) == Failure(MissingField(if x.Task? then 5 else 6))
  {
    var val := LegacyRowFields(x);
    LegacyRowFieldsPlain(x);
    SplitJoin(val);
    assert Split(LegacyToRow(x)) == val;
    IntFieldText(val, 0, x.id);
    StatusRoundTrip(x.status, val[3]);
    if x.Subtask? {
      IntFieldText(val, 5, x.epicId);
      assert StartField(val, 6) == Failure(MissingField(6));
    } else {
      assert StartField(val, 5) == Failure(MissingField(5));
    }
  }

  // ---------------------------------------------------------------- loading

  /** What the earlier `loadFromFile` fills in: the three stores and the largest id seen. */
  datatype LegacyLoaded = LegacyLoaded(tasks: map<int, Item>, epics: map<int, Item>,
                                       subtasks: map<int, Item>, maxId: int)

  const LegacyEmpty: LegacyLoaded := LegacyLoaded(map[], map[], map[], 0)

  /** The epic store holds epics only. */
  ghost predicate EpicsShaped(epics: map<int, Item>) {
    forall k :: k in epics ==> epics[k].Epic?
  }

  /**
   * One pass of the read loop: the type column, then the id, which is counted whatever the
   * type; a TASK or EPIC row is decoded and put under that id, a SUBTASK row too, and its id
   * is appended to its epic's list, which throws when that epic is not loaded. Any other
   * type is skipped.
   */
  function LegacyStep(s: LegacyLoaded, line: string): (r: Result<LegacyLoaded, Fault>)
    requires EpicsShaped(s.epics)
    ensures r.Success? ==> EpicsShaped(r.value.epics)
    ensures r.Success? ==> Snapshot.RowId(line).Some?
    ensures r.Success? ==> var id := Snapshot.RowId(line).value;
      r.value.maxId == (if s.maxId >= id then s.maxId else id)
  {
    var val := Split(line);
    var tag :- Field(val, 1);
    var id :- IntField(val, 0);
    var maxId := if s.maxId >= id then s.maxId else id;
    if tag == "TASK" then
      var x :- LegacyFromRow(line);
      Success(s.(tasks := s.tasks[id := x], maxId := maxId))
    else if tag == "EPIC" then
      var x :- LegacyFromRow(line);
      Success(s.(epics := s.epics[id := x], maxId := maxId))
    else if tag == "SUBTASK" then
      var x :- LegacyFromRow(line);
      if x.epicId !in s.epics then Failure(MissingEpic(x.epicId))
      else
        var e := s.epics[x.epicId];
        Success(s.(subtasks := s.subtasks[id := x],
                   epics := s.epics[x.epicId := e.(subtaskIds := e.subtaskIds + [id])],
                   maxId := maxId))
    else
      Success(s.(maxId := maxId))
  }

  /** The rows read in file order from an empty manager; the first exception ends the load. */
  function LegacyReplay(rows: seq<string>): (r: Result<LegacyLoaded, Fault>)
    ensures r.Success? ==> EpicsShaped(r.value.epics)
  {
    if rows == [] then Success(LegacyEmpty)
    else
      var s :- LegacyReplay(rows[..|rows| - 1]);
      LegacyStep(s, rows[|rows| - 1])
  }

  /** The earlier `loadFromFile`: the header line is skipped, then every row is read. */
  function LegacyLoad(lines: seq<string>): Result<LegacyLoaded, Fault> {
    LegacyReplay(Snapshot.Rows(lines))
  }

  /** Once a prefix of the rows fails, the whole load fails with the same fault. */
  lemma {:induction false} LegacyFailureSticks(rows: seq<string>, n: int)
    requires 0 <= n <= |rows| && LegacyReplay(rows[..n]).Failure?
    ensures LegacyReplay(rows) == LegacyReplay(rows[..n])
    decreases |rows|
  {
    if n < |rows| {
      var prefix := rows[..|rows| - 1];
      assert prefix[..n] == rows[..n];
      LegacyFailureSticks(prefix, n);
    } else {
      assert rows[..n] == rows;
    }
  }

  /** The read loop of the earlier `loadFromFile`, over the rows after the header. */
  method ReadLegacyRows(rows: seq<string>) returns (r: Result<LegacyLoaded, Fault>)
    ensures r == LegacyReplay(rows)
  {
    var tasks: map<int, Item>, epics: map<int, Item>, subtasks: map<int, Item> := map[], map[], map[];
    var maxId := 0;
    var i := 0;
    while i < |rows|
      invariant 0 <= i <= |rows|
      invariant LegacyReplay(rows[..i]) == Success(LegacyLoaded(tasks, epics, subtasks, maxId))
    {
      ghost var before := LegacyLoaded(tasks, epics, subtasks, maxId);
      LegacyReplayNext(rows, i, before);
      var line := rows[i];
      LegacyRowChecks(before, line);
      var val := Split(line);
      if |val| < 2 {
        LegacyFailureSticks(rows, i + 1);
        return Failure(MissingField(1));
      }
      var taskType := val[1];
      var parsed := ParseInt(val[0]);
      if parsed.None? {
        LegacyFailureSticks(rows, i + 1);
        return Failure(BadNumber(val[0]));
      }
      var taskId := parsed.value;
      maxId := if maxId >= taskId then maxId else taskId;
      if taskType == "TASK" || taskType == "EPIC" || taskType == "SUBTASK" {
        var task := LegacyFromRow(line);
        if task.Failure? {
          LegacyFailureSticks(rows, i + 1);
          return Failure(task.error);
        }
        var x := task.value;
        if taskType == "TASK" {
          tasks := tasks[taskId := x];
        } else if taskType == "EPIC" {
          epics := epics[taskId := x];
        } else {
          subtasks := subtasks[taskId := x];
          if x.epicId !in epics {
            LegacyFailureSticks(rows, i + 1);
            return Failure(MissingEpic(x.epicId));
          }
          epics := epics[x.epicId := epics[x.epicId].(subtaskIds := epics[x.epicId].subtaskIds + [taskId])];
        }
      }
      i := i + 1;
    }
    assert rows[..i] == rows;
    r := Success(LegacyLoaded(tasks, epics, subtasks, maxId));
  }

  /** Reading one more row is one more step of the read loop. */
  lemma LegacyReplayNext(rows: seq<string>, i: int, s: LegacyLoaded)
    requires 0 <= i < |rows| && LegacyReplay(rows[..i]) == Success(s)
    ensures EpicsShaped(s.epics) && LegacyReplay(rows[..i + 1]) == LegacyStep(s, rows[i])
  {
    assert rows[..i + 1][..i] == rows[..i];
  }

  /** The checks a read step makes, in order, before the row is decoded. */
  lemma LegacyRowChecks(s: LegacyLoaded, line: string)
    requires EpicsShaped(s.epics)
    ensures |Split(line)| < 2 ==> LegacyStep(s, line) == Failure(MissingField(1))
    ensures |Split(line)| >= 2 && ParseInt(Split(line)[0]).None? ==> LegacyStep(s, line) == Failure(BadNumber(Split(line)[0]))
  {
  }

  /** A row whose type column is none of the three tags only raises the counter. */
  lemma UnknownRowSkipped(s: LegacyLoaded, line: string)
    requires EpicsShaped(s.epics)
    requires |Split(line)| >= 2 && Split(line)[1] !in {"TASK", "EPIC", "SUBTASK"}
    requires Snapshot.RowId(line).Some?
    ensures var id := Snapshot.RowId(line).value;
      LegacyStep(s, line) == Success(s.(maxId := if s.maxId >= id then s.maxId else id))
  {
  }

  /** The row carries an id no larger than `m`. */
  predicate IdAtMost(line: string, m: int) {
    Snapshot.RowId(line).Some? && Snapshot.RowId(line).value <= m
  }

  /** The row carries the id `m`. */
  predicate IdIs(line: string, m: int) {
    Snapshot.RowId(line) == Some(m)
  }

  /** A successful load reads every row after the rows before it. */
  lemma ReplayLast(rows: seq<string>)
    requires rows != [] && LegacyReplay(rows).Success?
    ensures LegacyReplay(rows[..|rows| - 1]).Success?
    ensures LegacyStep(LegacyReplay(rows[..|rows| - 1]).value, rows[|rows| - 1]) == LegacyReplay(rows)
  {
  }

  /** After loading, the counter is at least 0 and at least every row id, skipped rows included. */
  lemma {:induction false} LegacyCounterBounds(rows: seq<string>)
    requires LegacyReplay(rows).Success?
    ensures var s := LegacyReplay(rows).value;
      s.maxId >= 0 && forall i :: 0 <= i < |rows| ==> IdAtMost(rows[i], s.maxId)
  {
    if rows != [] {
      var prefix, last := rows[..|rows| - 1], rows[|rows| - 1];
      ReplayLast(rows);
      LegacyCounterBounds(prefix);
      var p, s := LegacyReplay(prefix).value, LegacyReplay(rows).value;
      LastCounted(p, last);
      SnocAtMost(rows, prefix, p.maxId, s.maxId);
    }
  }

  lemma SnocAtMost(rows: seq<string>, prefix: seq<string>, m: int, n: int)
    requires rows != [] && prefix == rows[..|rows| - 1]
    requires m <= n && IdAtMost(rows[|rows| - 1], n)
    requires forall i :: 0 <= i < |prefix| ==> IdAtMost(prefix[i], m)
    ensures forall i :: 0 <= i < |rows| ==> IdAtMost(rows[i], n)
  {
    forall i | 0 <= i < |rows|
      ensures IdAtMost(rows[i], n)
    {
      if i < |rows| - 1 {
        assert rows[i] == prefix[i];
        AtMostGrows(rows[i], m, n);
      }
    }
  }

  /** One read step keeps the counter and raises it to the row's id. */
  lemma LastCounted(p: LegacyLoaded, line: string)
    requires EpicsShaped(p.epics) && LegacyStep(p, line).Success?
    ensures p.maxId <= LegacyStep(p, line).value.maxId
    ensures IdAtMost(line, LegacyStep(p, line).value.maxId)
  {
  }

  lemma AtMostGrows(line: string, m: int, n: int)
    requires IdAtMost(line, m) && m <= n
    ensures IdAtMost(line, n)
  {
  }

  /** After loading, the counter is 0 or the id of some row, so it is the largest row id. */
  lemma {:induction false} LegacyCounterAttained(rows: seq<string>)
    requires LegacyReplay(rows).Success?
    ensures var m := LegacyReplay(rows).value.maxId;
      m == 0 || exists i :: 0 <= i < |rows| && IdIs(rows[i], m)
  {
    if rows != [] {
      var prefix := rows[..|rows| - 1];
      var last := rows[|rows| - 1];
      ReplayLast(rows);
      LegacyCounterAttained(prefix);
      var m := LegacyReplay(prefix).value.maxId;
      if !IdIs(last, LegacyReplay(rows).value.maxId) && m != 0 {
        var i :| 0 <= i < |prefix| && IdIs(prefix[i], m);
        assert rows[i] == prefix[i];
      }
    }
  }

  /** A row that the earlier loader files as the epic with id `eid`. */
  predicate IsLegacyEpicRow(line: string, eid: int) {
    && |Split(line)| >= 2 && Split(line)[1] == "EPIC"
    && LegacyFromRow(line).Success? && LegacyFromRow(line).value.id == eid
  }

  /** A row that the earlier loader files as a subtask of the epic with id `eid`. */
  predicate IsLegacySubtaskRow(line: string, eid: int) {
    && |Split(line)| >= 2 && Split(line)[1] == "SUBTASK"
    && LegacyFromRow(line).Success? && LegacyFromRow(line).value.epicId == eid
  }

  /** What one row adds to the list of epic `eid`: its id when it is filed as a subtask of it. */
  function LegacyChildOf(line: string, eid: int): (r: seq<int>)
    ensures |r| <= 1
  {
    if IsLegacySubtaskRow(line, eid) then [LegacyFromRow(line).value.id] else []
  }

  /** The ids of the rows in `rows` filed as subtasks of epic `eid`, in file order. */
  function LegacyChildIds(rows: seq<string>, eid: int): (r: seq<int>)
    ensures |r| <= |rows|
  {
    if rows == [] then []
    else LegacyChildIds(rows[..|rows| - 1], eid) + LegacyChildOf(rows[|rows| - 1], eid)
  }

  /** What one row does to the list of epic `eid`. */
  lemma StepList(s: LegacyLoaded, line: string, eid: int)
    requires EpicsShaped(s.epics) && LegacyStep(s, line).Success?
    ensures IsLegacyEpicRow(line, eid) ==>
      eid in LegacyStep(s, line).value.epics && LegacyStep(s, line).value.epics[eid].subtaskIds == []
    ensures !IsLegacyEpicRow(line, eid) && eid in s.epics ==>
      && eid in LegacyStep(s, line).value.epics
      && LegacyStep(s, line).value.epics[eid].subtaskIds
         == s.epics[eid].subtaskIds + LegacyChildOf(line, eid)
  {
    var val := Split(line);
    if val[1] == "SUBTASK" {
      var x := LegacyFromRow(line).value;
      assert x.Subtask? && ParseInt(val[0]) == Some(x.id);
      assert LegacyChildOf(line, eid) == if x.epicId == eid then [x.id] else [];
    } else {
      assert !IsLegacySubtaskRow(line, eid);
    }
  }

  /**
   * A loaded epic lists, in file order, the ids of the subtask rows after its own row that
   * name it; its own row leaves the list empty.
   */
  lemma {:induction false} LegacyLists(rows: seq<string>, j: int, eid: int)
    requires LegacyReplay(rows).Success?
    requires 0 <= j < |rows| && IsLegacyEpicRow(rows[j], eid)
    requires forall k :: j < k < |rows| ==> !IsLegacyEpicRow(rows[k], eid)
    ensures eid in LegacyReplay(rows).value.epics
    ensures LegacyReplay(rows).value.epics[eid].subtaskIds == LegacyChildIds(rows[j + 1..], eid)
  {
    ReplayLast(rows);
    var prefix, last := rows[..|rows| - 1], rows[|rows| - 1];
    StepList(LegacyReplay(prefix).value, last, eid);
    if j == |rows| - 1 {
      assert rows[j + 1..] == [];
    } else {
      assert prefix[j] == rows[j];
      forall k | j < k < |prefix|
        ensures !IsLegacyEpicRow(prefix[k], eid)
      {
        assert prefix[k] == rows[k];
      }
      LegacyLists(prefix, j, eid);
      ChildIdsLast(rows, j, eid);
    }
  }

  /** The subtask ids after row `j` are those before the last row, then the last row's own. */
  lemma ChildIdsLast(rows: seq<string>, j: int, eid: int)
    requires 0 <= j < |rows| - 1
    ensures LegacyChildIds(rows[j + 1..], eid)
         == LegacyChildIds(rows[..|rows| - 1][j + 1..], eid) + LegacyChildOf(rows[|rows| - 1], eid)
  {
    var t := rows[j + 1..];
    assert t[..|t| - 1] == rows[..|rows| - 1][j + 1..];
    assert t[|t| - 1] == rows[|rows| - 1];
  }

  // ---------------------------------------------------------------- saving

  /** A file as the earlier `save` writes it: its header, then every task, epic and subtask. */
  ghost predicate LegacySaved(file: seq<string>, tasks: map<int, Item>, epics: map<int, Item>, subtasks: map<int, Item>) {
    exists ot: seq<int>, oe: seq<int>, os: seq<int> ::
      && Seqs.Enumerates(ot, tasks) && Seqs.Enumerates(oe, epics) && Seqs.Enumerates(os, subtasks)
      && file == [LegacyHeader] + Snapshot.Rendered(ot, tasks, LegacyToRow)
                 + Snapshot.Rendered(oe, epics, LegacyToRow) + Snapshot.Rendered(os, subtasks, LegacyToRow)
  }

  /** The earlier `save`: the header, then the tasks, the epics and the subtasks, each in its map's order. */
  method LegacySaveRows(tasks: map<int, Item>, epics: map<int, Item>, subtasks: map<int, Item>)
    returns (file: seq<string>)
    ensures LegacySaved(file, tasks, epics, subtasks)
  {
    var t, ot := Snapshot.WriteRows(tasks, LegacyToRow);
    var e, oe := Snapshot.WriteRows(epics, LegacyToRow);
    var s, os := Snapshot.WriteRows(subtasks, LegacyToRow);
    file := [LegacyHeader] + t + e + s;
  }
}
