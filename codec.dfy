/**
 * One CSV row per entity, as `FileBackedTaskManager.toString` writes it and `fromString`
 * reads it back. A row is the line without its terminating newline.
 *
 * Splitting follows Java's `String.split(",")`, which drops trailing empty fields; numbers
 * follow `String.valueOf` and `Integer.parseInt`/`Long.parseLong`. A timestamp is written as
 * its decimal minute count, an injective stand-in for the ISO-8601 text of `LocalDateTime`.
 */
module Codec {
  import opened Wrappers
  import opened Model

  /** The exception a row can raise while it is read. */
  datatype Fault =
    | MissingField(index: int)   // ArrayIndexOutOfBoundsException on `val[index]`
    | BadNumber(text: string)    // NumberFormatException from parseInt / parseLong
    | BadStatus(text: string)    // IllegalArgumentException from TaskStatus.valueOf
    | BadTime(text: string)      // DateTimeParseException from LocalDateTime.parse
    | UnknownType(tag: string)   // IllegalArgumentException("Unknown task type")
    | MissingEpic(epicId: int)   // NullPointerException: a subtask row names an epic not loaded
    | TooLong(minutes: int)      // ArithmeticException from Duration.ofMinutes: the seconds overflow a long

  /** Text with no field separator in it. */
  predicate NoComma(s: string) {
    ',' !in s
  }

  // ---------------------------------------------------------------- splitting and joining

  /** Every piece between commas, empty ones included. */
  function Pieces(s: string): (r: seq<string>)
    ensures |r| >= 1
    ensures forall i :: 0 <= i < |r| ==> NoComma(r[i])
  {
    if s == [] then [""]
    else
      var rest := Pieces(s[1..]);
      if s[0] == ',' then [""] + rest
      else [[s[0]] + rest[0]] + rest[1..]
  }

  /** The fields written one after another with a comma between each two. */
  function Join(fields: seq<string>): (r: string)
    requires |fields| >= 1
    ensures |fields| == 1 ==> r == fields[0]
  {
    if |fields| == 1 then fields[0] else fields[0] + "," + Join(fields[1..])
  }

  /** The list without its trailing empty strings. */
  function DropTrailingEmpty(ps: seq<string>): (r: seq<string>)
    ensures |r| <= |ps| && r == ps[..|r|]
    ensures r == [] || r[|r| - 1] != ""
    ensures forall i :: |r| <= i < |ps| ==> ps[i] == ""
  {
    if |ps| > 0 && ps[|ps| - 1] == "" then DropTrailingEmpty(ps[..|ps| - 1]) else ps
  }

  /** Java's `s.split(",")`: the input itself when it has no comma, else the pieces less trailing empties. */
  function Split(s: string): (r: seq<string>)
  {
    if ',' !in s then [s] else DropTrailingEmpty(Pieces(s))
  }

  /** Text with no comma is a single piece. */
  lemma {:induction false} PiecesOfPlain(s: string)
    requires NoComma(s)
    ensures Pieces(s) == [s]
  {
    if s != [] {
      assert s[0] != ',' && NoComma(s[1..]);
      PiecesOfPlain(s[1..]);
      assert [s[0]] + s[1..] == s;
    }
  }

  /** A comma-free prefix followed by a comma is the first piece. */
  lemma {:induction false} PiecesCons(a: string, b: string)
    requires NoComma(a)
    ensures Pieces(a + "," + b) == [a] + Pieces(b)
  {
    if a == [] {
      assert a + "," + b == [','] + b;
      assert ([','] + b)[1..] == b;
    } else {
      assert (a + "," + b)[1..] == a[1..] + "," + b;
      PiecesCons(a[1..], b);
      assert [a[0]] + a[1..] == a;
    }
  }

  /** Splitting undoes joining into pieces when no field holds a comma. */
  lemma {:induction false} PiecesJoin(fields: seq<string>)
    requires |fields| >= 1
    requires forall i :: 0 <= i < |fields| ==> NoComma(fields[i])
    ensures Pieces(Join(fields)) == fields
  {
    if |fields| == 1 {
      PiecesOfPlain(fields[0]);
    } else {
      PiecesJoin(fields[1..]);
      PiecesCons(fields[0], Join(fields[1..]));
    }
  }

  /** Joined text has a comma exactly when there are two fields or more. */
  lemma JoinHasComma(fields: seq<string>)
    requires |fields| >= 2
    ensures ',' in Join(fields)
  {
    assert Join(fields)[|fields[0]|] == ',';
  }

  /** `split` reads back every field written by a join, as long as the last one is not empty. */
  lemma SplitJoin(fields: seq<string>)
    requires |fields| >= 1
    requires forall i :: 0 <= i < |fields| ==> NoComma(fields[i])
    requires fields[|fields| - 1] != ""
    ensures Split(Join(fields)) == fields
  {
    PiecesJoin(fields);
    if |fields| >= 2 {
      JoinHasComma(fields);
    }
  }

  /** An empty last field is lost: `split` returns one field fewer. */
  lemma SplitJoinEmptyLast(fields: seq<string>)
    requires |fields| >= 2
    requires forall i :: 0 <= i < |fields| ==> NoComma(fields[i])
    requires fields[|fields| - 1] == "" && fields[|fields| - 2] != ""
    ensures Split(Join(fields)) == fields[..|fields| - 1]
  {
    PiecesJoin(fields);
    JoinHasComma(fields);
  }

  // ---------------------------------------------------------------- numbers

  predicate IsDigit(c: char) {
    '0' <= c <= '9'
  }

  predicate AllDigits(s: string) {
    forall i :: 0 <= i < |s| ==> IsDigit(s[i])
  }

  function DigitChar(d: int): (c: char)
    requires 0 <= d < 10
    ensures IsDigit(c) && c as int - '0' as int == d
  {
    ('0' as int + d) as char
  }

  /** The decimal digits of `n`, most significant first, with no leading zero. */
  function Digits(n: nat): (r: string)
    ensures |r| >= 1 && AllDigits(r)
    ensures r[0] == '0' ==> n == 0
    decreases n
  {
    if n < 10 then [DigitChar(n)] else Digits(n / 10) + [DigitChar(n % 10)]
  }

  /** The number a string of decimal digits denotes. */
  function Value(s: string): nat
    requires AllDigits(s)
  {
    if s == [] then 0 else Value(s[..|s| - 1]) * 10 + (s[|s| - 1] as int - '0' as int)
  }

  /** Reading the digits of a number gives the number back. */
  lemma {:induction false} ValueDigits(n: nat)
    ensures Value(Digits(n)) == n
    decreases n
  {
    if n >= 10 {
      var d := Digits(n);
      ValueDigits(n / 10);
      assert d[..|d| - 1] == Digits(n / 10);
    }
  }

  /** `%d` and `String.valueOf`: an optional minus sign, then the digits. */
  function IntText(n: int): (r: string)
    ensures NoComma(r) && r != "" && r != "null"
  {
    var d := Digits(if n < 0 then -n else n);
    assert IsDigit(d[0]) && d[0] != "null"[0];
    if n < 0 then "-" + d else d
  }

  /** The number grammar of `parseInt` and `parseLong`: an optional sign and at least one digit. */
  function ParseDecimal(s: string): (r: Option<int>)
  {
    if |s| >= 1 && (s[0] == '-' || s[0] == '+') then
      if |s| >= 2 && AllDigits(s[1..]) then
        var v: int := Value(s[1..]);
        Some(if s[0] == '-' then -v else v)
      else None
    else if |s| >= 1 && AllDigits(s) then Some(Value(s))
    else None
  }

  const IntMin: int := -0x8000_0000
  const IntMax: int := 0x7fff_ffff
  const LongMin: int := -0x8000_0000_0000_0000
  const LongMax: int := 0x7fff_ffff_ffff_ffff

  /** `Integer.parseInt`: the grammar, and a value within 32 bits. */
  function ParseInt(s: string): (r: Option<int>)
    ensures r.Some? ==> IntMin <= r.value <= IntMax && ParseDecimal(s) == r
    ensures r.None? ==> ParseDecimal(s).None? || !(IntMin <= ParseDecimal(s).value <= IntMax)
  {
    match ParseDecimal(s)
    case Some(v) => if IntMin <= v <= IntMax then Some(v) else None
    case None => None
  }

  /** `Long.parseLong`: the grammar, and a value within 64 bits. */
  function ParseLong(s: string): (r: Option<int>)
    ensures r.Some? ==> LongMin <= r.value <= LongMax && ParseDecimal(s) == r
    ensures r.None? ==> ParseDecimal(s).None? || !(LongMin <= ParseDecimal(s).value <= LongMax)
  {
    match ParseDecimal(s)
    case Some(v) => if LongMin <= v <= LongMax then Some(v) else None
    case None => None
  }

  /** Every number reads back from its own text. */
  lemma ParseDecimalText(n: int)
    ensures ParseDecimal(IntText(n)) == Some(n)
  {
    var m: nat := if n < 0 then -n else n;
    ValueDigits(m);
    if n < 0 {
      ParseSigned(Digits(m));
    } else {
      ParseUnsigned(Digits(m));
    }
  }

  lemma ParseUnsigned(d: string)
    requires |d| >= 1 && AllDigits(d)
    ensures ParseDecimal(d) == Some(Value(d))
  {
    assert IsDigit(d[0]);
  }

  lemma ParseSigned(d: string)
    requires |d| >= 1 && AllDigits(d)
    ensures ParseDecimal("-" + d) == Some(-(Value(d) as int))
  {
    var s := "-" + d;
    assert s[0] == '-' && s[1..] == d;
  }

  // ---------------------------------------------------------------- statuses and times

  /** The enum constant's name, as `%s` writes it. */
  function StatusText(st: Status): (r: string)
    ensures NoComma(r) && r != ""
  {
    match st
    case New => "NEW"
    case InProgress => "IN_PROGRESS"
    case Done => "DONE"
  }

  /** `TaskStatus.valueOf`: only the exact constant names are accepted. */
  function ParseStatus(s: string): (r: Option<Status>)
  {
    if s == "NEW" then Some(New)
    else if s == "IN_PROGRESS" then Some(InProgress)
    else if s == "DONE" then Some(Done)
    else None
  }

  /** A status reads back from its name, and the name is the only text that reads as it. */
  lemma StatusRoundTrip(st: Status, s: string)
    ensures ParseStatus(StatusText(st)) == Some(st)
    ensures ParseStatus(s) == Some(st) <==> s == StatusText(st)
  {
  }

  /** A start time or a duration in whole minutes, or "null" when there is none. */
  function MinutesText(t: Option<int>): (r: string)
    ensures NoComma(r) && r != ""
    ensures t.None? <==> r == "null"
  {
    if t.None? then "null" else IntText(t.value)
  }

  /** `val[i]`, which throws when the row has too few fields. */
  function Field(val: seq<string>, i: nat): (r: Result<string, Fault>)
    ensures r.Success? <==> i < |val|
    ensures r.Success? ==> r.value == val[i]
    ensures r.Failure? ==> r.error == MissingField(i)
  {
    if i < |val| then Success(val[i]) else Failure(MissingField(i))
  }

  /** `Integer.parseInt(val[i])`. */
  function IntField(val: seq<string>, i: nat): (r: Result<int, Fault>)
    ensures r.Success? <==> i < |val| && ParseInt(val[i]).Some?
    ensures r.Success? ==> Some(r.value) == ParseInt(val[i])
  {
    var text :- Field(val, i);
    match ParseInt(text)
    case Some(n) => Success(n)
    case None => Failure(BadNumber(text))
  }

  /** `TaskStatus.valueOf(val[i])`. */
  function StatusField(val: seq<string>, i: nat): (r: Result<Status, Fault>)
    ensures r.Success? <==> i < |val| && ParseStatus(val[i]).Some?
    ensures r.Success? ==> Some(r.value) == ParseStatus(val[i])
  {
    var text :- Field(val, i);
    match ParseStatus(text)
    case Some(st) => Success(st)
    case None => Failure(BadStatus(text))
  }

  /** `val[i].equals("null") ? null : LocalDateTime.parse(val[i])`. */
  function StartField(val: seq<string>, i: nat): (r: Result<Option<int>, Fault>)
    ensures r.Success? ==> i < |val| && (r.value.None? <==> val[i] == "null")
    ensures r.Success? && r.value.Some? ==> ParseDecimal(val[i]) == r.value
  {
    var text :- Field(val, i);
    if text == "null" then Success(None)
    else match ParseDecimal(text)
      case Some(t) => Success(Some(t))
      case None => Failure(BadTime(text))
  }

  /**
   * The largest minute count `Duration.ofMinutes` accepts, `Long.MAX_VALUE / 60`: it multiplies
   * by 60 with `Math.multiplyExact`, and the least accepted count is the negation of this one.
   */
  const MinutesMax: int := LongMax / 60

  /** `val[i].equals("null") ? null : Duration.ofMinutes(Long.parseLong(val[i]))`. */
  function DurationField(val: seq<string>, i: nat): (r: Result<Option<int>, Fault>)
    ensures r.Success? ==> i < |val| && (r.value.None? <==> val[i] == "null")
    ensures r.Success? && r.value.Some? ==> ParseLong(val[i]) == r.value && -MinutesMax <= r.value.value <= MinutesMax
    ensures i < |val| && val[i] != "null" && ParseLong(val[i]).Some? ==>
      (r.Success? <==> -MinutesMax <= ParseLong(val[i]).value <= MinutesMax)
  {
    var text :- Field(val, i);
    if text == "null" then Success(None)
    else match ParseLong(text)
      case Some(d) => if -MinutesMax <= d <= MinutesMax then Success(Some(d)) else Failure(TooLong(d))
      case None => Failure(BadNumber(text))
  }

  // ---------------------------------------------------------------- rows

  /** The type tag in the second column. */
  function TypeTag(x: Item): (r: string)
  {
    match x
    case Task(_, _, _, _, _, _) => "TASK"
    case Epic(_, _, _, _, _, _, _, _) => "EPIC"
    case Subtask(_, _, _, _, _, _, _) => "SUBTASK"
  }

  /** The fields `toString` writes for an entity, in column order. */
  function RowFields(x: Item): (r: seq<string>)
    ensures |r| >= 5 && r[0] == IntText(x.id) && r[1] == TypeTag(x)
  {
    match x
    case Task(id, title, description, status, start, duration) =>
      [IntText(id), "TASK", title, StatusText(status), description, MinutesText(start), MinutesText(duration)]
    case Epic(id, title, description, status, _, _, _, _) =>
      [IntText(id), "EPIC", title, StatusText(status), description]
    case Subtask(id, title, description, status, start, duration, epicId) =>
      [IntText(id), "SUBTASK", title, StatusText(status), description, IntText(epicId),
       MinutesText(start), MinutesText(duration)]
  }

  /** `toString`: one row per entity; an epic's times and subtask list are not written. */
  function ToRow(x: Item): (r: string)
  {
    Join(RowFields(x))
  }

  /** The entity an EPIC row denotes: `new Epic(id, title, description)`, NEW, with no times and no subtasks. */
  function FreshEpic(id: int, title: string, description: string): (r: Item)
    ensures r.Epic? && r.id == id && r.title == title && r.description == description
    ensures r.status == New && r.start.None? && r.duration.None? && r.endTime.None? && r.subtaskIds == []
  {
    Epic(id, title, description, New, None, None, [], None)
  }

  /**
   * `fromString`: the entity a row denotes. Each constructor argument is read in Java's
   * left-to-right order, so the first failing one decides the fault.
   */
  function FromRow(line: string): (r: Result<Item, Fault>)
    ensures r.Success? ==> |Split(line)| >= 2 && Split(line)[1] == TypeTag(r.value)
    ensures r.Success? ==> ParseInt(Split(line)[0]) == Some(r.value.id)
    ensures r.Success? && r.value.Epic? ==> r.value == FreshEpic(r.value.id, r.value.title, r.value.description)
    ensures |Split(line)| >= 2 && Split(line)[1] !in {"TASK", "EPIC", "SUBTASK"} ==>
      r == Failure(UnknownType(Split(line)[1]))
    ensures |Split(line)| < 2 ==> r == Failure(MissingField(1))
    ensures r.Success? && r.value.duration.Some? ==> -MinutesMax <= r.value.duration.value <= MinutesMax
  {
    var val := Split(line);
    var tag :- Field(val, 1);
    if tag == "TASK" then
      var id :- IntField(val, 0);
      var title :- Field(val, 2);
      var description :- Field(val, 4);
      var status :- StatusField(val, 3);
      var start :- StartField(val, 5);
      var duration :- DurationField(val, 6);
      Success(Task(id, title, description, status, start, duration))
    else if tag == "EPIC" then
      var id :- IntField(val, 0);
      var title :- Field(val, 2);
      var description :- Field(val, 4);
      Success(FreshEpic(id, title, description))
    else if tag == "SUBTASK" then
      var id :- IntField(val, 0);
      var title :- Field(val, 2);
      var description :- Field(val, 4);
      var status :- StatusField(val, 3);
      var epicId :- IntField(val, 5);
      var start :- StartField(val, 6);
      var duration :- DurationField(val, 7);
      Success(Subtask(id, title, description, status, start, duration, epicId))
    else
      Failure(UnknownType(tag))
  }

  /**
   * What Java's field types guarantee of a value written to a row: 32-bit ids, and a duration
   * in minutes that a `Duration` read back by `ofMinutes` can hold.
   */
  predicate Writable(x: Item) {
    && IntMin <= x.id <= IntMax
    && (x.Subtask? ==> IntMin <= x.epicId <= IntMax)
    && (x.duration.Some? ==> -MinutesMax <= x.duration.value <= MinutesMax)
  }

  /** The written fields hold no comma when the entity's texts hold none. */
  lemma RowFieldsPlain(x: Item)
    requires NoComma(x.title) && NoComma(x.description)
    ensures forall i :: 0 <= i < |RowFields(x)| ==> NoComma(RowFields(x)[i])
  {
  }

  /** A written start time reads back as itself. */
  lemma StartFieldText(val: seq<string>, i: nat, t: Option<int>)
    requires i < |val| && val[i] == MinutesText(t)
    ensures StartField(val, i) == Success(t)
  {
    if t.Some? {
      ParseDecimalText(t.value);
    }
  }

  /** A written duration reads back as itself while `Duration.ofMinutes` accepts it. */
  lemma DurationFieldText(val: seq<string>, i: nat, d: Option<int>)
    requires i < |val| && val[i] == MinutesText(d)
    requires d.Some? ==> -MinutesMax <= d.value <= MinutesMax
    ensures DurationField(val, i) == Success(d)
  {
    if d.Some? {
      ParseDecimalText(d.value);
    }
  }

  /** The largest long is a number `Long.parseLong` reads, but `Duration.ofMinutes` rejects it. */
  lemma DurationTooLong()
    ensures ParseLong(IntText(LongMax)) == Some(LongMax)
    ensures DurationField([IntText(LongMax)], 0) == Failure(TooLong(LongMax))
  {
    ParseDecimalText(LongMax);
  }

  /** A written 32-bit number reads back as itself. */
  lemma IntFieldText(val: seq<string>, i: nat, n: int)
    requires i < |val| && val[i] == IntText(n) && IntMin <= n <= IntMax
    ensures IntField(val, i) == Success(n)
  {
    ParseDecimalText(n);
  }

  /** A task row reads back as the same task, every field kept. */
  lemma TaskRoundTrip(x: Item)
    requires x.Task? && NoComma(x.title) && NoComma(x.description) && Writable(x)
    ensures FromRow(ToRow(x)) == Success(x)
  {
    var val := RowFields(x);
    RowFieldsPlain(x);
    SplitJoin(val);
    IntFieldText(val, 0, x.id);
    StatusRoundTrip(x.status, val[3]);
    StartFieldText(val, 5, x.start);
    DurationFieldText(val, 6, x.duration);
  }

  /** A subtask row reads back as the same subtask, its epic id included. */
  lemma SubtaskRoundTrip(x: Item)
    requires x.Subtask? && NoComma(x.title) && NoComma(x.description) && Writable(x)
    ensures FromRow(ToRow(x)) == Success(x)
  {
    var val := RowFields(x);
    RowFieldsPlain(x);
    SplitJoin(val);
    IntFieldText(val, 0, x.id);
    StatusRoundTrip(x.status, val[3]);
    IntFieldText(val, 5, x.epicId);
    StartFieldText(val, 6, x.start);
    DurationFieldText(val, 7, x.duration);
  }

  /** An epic row reads back as a fresh epic: the written status is dropped, times and list are empty. */
  lemma EpicRoundTrip(x: Item)
    requires x.Epic? && NoComma(x.title) && NoComma(x.description) && x.description != ""
    requires IntMin <= x.id <= IntMax
    ensures FromRow(ToRow(x)) == Success(FreshEpic(x.id, x.title, x.description))
  {
    RowFieldsPlain(x);
    SplitJoin(RowFields(x));
    IntFieldText(RowFields(x), 0, x.id);
  }

  /** An epic with an empty description cannot be read back: `split` drops the empty last field. */
  lemma EpicEmptyDescription(x: Item)
    requires x.Epic? && NoComma(x.title) && x.description == ""
    requires IntMin <= x.id <= IntMax
    ensures FromRow(ToRow(x)) == Failure(MissingField(4))
  {
    RowFieldsPlain(x);
    SplitJoinEmptyLast(RowFields(x));
    IntFieldText(RowFields(x), 0, x.id);
  }
}
