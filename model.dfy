/**
 * The entities of the tracker: tasks, epics and subtasks.
 *
 * `Item` is the value of one entity object at a point in time; its constructor is the
 * object's runtime class (Task, Epic or Subtask). Timestamps and durations are whole
 * minutes. `Entity` is the mutable object itself, with the constructors and setters of
 * the Java classes Task, Epic and Subtask.
 */
module Model {
  import opened Wrappers

  datatype Status = New | InProgress | Done

  datatype Item =
    | Task(id: int, title: string, description: string, status: Status,
           start: Option<int>, duration: Option<int>)
    | Epic(id: int, title: string, description: string, status: Status,
           start: Option<int>, duration: Option<int>,
           subtaskIds: seq<int>, endTime: Option<int>)
    | Subtask(id: int, title: string, description: string, status: Status,
              start: Option<int>, duration: Option<int>, epicId: int)

  /** End of an entity's time window: start + duration for tasks and subtasks, the stored value for epics. */
  function EndTime(x: Item): (r: Option<int>)
    ensures x.Epic? ==> r == x.endTime
    ensures !x.Epic? ==> (r.Some? <==> x.start.Some? && x.duration.Some?)
    ensures !x.Epic? && r.Some? ==> r.value - x.start.value == x.duration.value
  {
    if x.Epic? then x.endTime
    else if x.start.None? || x.duration.None? then None
    else Some(x.start.value + x.duration.value)
  }

  /** Same runtime class. */
  predicate SameClass(a: Item, b: Item) {
    (a.Task? && b.Task?) || (a.Epic? && b.Epic?) || (a.Subtask? && b.Subtask?)
  }

  /** Java `equals`: same runtime class and same id; every other field is ignored. */
  predicate SameEntity(a: Item, b: Item) {
    SameClass(a, b) && a.id == b.id
  }

  /** Java `hashCode`: the hash of the boxed id, which is the id itself. */
  function HashCode(x: Item): int {
    x.id
  }

  /** The same value under another id, as `setId` leaves it. */
  function WithId(x: Item, id: int): (r: Item)
    ensures r.id == id && SameClass(r, x) && r.(id := x.id) == x
  {
    x.(id := id)
  }

  /** The same value with another status, as `setStatus` leaves it. */
  function WithStatus(x: Item, st: Status): (r: Item)
    ensures r.status == st && SameClass(r, x) && r.id == x.id && r.(status := x.status) == x
  {
    x.(status := st)
  }

  /** `equals` is an equivalence relation that looks only at class and id. */
  lemma SameEntityIsEquivalence(a: Item, b: Item, c: Item)
    ensures SameEntity(a, a)
    ensures SameEntity(a, b) ==> SameEntity(b, a)
    ensures SameEntity(a, b) && SameEntity(b, c) ==> SameEntity(a, c)
    ensures SameEntity(a, b) <==> SameEntity(a.(title := b.title, description := b.description,
                                                   status := b.status, start := b.start,
                                                   duration := b.duration), b)
  {
  }

  /** Equal entities have equal hash codes. */
  lemma HashCodeConsistent(a: Item, b: Item)
    ensures SameEntity(a, b) ==> HashCode(a) == HashCode(b)
  {
  }

  /** Has a start and an end, so that it can take part in an overlap check. */
  predicate Schedulable(x: Item) {
    x.start.Some? && EndTime(x).Some?
  }

  /** The runtime class of an `Entity`; a subtask's epic id is final, so it lives here. */
  datatype Kind = TaskKind | EpicKind | SubtaskKind(epicId: int)

  /**
   * A Task, Epic or Subtask object. `subtaskIds` and `endTime` are the epic's own fields and
   * are unused for the other two classes.
   */
  class Entity {
    const kind: Kind
    var id: int
    var title: string
    var description: string
    var status: Status
    var start: Option<int>
    var duration: Option<int>
    var subtaskIds: seq<int>
    var endTime: Option<int>

    /** `new Task(title, description, status)`: no id yet, no times. */
    constructor TaskOf(title: string, description: string, status: Status)
      ensures kind == TaskKind && id == 0
      ensures this.title == title && this.description == description && this.status == status
      ensures start == None && duration == None
    {
      kind := TaskKind;
      id := 0;
      this.title, this.description, this.status := title, description, status;
      start, duration := None, None;
      subtaskIds, endTime := [], None;
    }

    /** `new Task(id, title, description, status)`. */
    constructor TaskWithId(id: int, title: string, description: string, status: Status)
      ensures kind == TaskKind && this.id == id
      ensures this.title == title && this.description == description && this.status == status
      ensures start == None && duration == None
    {
      kind := TaskKind;
      this.id := id;
      this.title, this.description, this.status := title, description, status;
      start, duration := None, None;
      subtaskIds, endTime := [], None;
    }

    /** `new Task(title, description, status, startTime, duration)`. */
    constructor TimedTask(title: string, description: string, status: Status,
                          start: Option<int>, duration: Option<int>)
      ensures kind == TaskKind && id == 0
      ensures this.title == title && this.description == description && this.status == status
      ensures this.start == start && this.duration == duration
    {
      kind := TaskKind;
      id := 0;
      this.title, this.description, this.status := title, description, status;
      this.start, this.duration := start, duration;
      subtaskIds, endTime := [], None;
    }

    /** `new Task(id, title, description, status, startTime, duration)`. */
    constructor TimedTaskWithId(id: int, title: string, description: string, status: Status,
                                start: Option<int>, duration: Option<int>)
      ensures kind == TaskKind && this.id == id
      ensures this.title == title && this.description == description && this.status == status
      ensures this.start == start && this.duration == duration
    {
      kind := TaskKind;
      this.id := id;
      this.title, this.description, this.status := title, description, status;
      this.start, this.duration := start, duration;
      subtaskIds, endTime := [], None;
    }

    /** `new Epic(title, description)`: status NEW, no times, no subtasks. */
    constructor EpicOf(title: string, description: string)
      ensures kind == EpicKind && id == 0
      ensures this.title == title && this.description == description && status == New
      ensures start == None && duration == None && endTime == None && subtaskIds == []
    {
      kind := EpicKind;
      id := 0;
      this.title, this.description, status := title, description, New;
      start, duration := None, None;
      subtaskIds, endTime := [], None;
    }

    /** `new Epic(id, title, description)`. */
    constructor EpicWithId(id: int, title: string, description: string)
      ensures kind == EpicKind && this.id == id
      ensures this.title == title && this.description == description && status == New
      ensures start == None && duration == None && endTime == None && subtaskIds == []
    {
      kind := EpicKind;
      this.id := id;
      this.title, this.description, status := title, description, New;
      start, duration := None, None;
      subtaskIds, endTime := [], None;
    }

    /** `new Subtask(title, description, status, epicId)`. */
    constructor SubtaskOf(title: string, description: string, status: Status, epicId: int)
      ensures kind == SubtaskKind(epicId) && id == 0
      ensures this.title == title && this.description == description && this.status == status
      ensures start == None && duration == None
    {
      kind := SubtaskKind(epicId);
      id := 0;
      this.title, this.description, this.status := title, description, status;
      start, duration := None, None;
      subtaskIds, endTime := [], None;
    }

    /** `new Subtask(id, title, description, status, epicId)`. */
    constructor SubtaskWithId(id: int, title: string, description: string, status: Status, epicId: int)
      ensures kind == SubtaskKind(epicId) && this.id == id
      ensures this.title == title && this.description == description && this.status == status
      ensures start == None && duration == None
    {
      kind := SubtaskKind(epicId);
      this.id := id;
      this.title, this.description, this.status := title, description, status;
      start, duration := None, None;
      subtaskIds, endTime := [], None;
    }

    /** `new Subtask(title, description, status, epicId, startTime, duration)`. */
    constructor TimedSubtask(title: string, description: string, status: Status, epicId: int,
                             start: Option<int>, duration: Option<int>)
      ensures kind == SubtaskKind(epicId) && id == 0
      ensures this.title == title && this.description == description && this.status == status
      ensures this.start == start && this.duration == duration
    {
      kind := SubtaskKind(epicId);
      id := 0;
      this.title, this.description, this.status := title, description, status;
      this.start, this.duration := start, duration;
      subtaskIds, endTime := [], None;
    }

    /** `new Subtask(id, title, description, status, epicId, startTime, duration)`. */
    constructor TimedSubtaskWithId(id: int, title: string, description: string, status: Status,
                                   epicId: int, start: Option<int>, duration: Option<int>)
      ensures kind == SubtaskKind(epicId) && this.id == id
      ensures this.title == title && this.description == description && this.status == status
      ensures this.start == start && this.duration == duration
    {
      kind := SubtaskKind(epicId);
      this.id := id;
      this.title, this.description, this.status := title, description, status;
      this.start, this.duration := start, duration;
      subtaskIds, endTime := [], None;
    }

    /** The object's current value. */
    function Value(): Item
      reads this
    {
      match kind
      case TaskKind => Item.Task(id, title, description, status, start, duration)
      case EpicKind => Item.Epic(id, title, description, status, start, duration, subtaskIds, endTime)
      case SubtaskKind(e) => Item.Subtask(id, title, description, status, start, duration, e)
    }

    /** `getEndTime`, with Epic's override returning the stored end time. */
    function GetEndTime(): (r: Option<int>)
      reads this
      ensures kind == EpicKind ==> r == endTime
      ensures kind != EpicKind && start.Some? && duration.Some? ==> r == Some(start.value + duration.value)
      ensures kind != EpicKind && (start.None? || duration.None?) ==> r == None
    {
      EndTime(Value())
    }

    /**
     * `equals(Object)`: false for null, otherwise same class and same id. Reflexive, and equal
     * objects hash alike.
     */
    function Equals(other: Entity?): (r: bool)
      reads this, other
      ensures r <==> other != null && id == other.id
                     && (kind == EpicKind <==> other.kind == EpicKind)
                     && (kind.SubtaskKind? <==> other.kind.SubtaskKind?)
      ensures other == this ==> r
      ensures r ==> HashCode() == other.HashCode()
    {
      other != null && SameEntity(Value(), other.Value())
    }

    /** `hashCode`. */
    function HashCode(): int
      reads this
    {
      id
    }

    /** `getEpicId`: the epic id given at construction. */
    function GetEpicId(): (r: int)
      reads this
      requires kind.SubtaskKind?
      ensures Value().Subtask? && Value().epicId == r
    {
      kind.epicId
    }

    method SetId(id: int)
      modifies this`id
      ensures this.id == id
    {
      this.id := id;
    }

    method SetTitle(title: string)
      modifies this`title
      ensures this.title == title
    {
      this.title := title;
    }

    method SetDescription(description: string)
      modifies this`description
      ensures this.description == description
    {
      this.description := description;
    }

    method SetStatus(status: Status)
      modifies this`status
      ensures this.status == status
    {
      this.status := status;
    }

    method SetDuration(duration: Option<int>)
      modifies this`duration
      ensures this.duration == duration
    {
      this.duration := duration;
    }

    method SetStartTime(start: Option<int>)
      modifies this`start
      ensures this.start == start
    {
      this.start := start;
    }

    /** Epic's `addSubtask`: appends at the end. */
    method AddSubtask(id: int)
      requires kind == EpicKind
      modifies this`subtaskIds
      ensures subtaskIds == old(subtaskIds) + [id]
    {
      subtaskIds := subtaskIds + [id];
    }

    /** Epic's `setSubtaskIds`. */
    method SetSubtaskIds(ids: seq<int>)
      requires kind == EpicKind
      modifies this`subtaskIds
      ensures subtaskIds == ids
    {
      subtaskIds := ids;
    }

    /** Epic's `setEndTime`. */
    method SetEndTime(t: Option<int>)
      requires kind == EpicKind
      modifies this`endTime
      ensures endTime == t
    {
      endTime := t;
    }
  }
}
