/**
 * `FileBackedTaskManager`: the in-memory manager whose every mutating operation writes the
 * whole state back to its file. The manager it extends is held as `core`; `file` is the
 * content of the file, one string per line.
 */
module FileBacked {
  import opened Wrappers
  import opened Model
  import opened Schedule
  import opened Epics
  import opened Codec
  import opened Invariant
  import opened Snapshot
  import opened Manager

  class FileBackedTaskManager {
    const core: TaskManager
    var file: seq<string>

    ghost predicate Valid()
      reads core
    {
      core.Valid()
    }

    /** `new FileBackedTaskManager(path)`: an empty manager; the file is left as it is. */
    constructor (file: seq<string>)
      ensures Valid() && fresh(core) && this.file == file
      ensures core.tasks == map[] && core.epics == map[] && core.subtasks == map[]
      ensures core.sorted == [] && core.counter == 0 && core.history == []
    {
      core := new TaskManager();
      this.file := file;
    }

    /**
     * `loadFromFile`: a manager rebuilt from the rows after the header, with the counter at the
     * largest id read, or the exception the rows raise. The history starts empty.
     */
    static method LoadFromFile(lines: seq<string>) returns (r: Result<FileBackedTaskManager, Fault>)
      ensures r.Failure? ==> Load(lines) == Failure(r.error)
      ensures r.Success? ==> fresh(r.value) && fresh(r.value.core) && r.value.file == lines
      ensures r.Success? ==> var c := r.value.core;
        && Load(lines) == Success(Loaded(c.tasks, c.epics, c.subtasks, c.sorted, c.counter))
        && c.history == []
      ensures r.Success? && FreshIds(Rows(lines)) ==> r.value.Valid()
      ensures r.Success? && FreshIds(Rows(lines)) ==> var c := r.value.core;
        StartsDistinct(c.tasks, c.subtasks) ==> Complete(c.sorted, c.tasks, c.subtasks)
    {
      var loaded := ReadRows(Rows(lines));
      if loaded.Failure? {
        return Failure(loaded.error);
      }
      var m := new FileBackedTaskManager(lines);
      var s := loaded.value;
      m.core.tasks, m.core.epics, m.core.subtasks := s.tasks, s.epics, s.subtasks;
      m.core.sorted, m.core.counter := s.sorted, s.maxId;
      if FreshIds(Rows(lines)) {
        LoadedValid(Rows(lines));
        LoadedComplete(Rows(lines));
      }
      r := Success(m);
    }

    /** `save`: the file becomes the header and a row per stored entity. */
    method Save()
      modifies this`file
      ensures Saved(file, core.tasks, core.epics, core.subtasks)
    {
      file := SaveRows(core.tasks, core.epics, core.subtasks);
    }

    /** `deleteAllTasks`: the in-memory operation, then `save`. */
    method DeleteAllTasks()
      requires Valid()
      modifies this`file, core
      ensures Valid()
      ensures core.tasks == map[] && core.epics == old(core.epics) && core.subtasks == old(core.subtasks) && core.counter == old(core.counter)
      ensures core.sorted == OnlySubtasks(old(core.sorted))
      ensures forall x :: x in core.sorted <==> x in old(core.sorted) && x.Subtask?
      ensures core.history == WithoutIds(old(core.history), old(core.tasks).Keys)
      ensures Saved(file, core.tasks, core.epics, core.subtasks)
      ensures old(Complete(core.sorted, core.tasks, core.subtasks)) ==> Complete(core.sorted, core.tasks, core.subtasks)
    {
      core.DeleteAllTasks();
      Save();
    }

    /** `createTask`: the in-memory operation, then `save` unless it threw. */
    method CreateTask(t: Option<Item>) returns (r: Outcome)
      requires Valid()
      requires t.Some? ==> t.value.Task?
      modifies this`file, core
      ensures Valid()
      ensures t.None? ==> r == Ignored
      ensures t.Some? ==> (r == Applied <==> Validate(old(core.sorted), t.value) == Clear)
      ensures t.Some? && r != Applied ==> r == Threw(Validate(old(core.sorted), t.value))
      ensures r != Applied ==> unchanged(core)
      ensures r == Applied ==> var x := WithId(t.value, core.counter);
        && core.counter == old(core.counter) + 1
        && core.counter !in old(core.tasks) && core.counter !in old(core.epics) && core.counter !in old(core.subtasks)
        && core.tasks == old(core.tasks)[core.counter := x] && core.epics == old(core.epics) && core.subtasks == old(core.subtasks)
        && core.sorted == (if x.start.Some? then Insert(old(core.sorted), x) else old(core.sorted))
        && core.history == old(core.history)
      ensures r.Threw? ==> file == old(file)
      ensures !r.Threw? ==> Saved(file, core.tasks, core.epics, core.subtasks)
      ensures old(Complete(core.sorted, core.tasks, core.subtasks)) && StartsDistinct(core.tasks, core.subtasks) ==> Complete(core.sorted, core.tasks, core.subtasks)
    {
      r := core.CreateTask(t);
      if !r.Threw? {
        Save();
      }
    }

    /** `updateTaskById`: the in-memory operation, then `save` unless it threw. */
    method UpdateTaskById(t: Option<Item>) returns (r: Outcome)
      requires Valid()
      requires t.Some? ==> t.value.Task?
      modifies this`file, core
      ensures Valid()
      ensures t.None? || t.value.id !in old(core.tasks) ==> r == Ignored
      ensures t.Some? && t.value.id in old(core.tasks) ==> (r == Applied <==> Validate(old(core.sorted), t.value) == Clear)
      ensures t.Some? && t.value.id in old(core.tasks) && r != Applied ==> r == Threw(Validate(old(core.sorted), t.value))
      ensures r != Applied ==> unchanged(core)
      ensures r == Applied ==>
        && core.tasks == old(core.tasks)[t.value.id := t.value] && core.epics == old(core.epics) && core.subtasks == old(core.subtasks)
        && core.counter == old(core.counter) && core.history == old(core.history)
        && core.sorted == Reindexed(old(core.sorted), t.value)
      ensures r.Threw? ==> file == old(file)
      ensures !r.Threw? ==> Saved(file, core.tasks, core.epics, core.subtasks)
      ensures old(Complete(core.sorted, core.tasks, core.subtasks)) && StartsDistinct(core.tasks, core.subtasks) ==> Complete(core.sorted, core.tasks, core.subtasks)
    {
      r := core.UpdateTaskById(t);
      if !r.Threw? {
        Save();
      }
    }

    /** `deleteTaskById`: the in-memory operation, then `save`. */
    method DeleteTaskById(id: int)
      requires Valid()
      modifies this`file, core
      ensures Valid()
      ensures core.tasks == old(core.tasks) - {id} && core.epics == old(core.epics) && core.subtasks == old(core.subtasks) && core.counter == old(core.counter)
      ensures core.sorted == WithoutId(old(core.sorted), id)
      ensures core.history == WithoutId(old(core.history), id)
      ensures Saved(file, core.tasks, core.epics, core.subtasks)
      ensures old(Complete(core.sorted, core.tasks, core.subtasks)) && id !in old(core.subtasks) ==> Complete(core.sorted, core.tasks, core.subtasks)
    {
      core.DeleteTaskById(id);
      Save();
    }

    /** `deleteAllEpics`: the in-memory operation, then `save`. */
    method DeleteAllEpics()
      requires Valid()
      modifies this`file, core
      ensures Valid()
      ensures core.epics == map[] && core.subtasks == map[] && core.tasks == old(core.tasks) && core.counter == old(core.counter)
      ensures core.sorted == WithoutSubtasks(old(core.sorted))
      ensures core.history == WithoutIds(old(core.history), old(core.epics).Keys + old(core.subtasks).Keys)
      ensures Saved(file, core.tasks, core.epics, core.subtasks)
      ensures old(Complete(core.sorted, core.tasks, core.subtasks)) ==> Complete(core.sorted, core.tasks, core.subtasks)
    {
      core.DeleteAllEpics();
      Save();
    }

    /** `createEpic`: the in-memory operation, then `save` unless it threw. */
    method CreateEpic(t: Option<Item>) returns (r: Outcome)
      requires Valid()
      requires t.Some? ==> t.value.Epic?
      modifies this`file, core
      ensures Valid()
      ensures t.None? ==> r == Ignored && unchanged(core)
      ensures t.Some? ==> (r == Applied
        && core.counter == old(core.counter) + 1
        && core.counter !in old(core.tasks) && core.counter !in old(core.epics) && core.counter !in old(core.subtasks)
        && core.epics == old(core.epics)[core.counter := WithId(t.value, core.counter)]
        && core.tasks == old(core.tasks) && core.subtasks == old(core.subtasks) && core.sorted == old(core.sorted) && core.history == old(core.history))
      ensures r.Threw? ==> file == old(file)
      ensures !r.Threw? ==> Saved(file, core.tasks, core.epics, core.subtasks)
    {
      r := core.CreateEpic(t);
      if !r.Threw? {
        Save();
      }
    }

    /** `updateEpicById`: the in-memory operation, then `save` unless it threw. */
    method UpdateEpicById(t: Option<Item>) returns (r: Outcome)
      requires Valid()
      requires t.Some? ==> t.value.Epic?
      requires t.Some? && t.value.id in core.epics ==> Present(core.epics[t.value.id].subtaskIds, core.subtasks)
      modifies this`file, core
      ensures Valid()
      ensures core.tasks == old(core.tasks) && core.subtasks == old(core.subtasks) && core.sorted == old(core.sorted)
      ensures core.counter == old(core.counter) && core.history == old(core.history)
      ensures t.None? || t.value.id !in old(core.epics) ==> r == Ignored && core.epics == old(core.epics)
      ensures t.Some? && t.value.id in old(core.epics) ==> (r == Applied
        && core.epics == old(core.epics)[t.value.id := Refreshed(t.value.(subtaskIds := old(core.epics)[t.value.id].subtaskIds), old(core.subtasks))])
      ensures r.Threw? ==> file == old(file)
      ensures !r.Threw? ==> Saved(file, core.tasks, core.epics, core.subtasks)
    {
      r := core.UpdateEpicById(t);
      ghost var T, E, S := core.tasks, core.epics, core.subtasks;
      if !r.Threw? {
        Save();
      }
      assert core.tasks == T && core.epics == E && core.subtasks == S;
    }

    /** `deleteEpicById`: the in-memory operation, then `save`. */
    method DeleteEpicById(id: int)
      requires Valid()
      modifies this`file, core
      ensures Valid()
      ensures core.tasks == old(core.tasks) && core.counter == old(core.counter)
      ensures id !in old(core.epics) ==>
        && core.epics == old(core.epics) && core.subtasks == old(core.subtasks) && core.sorted == old(core.sorted)
        && core.history == WithoutId(old(core.history), id)
      ensures id in old(core.epics) ==> var victims := IdsOf(old(core.epics)[id].subtaskIds) + {id};
        && core.epics == old(core.epics) - {id}
        && core.subtasks == old(core.subtasks) - IdsOf(old(core.epics)[id].subtaskIds)
        && core.sorted == WithoutIds(old(core.sorted), victims)
        && core.history == WithoutIds(old(core.history), victims)
      ensures Saved(file, core.tasks, core.epics, core.subtasks)
      ensures old(Complete(core.sorted, core.tasks, core.subtasks))
        && (id in old(core.epics) ==> IdsOf(old(core.epics)[id].subtaskIds) !! old(core.tasks).Keys)
        ==> Complete(core.sorted, core.tasks, core.subtasks)
    {
      core.DeleteEpicById(id);
      Save();
    }

    /** `deleteAllSubtasks`: the in-memory operation, then `save`. */
    method DeleteAllSubtasks()
      requires Valid()
      modifies this`file, core
      ensures Valid()
      ensures core.subtasks == map[] && core.tasks == old(core.tasks) && core.counter == old(core.counter)
      ensures core.epics.Keys == old(core.epics).Keys && forall k :: k in core.epics ==> core.epics[k] == Cleared(old(core.epics)[k])
      ensures core.sorted == WithoutSubtasks(old(core.sorted))
      ensures core.history == WithoutIds(old(core.history), old(core.subtasks).Keys)
      ensures Saved(file, core.tasks, core.epics, core.subtasks)
      ensures old(Complete(core.sorted, core.tasks, core.subtasks)) ==> Complete(core.sorted, core.tasks, core.subtasks)
    {
      core.DeleteAllSubtasks();
      Save();
    }

    /** `createSubtask`: the in-memory operation, then `save` unless it threw. */
    method CreateSubtask(t: Option<Item>) returns (r: Outcome)
      requires Valid()
      requires t.Some? ==> t.value.Subtask?
      requires t.Some? && Validate(core.sorted, t.value) == Clear ==>
        t.value.epicId in core.epics && Present(core.epics[t.value.epicId].subtaskIds, core.subtasks)
      modifies this`file, core
      ensures Valid()
      ensures t.None? ==> r == Ignored
      ensures t.Some? ==> (r == Applied <==> Validate(old(core.sorted), t.value) == Clear)
      ensures t.Some? && r != Applied ==> r == Threw(Validate(old(core.sorted), t.value))
      ensures r != Applied ==> unchanged(core)
      ensures r == Applied ==> var x, e := WithId(t.value, core.counter), old(core.epics)[t.value.epicId];
        && core.counter == old(core.counter) + 1
        && core.counter !in old(core.tasks) && core.counter !in old(core.epics) && core.counter !in old(core.subtasks)
        && core.subtasks == old(core.subtasks)[core.counter := x] && core.tasks == old(core.tasks)
        && Present(e.subtaskIds + [core.counter], core.subtasks)
        && core.epics == old(core.epics)[e.id := Refreshed(e.(subtaskIds := e.subtaskIds + [core.counter]), core.subtasks)]
        && core.sorted == (if x.start.Some? then Insert(old(core.sorted), x) else old(core.sorted))
        && core.history == old(core.history)
      ensures r.Threw? ==> file == old(file)
      ensures !r.Threw? ==> Saved(file, core.tasks, core.epics, core.subtasks)
      ensures old(Complete(core.sorted, core.tasks, core.subtasks)) && StartsDistinct(core.tasks, core.subtasks) ==> Complete(core.sorted, core.tasks, core.subtasks)
    {
      r := core.CreateSubtask(t);
      if !r.Threw? {
        Save();
      }
    }

    /** `updateSubtaskById`: the in-memory operation, then `save` unless it threw. */
    method UpdateSubtaskById(t: Option<Item>) returns (r: Outcome)
      requires Valid()
      requires t.Some? ==> t.value.Subtask?
      requires t.Some? && t.value.id in core.subtasks && Validate(core.sorted, t.value) == Clear ==>
        t.value.epicId in core.epics && Present(core.epics[t.value.epicId].subtaskIds, core.subtasks)
      modifies this`file, core
      ensures Valid()
      ensures t.None? || t.value.id !in old(core.subtasks) ==> r == Ignored
      ensures t.Some? && t.value.id in old(core.subtasks) ==> (r == Applied <==> Validate(old(core.sorted), t.value) == Clear)
      ensures t.Some? && t.value.id in old(core.subtasks) && r != Applied ==> r == Threw(Validate(old(core.sorted), t.value))
      ensures r != Applied ==> unchanged(core)
      ensures r == Applied ==> var e := old(core.epics)[t.value.epicId];
        && core.subtasks == old(core.subtasks)[t.value.id := t.value] && core.tasks == old(core.tasks)
        && core.counter == old(core.counter) && core.history == old(core.history)
        && Present(e.subtaskIds, core.subtasks)
        && core.epics == old(core.epics)[e.id := Refreshed(e, core.subtasks)]
        && core.sorted == Reindexed(old(core.sorted), t.value)
      ensures r.Threw? ==> file == old(file)
      ensures !r.Threw? ==> Saved(file, core.tasks, core.epics, core.subtasks)
      ensures old(Complete(core.sorted, core.tasks, core.subtasks)) && StartsDistinct(core.tasks, core.subtasks) ==> Complete(core.sorted, core.tasks, core.subtasks)
    {
      r := core.UpdateSubtaskById(t);
      if !r.Threw? {
        Save();
      }
    }

    /** `deleteSubtaskById`: the in-memory operation, then `save`. */
    method DeleteSubtaskById(id: int)
      requires Valid()
      requires id in core.subtasks ==>
        core.subtasks[id].epicId in core.epics && Present(RemoveFirst(core.epics[core.subtasks[id].epicId].subtaskIds, id), core.subtasks - {id})
      modifies this`file, core
      ensures Valid()
      ensures core.history == WithoutId(old(core.history), id)
      ensures core.tasks == old(core.tasks) && core.counter == old(core.counter)
      ensures id !in old(core.subtasks) ==> core.epics == old(core.epics) && core.subtasks == old(core.subtasks) && core.sorted == old(core.sorted)
      ensures id in old(core.subtasks) ==> var e := old(core.epics)[old(core.subtasks)[id].epicId];
        && core.subtasks == old(core.subtasks) - {id}
        && core.epics == old(core.epics)[e.id := Refreshed(e.(subtaskIds := RemoveFirst(e.subtaskIds, id)), core.subtasks)]
        && core.sorted == WithoutId(old(core.sorted), id)
      ensures Saved(file, core.tasks, core.epics, core.subtasks)
      ensures old(Complete(core.sorted, core.tasks, core.subtasks)) ==> Complete(core.sorted, core.tasks, core.subtasks)
    {
      core.DeleteSubtaskById(id);
      Save();
    }
  }
}
