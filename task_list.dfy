/**
 * The first, in-memory task store of task_manager/services/task_service.go:
 * a package-level slice of tasks searched linearly, spliced on delete and
 * appended to with an id made from the slice length.
 */
module TaskList {
  import opened Wrappers
  import opened Ascii

  /** `models.Task`; the due date is a time in seconds. */
  datatype Task = Task(id: string, title: string, description: string, dueDate: int, status: string)

  const Pending := "Pending"
  const InProgress := "In Progress"
  const Completed := "Completed"
  const TaskNotFound := "task not found"
  const BadStatus := "status must be 'Pending' or 'In Progress' or 'Completed'"

  /** `time.Now().AddDate(0, 0, 1)` moves a time by one day. */
  const Day := 86400

  /** The slice the package starts with, relative to the start-up time `now`. */
  function InitialTasks(now: int): (ts: seq<Task>)
    ensures |ts| == 3
    ensures forall i :: 0 <= i < 3 ==> ts[i].id == Decimal(i + 1) && ts[i].dueDate == now + i * Day
    ensures ts[0].status == Pending && ts[1].status == InProgress && ts[2].status == Completed
  {
    [ Task("1", "Task 1", "First task", now, Pending),
      Task("2", "Task 2", "Second task", now + Day, InProgress),
      Task("3", "Task 3", "Third task", now + 2 * Day, Completed) ]
  }

  /** Position of the first task with this id, or |ts| when there is none. */
  function FirstWithId(ts: seq<Task>, id: string): (k: nat)
    ensures k <= |ts|
    ensures k < |ts| ==> ts[k].id == id
    ensures forall j :: 0 <= j < k ==> ts[j].id != id
  {
    if ts == [] then 0
    else if ts[0].id == id then 0
    else 1 + FirstWithId(ts[1..], id)
  }

  /** No two tasks of the slice share an id. */
  predicate UniqueIds(ts: seq<Task>)
  {
    forall i, j :: 0 <= i < j < |ts| ==> ts[i].id != ts[j].id
  }

  /**
   * What UpdateTaskByID makes of the found task `t`: title, description and
   * due date always come from `upd`; one of the three exact status words
   * replaces the status, "" keeps it, anything else is refused.
   */
  function Revise(t: Task, upd: Task): (r: Result<Task>)
    ensures r.Ok? <==> upd.status in {Pending, InProgress, Completed, ""}
    ensures r.Err? ==> r.msg == BadStatus
    ensures r.Ok? ==>
              && r.value.id == t.id
              && r.value.title == upd.title
              && r.value.description == upd.description
              && r.value.dueDate == upd.dueDate
              && r.value.status == (if upd.status == "" then t.status else upd.status)
  {
    if upd.status == Pending || upd.status == InProgress || upd.status == Completed then
      Ok(t.(title := upd.title, status := upd.status, description := upd.description, dueDate := upd.dueDate))
    else if upd.status != "" then
      Err(BadStatus)
    else
      Ok(t.(title := upd.title, description := upd.description, dueDate := upd.dueDate))
  }

  class TaskStore {
    var tasks: seq<Task>

    constructor (now: int)
      ensures tasks == InitialTasks(now)
    {
      tasks := InitialTasks(now);
    }

    /** The stored tasks, as a value. */
    method GetTasks() returns (r: seq<Task>)
      ensures r == tasks
    {
      r := tasks;
    }

    /** The first task with that id, copied out; "task not found" otherwise. */
    method GetTaskById(id: string) returns (r: Result<Task>)
      ensures r.Ok? <==> exists i :: 0 <= i < |tasks| && tasks[i].id == id
      ensures r.Err? ==> r.msg == TaskNotFound
      ensures r.Ok? ==> r.value == tasks[FirstWithId(tasks, id)]
    {
      for i := 0 to |tasks|
        invariant forall j :: 0 <= j < i ==> tasks[j].id != id
      {
        if tasks[i].id == id {
          assert FirstWithId(tasks, id) == i;
          return Ok(tasks[i]);
        }
      }
      return Err(TaskNotFound);
    }

    /**
     * Edits the copy GetTaskById hands back and returns it; the slice itself
     * is never written, so the edit does not persist.
     */
    method UpdateTaskByID(id: string, upd: Task) returns (r: Result<Task>)
      ensures FirstWithId(tasks, id) == |tasks| ==> r == Err(TaskNotFound)
      ensures FirstWithId(tasks, id) < |tasks| ==> r == Revise(tasks[FirstWithId(tasks, id)], upd)
    {
      var found := GetTaskById(id);
      if found.Err? {
        return Err(found.msg);
      }
      var task := found.value;
      task := task.(title := upd.title);
      if upd.status == Pending || upd.status == InProgress || upd.status == Completed {
        task := task.(status := upd.status);
      } else if upd.status != "" {
        return Err(BadStatus);
      }
      task := task.(description := upd.description);
      task := task.(dueDate := upd.dueDate);
      return Ok(task);
    }

    /** Splices out the first task with that id and returns it; the rest keep their order. */
    method DeleteTask(id: string) returns (r: Result<Task>)
      modifies this
      ensures var k := FirstWithId(old(tasks), id);
              if k == |old(tasks)| then r == Err(TaskNotFound) && tasks == old(tasks)
              else r == Ok(old(tasks)[k]) && tasks == old(tasks)[..k] + old(tasks)[k + 1..]
    {
      for i := 0 to |tasks|
        invariant tasks == old(tasks)
        invariant forall j :: 0 <= j < i ==> tasks[j].id != id
      {
        if tasks[i].id == id {
          assert FirstWithId(tasks, id) == i;
          var val := tasks[i];
          tasks := tasks[..i] + tasks[i + 1..];
          return Ok(val);
        }
      }
      return Err(TaskNotFound);
    }

    /**
     * Appends the task under the id `len(tasks)+1`, with "Pending" for an
     * empty status and no other check, and returns the new last element.
     */
    method AddTask(task: Task) returns (r: Task)
      modifies this
      ensures r == task.(id := Decimal(|old(tasks)| + 1),
                         status := if task.status == "" then Pending else task.status)
      ensures tasks == old(tasks) + [r]
    {
      var newId := Decimal(|tasks| + 1);
      var t := task.(id := newId);
      if t.status == "" {
        t := t.(status := Pending);
      }
      tasks := tasks + [t];
      r := tasks[|tasks| - 1];
    }

    /**
     * AddTask with an id one above the largest numeric id in the slice, so
     * the new id is never one already in use.
     */
    method AddTaskFresh(task: Task) returns (r: Task)
      modifies this
      ensures forall i :: 0 <= i < |old(tasks)| ==> old(tasks)[i].id != r.id
      ensures r == task.(id := r.id, status := if task.status == "" then Pending else task.status)
      ensures tasks == old(tasks) + [r]
      ensures UniqueIds(old(tasks)) ==> UniqueIds(tasks)
    {
      var top: nat := 0;
      for i := 0 to |tasks|
        invariant forall j :: 0 <= j < i ==> ParseDecimal(tasks[j].id) <= top
      {
        if ParseDecimal(tasks[i].id) > top {
          top := ParseDecimal(tasks[i].id);
        }
      }
      var newId := Decimal(top + 1);
      DecimalRoundTrip(top + 1);
      forall j | 0 <= j < |tasks| ensures tasks[j].id != newId {
        if tasks[j].id == newId {
          assert false;
        }
      }
      var t := task.(id := newId);
      if t.status == "" {
        t := t.(status := Pending);
      }
      tasks := tasks + [t];
      r := t;
    }
  }

  /** The three start-up tasks have distinct ids. */
  lemma InitialIdsUnique(now: int)
    ensures UniqueIds(InitialTasks(now))
  {
    var ts := InitialTasks(now);
    forall i, j | 0 <= i < j < 3 ensures ts[i].id != ts[j].id {
      DecimalInjective(i + 1, j + 1);
    }
  }

  /**
   * Deleting task "1" from the start-up slice and adding a task hands out id
   * "3" again: two tasks then share that id, and GetTaskById can reach only
   * the older one.
   */
  method ReusedIdAfterDelete(now: int, task: Task) returns (ids: seq<string>)
    ensures ids == ["2", "3", "3"]
  {
    var store := new TaskStore(now);
    var gone := store.DeleteTask("1");
    assert gone.Ok?;
    var added := store.AddTask(task);
    ids := [store.tasks[0].id, store.tasks[1].id, store.tasks[2].id];
    assert store.tasks[2].id == Decimal(3);
  }

  /** With AddTaskFresh the same steps keep every id distinct. */
  method FreshIdAfterDelete(now: int, task: Task) returns (ids: seq<string>)
    ensures |ids| == 3
    ensures forall i, j :: 0 <= i < j < |ids| ==> ids[i] != ids[j]
  {
    var store := new TaskStore(now);
    InitialIdsUnique(now);
    var gone := store.DeleteTask("1");
    var added := store.AddTaskFresh(task);
    assert UniqueIds(store.tasks);
    ids := [store.tasks[0].id, store.tasks[1].id, store.tasks[2].id];
  }
}
