/**
 * The task use case of usecases/task_usecase.go: a status gate in front of
 * the task repository, and a fresh id for every added task. The repository
 * is a collaborator the model cannot see: each of its operations is a
 * function parameter, and every use case reports the calls it made to it.
 */
module TaskUsecase {
  import opened Wrappers
  import opened Ascii
  import opened Domain

  /** One call from the use case to its repository, with its arguments. */
  datatype RepoCall =
    | GetTasksCall
    | GetTaskByIdCall(id: Uuid)
    | UpdateCall(id: Uuid, task: Task)
    | DeleteCall(id: Uuid)
    | AddCall(task: Task)

  /** GetTasks hands back the repository's list or its error. */
  function GetTasks(getTasks: Result<seq<Task>>): (r: Traced<Result<seq<Task>>, RepoCall>)
    ensures r.calls == [GetTasksCall]
    ensures r.result == getTasks
  {
    Traced(getTasks, [GetTasksCall])
  }

  /** GetTaskById asks the repository for that id and hands back its answer. */
  function GetTaskById(id: Uuid, getTaskById: Uuid -> Result<Task>): (r: Traced<Result<Task>, RepoCall>)
    ensures r.calls == [GetTaskByIdCall(id)]
    ensures r.result == getTaskById(id)
  {
    Traced(getTaskById(id), [GetTaskByIdCall(id)])
  }

  /**
   * UpdateTaskByID refuses a status that is not one of the three words in
   * any ASCII case, without calling the repository; otherwise it passes id
   * and task on unchanged and reports the repository's error, if any.
   */
  function UpdateTaskByID(id: Uuid, upd: Task, update: (Uuid, Task) -> Outcome): (r: Traced<Outcome, RepoCall>)
    ensures !ValidStatus(upd.status) ==> r == Traced(Fail(StatusError), [])
    ensures ValidStatus(upd.status) ==> r.calls == [UpdateCall(id, upd)] && r.result == update(id, upd)
  {
    if !ValidStatus(upd.status) then Traced(Fail(StatusError), [])
    else Traced(update(id, upd), [UpdateCall(id, upd)])
  }

  /** DeleteTask asks the repository to delete that id and reports its error, if any. */
  function DeleteTask(id: Uuid, delete: Uuid -> Outcome): (r: Traced<Outcome, RepoCall>)
    ensures r.calls == [DeleteCall(id)]
    ensures r.result == delete(id)
  {
    Traced(delete(id), [DeleteCall(id)])
  }

  /**
   * AddTask applies the same status gate, then replaces the caller's id by a
   * fresh one (`freshId`, the `uuid.New()` of the call) and passes the task
   * on; title, description, due date and the status text go through as given.
   */
  function AddTask(task: Task, freshId: Uuid, add: Task -> Result<Task>): (r: Traced<Result<Task>, RepoCall>)
    ensures !ValidStatus(task.status) ==> r == Traced(Err(StatusError), [])
    ensures ValidStatus(task.status) ==>
              exists sent :: r.calls == [AddCall(sent)] && r.result == add(sent) &&
                sent.id == freshId && sent.(id := task.id) == task
  {
    if !ValidStatus(task.status) then Traced(Err(StatusError), [])
    else
      var sent := task.(id := freshId);
      assert sent.(id := task.id) == task;
      Traced(add(sent), [AddCall(sent)])
  }

  /** The repository is called exactly when the status passes the gate, for Update and Add alike. */
  lemma GatesAgree(id: Uuid, task: Task, freshId: Uuid, update: (Uuid, Task) -> Outcome, add: Task -> Result<Task>)
    ensures UpdateTaskByID(id, task, update).calls != [] <==> ValidStatus(task.status)
    ensures AddTask(task, freshId, add).calls != [] <==> ValidStatus(task.status)
  {
  }

  /** The gates judge a status and its lower-case form alike. */
  lemma GatesIgnoreCase(id: Uuid, task: Task, freshId: Uuid, update: (Uuid, Task) -> Outcome, add: Task -> Result<Task>)
    ensures UpdateTaskByID(id, task, update).calls != [] <==>
            UpdateTaskByID(id, task.(status := Lower(task.status)), update).calls != []
    ensures AddTask(task, freshId, add).calls != [] <==>
            AddTask(task.(status := Lower(task.status)), freshId, add).calls != []
  {
    ValidStatusIgnoresCase(task.status);
  }

  /** Whatever id the caller supplies, the repository sees the same task. */
  lemma AddIgnoresCallerId(task: Task, otherId: Uuid, freshId: Uuid, add: Task -> Result<Task>)
    ensures AddTask(task, freshId, add) == AddTask(task.(id := otherId), freshId, add)
  {
  }
}
