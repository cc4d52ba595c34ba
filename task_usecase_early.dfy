/**
 * The earlier task use case of task_manager/usecases/task_usecase.go: the
 * status gate guards AddTask only, the caller's id goes to the repository
 * unchanged, and UpdateTaskByID hands back the repository's updated task.
 */
module TaskUsecaseEarly {
  import opened Wrappers
  import opened Domain
  import TaskUsecase

  /** GetTasks hands back the repository's list or its error. */
  function GetTasks(getTasks: Result<seq<Task>>): (r: Traced<Result<seq<Task>>, TaskUsecase.RepoCall>)
    ensures r.calls == [TaskUsecase.GetTasksCall]
    ensures r.result == getTasks
  {
    Traced(getTasks, [TaskUsecase.GetTasksCall])
  }

  /** GetTaskById asks the repository for that id and hands back its answer. */
  function GetTaskById(id: Uuid, getTaskById: Uuid -> Result<Task>): (r: Traced<Result<Task>, TaskUsecase.RepoCall>)
    ensures r.calls == [TaskUsecase.GetTaskByIdCall(id)]
    ensures r.result == getTaskById(id)
  {
    Traced(getTaskById(id), [TaskUsecase.GetTaskByIdCall(id)])
  }

  /** UpdateTaskByID checks nothing: every status reaches the repository. */
  function UpdateTaskByID(id: Uuid, upd: Task, update: (Uuid, Task) -> Result<Task>): (r: Traced<Result<Task>, TaskUsecase.RepoCall>)
    ensures r.calls == [TaskUsecase.UpdateCall(id, upd)]
    ensures r.result == update(id, upd)
  {
    Traced(update(id, upd), [TaskUsecase.UpdateCall(id, upd)])
  }

  /** DeleteTask asks the repository to delete that id and reports its error, if any. */
  function DeleteTask(id: Uuid, delete: Uuid -> Outcome): (r: Traced<Outcome, TaskUsecase.RepoCall>)
    ensures r.calls == [TaskUsecase.DeleteCall(id)]
    ensures r.result == delete(id)
  {
    Traced(delete(id), [TaskUsecase.DeleteCall(id)])
  }

  /** AddTask applies the status gate and passes the task on exactly as given, id included. */
  function AddTask(task: Task, add: Task -> Result<Task>): (r: Traced<Result<Task>, TaskUsecase.RepoCall>)
    ensures !ValidStatus(task.status) ==> r == Traced(Err(StatusError), [])
    ensures ValidStatus(task.status) ==> r.calls == [TaskUsecase.AddCall(task)] && r.result == add(task)
  {
    if !ValidStatus(task.status) then Traced(Err(StatusError), [])
    else Traced(add(task), [TaskUsecase.AddCall(task)])
  }

  /**
   * The later AddTask is this one applied to the task under its fresh id:
   * the two versions differ only in the id the repository sees.
   */
  lemma AddDiffersOnlyInId(task: Task, freshId: Uuid, add: Task -> Result<Task>)
    ensures TaskUsecase.AddTask(task, freshId, add) == AddTask(task.(id := freshId), add)
  {
  }

  /**
   * On a valid status both versions of UpdateTaskByID make the same call;
   * on any other status only this one reaches the repository.
   */
  lemma UpdateGateIsNew(id: Uuid, upd: Task, update: (Uuid, Task) -> Result<Task>, check: (Uuid, Task) -> Outcome)
    ensures ValidStatus(upd.status) ==>
              TaskUsecase.UpdateTaskByID(id, upd, check).calls == UpdateTaskByID(id, upd, update).calls
    ensures !ValidStatus(upd.status) ==>
              TaskUsecase.UpdateTaskByID(id, upd, check).calls == [] && UpdateTaskByID(id, upd, update).calls != []
  {
  }
}
