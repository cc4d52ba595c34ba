/**
 * The store-backed task service of task_manager/usecases/task_service.go.
 * Its GetTasks, GetTaskById, DeleteTask and AddTask repeat the task
 * repository's code line for line, so the service reaches them through a
 * TaskRepository over its own collection; only UpdateTaskByID differs.
 */
module TaskStoreService {
  import opened Wrappers
  import opened Domain
  import opened MongoDriver
  import opened TaskRepository

  class TaskService {
    const coll: TaskCollection
    const repo: TaskRepository

    constructor (coll: TaskCollection)
      ensures this.coll == coll && repo.coll == coll
    {
      this.coll := coll;
      repo := new TaskRepository(coll);
    }

    /**
     * Refuses a status outside the three words (in any case) before touching
     * the store; otherwise the repository's `$set`, returning the document as
     * it is after the update.
     */
    method UpdateTaskByID(id: Uuid, upd: Task, fault: Option<string>) returns (r: Result<Task>)
      modifies coll
      ensures !ValidStatus(upd.status) ==> r == Err(StatusError) && coll.docs == old(coll.docs)
      ensures ValidStatus(upd.status) && fault.Some? ==> r == Err(fault.value) && coll.docs == old(coll.docs)
      ensures ValidStatus(upd.status) && fault.None? && id !in old(coll.docs) ==>
                r == Err(TaskNotFound) && coll.docs == old(coll.docs)
      ensures ValidStatus(upd.status) && fault.None? && id in old(coll.docs) ==>
                && coll.docs == old(coll.docs)[id := SetFields(old(coll.docs)[id], upd)]
                && r == Ok(coll.docs[id])
      ensures old(coll.Keyed()) ==> coll.Keyed()
    {
      if !ValidStatus(upd.status) {
        return Err(StatusError);
      }
      var res := coll.FindOneAndUpdate(id, upd, fault);
      match res
      case ReadError(msg) => return Err(msg);
      case NoDocuments => return Err(TaskNotFound);
      case Found(t) => return Ok(t);
    }
  }
}
