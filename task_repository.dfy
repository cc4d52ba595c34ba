/**
 * The store-backed task repository of
 * task_manager/repositories/task_repository.go: reads, a field update, a
 * delete and an insert that draws new ids until the store takes one,
 * each translating the driver's replies into the repository's errors.
 */
module TaskRepository {
  import opened Wrappers
  import opened Domain
  import opened MongoDriver

  const TaskNotFoundOnRead := "task Not Found"
  const TaskNotFound := "task not found"

  /**
   * `ts` lists every stored task exactly once: `order` holds their ids, in
   * the order the cursor returned them.
   */
  ghost predicate Lists(ts: seq<Task>, order: seq<Uuid>, docs: map<Uuid, Task>)
  {
    && |ts| == |order| == |docs|
    && (forall i, j :: 0 <= i < j < |order| ==> order[i] != order[j])
    && (forall k :: k in docs <==> k in order)
    && (forall i :: 0 <= i < |order| ==> order[i] in docs && ts[i] == docs[order[i]])
  }

  /** The insert reply for `task` filed under the id of `d`. */
  function ReplyFor(docs: map<Uuid, Task>, task: Task, d: Draw): InsertReply
  {
    TaskInsertReply(docs, task.(id := d.id), d.fault)
  }

  /** Position of the first draw whose insert does not end in a duplicate-key error, or |draws|. */
  function FirstSettled(docs: map<Uuid, Task>, task: Task, draws: seq<Draw>): (k: nat)
    ensures k <= |draws|
    ensures forall j :: 0 <= j < k ==> ReplyFor(docs, task, draws[j]).DuplicateKey?
    ensures k < |draws| ==> !ReplyFor(docs, task, draws[k]).DuplicateKey?
  {
    if draws == [] then 0
    else if !ReplyFor(docs, task, draws[0]).DuplicateKey? then 0
    else 1 + FirstSettled(docs, task, draws[1..])
  }

  /** A fault-free draw of an unused id ends the retries: the supply is never exhausted before it. */
  lemma FreshDrawSettles(docs: map<Uuid, Task>, task: Task, draws: seq<Draw>, j: nat)
    requires j < |draws| && draws[j].fault == NoFault && draws[j].id !in docs
    ensures FirstSettled(docs, task, draws) <= j
  {
  }

  class TaskRepository {
    const coll: TaskCollection

    constructor (coll: TaskCollection)
      ensures this.coll == coll
    {
      this.coll := coll;
    }

    /**
     * Walks a Find cursor over the whole collection; the first failure of
     * Find, of a decode or of the cursor is returned instead of the list.
     */
    method GetTasks(fault: ReadFault) returns (r: Result<seq<Task>>, ghost order: seq<Uuid>)
      ensures fault.FindFailed? ==> r == Err(fault.msg)
      ensures fault.DecodeFailed? && fault.at < |coll.docs| ==> r == Err(fault.msg)
      ensures fault.CursorFailed? ==> r == Err(fault.msg)
      ensures fault == ReadOk || (fault.DecodeFailed? && fault.at >= |coll.docs|) ==>
                r.Ok? && Lists(r.value, order, coll.docs)
    {
      order := [];
      if fault.FindFailed? {
        return Err(fault.msg), order;
      }
      var tasks: seq<Task> := [];
      var rest := coll.docs.Keys;
      while rest != {}
        invariant rest <= coll.docs.Keys
        invariant |tasks| == |order| && |order| + |rest| == |coll.docs|
        invariant forall i, j :: 0 <= i < j < |order| ==> order[i] != order[j]
        invariant forall i :: 0 <= i < |order| ==>
                    order[i] in coll.docs && order[i] !in rest && tasks[i] == coll.docs[order[i]]
        invariant forall k :: k in coll.docs && k !in rest ==> k in order
        invariant fault.DecodeFailed? ==> fault.at >= |tasks|
        decreases rest
      {
        SomeKey(rest);
        var k :| k in rest;
        if fault.DecodeFailed? && fault.at == |tasks| {
          return Err(fault.msg), order;
        }
        tasks, order := tasks + [coll.docs[k]], order + [k];
        rest := rest - {k};
      }
      if fault.CursorFailed? {
        return Err(fault.msg), order;
      }
      return Ok(tasks), order;
    }

    /** The stored task, or "task Not Found" for an absent id; other driver errors pass through. */
    method GetTaskById(id: Uuid, fault: Option<string>) returns (r: Result<Task>)
      ensures fault.Some? ==> r == Err(fault.value)
      ensures fault.None? ==> r == if id in coll.docs then Ok(coll.docs[id]) else Err(TaskNotFoundOnRead)
    {
      var found := coll.FindOne(id, fault);
      match found
      case ReadError(msg) => return Err(msg);
      case NoDocuments => return Err(TaskNotFoundOnRead);
      case Found(t) => return Ok(t);
    }

    /** `$set` of title, description, due date and status, with no status check; "task not found" for an absent id. */
    method UpdateTaskByID(id: Uuid, upd: Task, fault: Option<string>) returns (err: Outcome)
      modifies coll
      ensures fault.Some? ==> err == Fail(fault.value) && coll.docs == old(coll.docs)
      ensures fault.None? && id !in old(coll.docs) ==> err == Fail(TaskNotFound) && coll.docs == old(coll.docs)
      ensures fault.None? && id in old(coll.docs) ==>
                err == Pass && coll.docs == old(coll.docs)[id := SetFields(old(coll.docs)[id], upd)]
      ensures old(coll.Keyed()) ==> coll.Keyed()
    {
      var res := coll.FindOneAndUpdate(id, upd, fault);
      match res
      case ReadError(msg) => return Fail(msg);
      case NoDocuments => return Fail(TaskNotFound);
      case Found(_) => return Pass;
    }

    /** Removes exactly that id; nothing removed is "task not found". */
    method DeleteTask(id: Uuid, fault: Option<string>) returns (err: Outcome)
      modifies coll
      ensures fault.Some? ==> err == Fail(fault.value) && coll.docs == old(coll.docs)
      ensures fault.None? ==> coll.docs == old(coll.docs) - {id}
      ensures fault.None? ==> err == if id in old(coll.docs) then Pass else Fail(TaskNotFound)
      ensures old(coll.Keyed()) ==> coll.Keyed()
    {
      var res := coll.DeleteOne(id, fault);
      if res.Err? {
        return Fail(res.msg);
      }
      if res.value == 0 {
        return Fail(TaskNotFound);
      }
      return Pass;
    }

    /**
     * Overwrites the caller's id with one draw after another until an insert
     * does not end in a duplicate-key error. A driver error is returned with
     * nothing stored; success stores the task under the drawn id.
     */
    method AddTask(task: Task, draws: seq<Draw>) returns (r: Result<Task>)
      modifies coll
      ensures var k := FirstSettled(old(coll.docs), task, draws);
              if k == |draws| then
                r == Err(Exhausted) && coll.docs == old(coll.docs)
              else if draws[k].fault.DriverError? then
                r == Err(draws[k].fault.msg) && coll.docs == old(coll.docs)
              else
                && r == Ok(task.(id := draws[k].id))
                && draws[k].id !in old(coll.docs)
                && coll.docs == old(coll.docs)[draws[k].id := r.value]
      ensures old(coll.Keyed()) ==> coll.Keyed()
    {
      for i := 0 to |draws|
        invariant coll.docs == old(coll.docs)
        invariant forall j :: 0 <= j < i ==> ReplyFor(old(coll.docs), task, draws[j]).DuplicateKey?
      {
        var t := task.(id := draws[i].id);
        var reply := coll.InsertOne(t, draws[i].fault);
        if reply.DuplicateKey? {
          continue;
        }
        assert FirstSettled(old(coll.docs), task, draws) == i;
        if reply.InsertFailed? {
          return Err(reply.msg);
        }
        return Ok(t);
      }
      return Err(Exhausted);
    }
  }
}
