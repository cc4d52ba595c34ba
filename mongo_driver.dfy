/**
 * The slice of the MongoDB driver the repositories and services call, as a
 * model of two collections. Each collection is a map from `_id` to the
 * stored record. Transport failures, and clashes on unique indexes the model
 * does not track, are not decided by the map: the caller of each operation
 * passes them in as a fault.
 */
module MongoDriver {
  import opened Wrappers
  import opened Domain

  /** A duplicate-key error names the key of the unique index it hit. */
  const IdKey := "_id"
  const UsernameKey := "username"

  /** How one InsertOne may go wrong besides a clash the collection sees itself. */
  datatype InsertFault =
    | NoFault
    | DriverError(msg: string)        // not a duplicate-key error
    | OtherIndexClash(index: string)  // a duplicate on a unique index the model does not track

  /** What FindOne and FindOneAndUpdate report: `mongo.ErrNoDocuments` is its own case. */
  datatype FindReply<T> = Found(doc: T) | NoDocuments | ReadError(msg: string)

  /** What InsertOne reports. */
  datatype InsertReply = Inserted | DuplicateKey(msg: string) | InsertFailed(msg: string)

  /** One `uuid.New()` in a retry loop, with the fault the following insert meets. */
  datatype Draw = Draw(id: Uuid, fault: InsertFault)

  /** A retry loop that used up its supply of draws. */
  const Exhausted := "uuid supply exhausted"

  /** How a `Find` and the walk over its cursor may fail. */
  datatype ReadFault =
    | ReadOk
    | FindFailed(msg: string)             // Find itself
    | DecodeFailed(at: nat, msg: string)  // decoding the document at this position
    | CursorFailed(msg: string)           // cursor.Err() after the walk

  /** The `$set` of the update functions: the four named fields, never `_id`. */
  function SetFields(t: Task, upd: Task): (r: Task)
    ensures r.id == t.id
    ensures r.(id := upd.id) == upd
  {
    t.(title := upd.title, description := upd.description, dueDate := upd.dueDate, status := upd.status)
  }

  /** Every user is filed under its own `_id`, and the unique index keeps usernames distinct. */
  predicate UsersWellFormed(docs: map<Uuid, User>)
  {
    && (forall k :: k in docs ==> docs[k].id == k)
    && (forall a, b :: a in docs && b in docs && docs[a].username == docs[b].username ==> a == b)
  }

  /** Some stored user has this username. */
  predicate UsernameTaken(docs: map<Uuid, User>, name: string)
  {
    exists k :: k in docs && docs[k].username == name
  }

  /**
   * The users after `$set is_admin: true` on every one named `name`.
   * `UpdateOne` changes at most one document; the two agree because the
   * unique index on `username` (UsersWellFormed) leaves at most one match.
   */
  function Promoted(docs: map<Uuid, User>, name: string): (d: map<Uuid, User>)
  {
    map k | k in docs :: if docs[k].username == name then docs[k].(isAdmin := true) else docs[k]
  }

  /**
   * Promotion keeps every user under its id with its username and password,
   * makes the named user an admin and leaves every other user's flag alone.
   */
  lemma PromotedEffect(docs: map<Uuid, User>, name: string)
    ensures Promoted(docs, name).Keys == docs.Keys
    ensures forall k :: k in docs ==>
              var u := Promoted(docs, name)[k];
              && u.id == docs[k].id && u.username == docs[k].username && u.password == docs[k].password
              && u.isAdmin == (docs[k].isAdmin || docs[k].username == name)
  {
  }

  /** Promotion keeps the collection well formed. */
  lemma PromotedWellFormed(docs: map<Uuid, User>, name: string)
    ensures UsersWellFormed(docs) ==> UsersWellFormed(Promoted(docs, name))
  {
  }

  /** Promoting twice is promoting once. */
  lemma PromotedIdempotent(docs: map<Uuid, User>, name: string)
    ensures Promoted(Promoted(docs, name), name) == Promoted(docs, name)
  {
  }

  /** The reply of an insert into the users collection, whose unique indexes are `_id` and `username`. */
  function UserInsertReply(docs: map<Uuid, User>, u: User, fault: InsertFault): (r: InsertReply)
    ensures r.Inserted? <==> fault == NoFault && u.id !in docs && !UsernameTaken(docs, u.username)
    ensures r.InsertFailed? <==> fault.DriverError?
  {
    if fault.DriverError? then InsertFailed(fault.msg)
    else if u.id in docs then DuplicateKey(IdKey)
    else if UsernameTaken(docs, u.username) then DuplicateKey(UsernameKey)
    else if fault.OtherIndexClash? then DuplicateKey(fault.index)
    else Inserted
  }

  /** The reply of an insert into the tasks collection, whose only unique index is `_id`. */
  function TaskInsertReply(docs: map<Uuid, Task>, t: Task, fault: InsertFault): (r: InsertReply)
    ensures r.Inserted? <==> fault == NoFault && t.id !in docs
    ensures r.InsertFailed? <==> fault.DriverError?
  {
    if fault.DriverError? then InsertFailed(fault.msg)
    else if t.id in docs then DuplicateKey(IdKey)
    else if fault.OtherIndexClash? then DuplicateKey(fault.index)
    else Inserted
  }

  class TaskCollection {
    var docs: map<Uuid, Task>

    /** Every document is filed under its own `_id`. */
    ghost predicate Keyed()
      reads this
    {
      forall k :: k in docs ==> docs[k].id == k
    }

    constructor ()
      ensures docs == map[]
    {
      docs := map[];
    }

    method InsertOne(t: Task, fault: InsertFault) returns (reply: InsertReply)
      modifies this
      ensures reply == TaskInsertReply(old(docs), t, fault)
      ensures docs == if reply.Inserted? then old(docs)[t.id := t] else old(docs)
      ensures old(Keyed()) ==> Keyed()
    {
      reply := TaskInsertReply(docs, t, fault);
      if reply.Inserted? {
        docs := docs[t.id := t];
      }
    }

    method FindOne(id: Uuid, fault: Option<string>) returns (r: FindReply<Task>)
      ensures fault.Some? ==> r == ReadError(fault.value)
      ensures fault.None? ==> r == if id in docs then Found(docs[id]) else NoDocuments
    {
      if fault.Some? {
        return ReadError(fault.value);
      }
      if id in docs {
        return Found(docs[id]);
      }
      return NoDocuments;
    }

    /** FindOneAndUpdate with `options.After`: the document as it is after the `$set`. */
    method FindOneAndUpdate(id: Uuid, upd: Task, fault: Option<string>) returns (r: FindReply<Task>)
      modifies this
      ensures fault.Some? ==> r == ReadError(fault.value) && docs == old(docs)
      ensures fault.None? && id !in old(docs) ==> r == NoDocuments && docs == old(docs)
      ensures fault.None? && id in old(docs) ==>
                docs == old(docs)[id := SetFields(old(docs)[id], upd)] && r == Found(docs[id])
      ensures old(Keyed()) ==> Keyed()
    {
      if fault.Some? {
        return ReadError(fault.value);
      }
      if id !in docs {
        return NoDocuments;
      }
      docs := docs[id := SetFields(docs[id], upd)];
      return Found(docs[id]);
    }

    /** DeleteOne: the number of documents removed, 0 or 1. */
    method DeleteOne(id: Uuid, fault: Option<string>) returns (r: Result<nat>)
      modifies this
      ensures fault.Some? ==> r == Err(fault.value) && docs == old(docs)
      ensures fault.None? ==> r == Ok(if id in old(docs) then 1 else 0) && docs == old(docs) - {id}
      ensures old(Keyed()) ==> Keyed()
    {
      if fault.Some? {
        return Err(fault.value);
      }
      r := Ok(if id in docs then 1 else 0);
      docs := docs - {id};
    }
  }

  class UserCollection {
    var docs: map<Uuid, User>

    ghost predicate Valid()
      reads this
    {
      UsersWellFormed(docs)
    }

    constructor ()
      ensures docs == map[] && Valid()
    {
      docs := map[];
    }

    method CountDocuments(fault: Option<string>) returns (r: Result<nat>)
      ensures r == if fault.Some? then Err(fault.value) else Ok(|docs|)
    {
      if fault.Some? {
        return Err(fault.value);
      }
      return Ok(|docs|);
    }

    method InsertOne(u: User, fault: InsertFault) returns (reply: InsertReply)
      modifies this
      ensures reply == UserInsertReply(old(docs), u, fault)
      ensures docs == if reply.Inserted? then old(docs)[u.id := u] else old(docs)
      ensures old(Valid()) ==> Valid()
    {
      reply := UserInsertReply(docs, u, fault);
      if reply.Inserted? {
        docs := docs[u.id := u];
      }
    }

    /** FindOne with the filter `{username: name}`. */
    method FindByUsername(name: string, fault: Option<string>) returns (r: FindReply<User>)
      ensures fault.Some? ==> r == ReadError(fault.value)
      ensures fault.None? && !UsernameTaken(docs, name) ==> r == NoDocuments
      ensures fault.None? && UsernameTaken(docs, name) ==>
                r.Found? && r.doc in docs.Values && r.doc.username == name
    {
      if fault.Some? {
        return ReadError(fault.value);
      }
      if !UsernameTaken(docs, name) {
        return NoDocuments;
      }
      var k :| k in docs && docs[k].username == name;
      return Found(docs[k]);
    }

    /** UpdateOne `{username: name}` with `$set is_admin: true`: the number of users matched. */
    method SetAdmin(name: string, fault: Option<string>) returns (r: Result<nat>)
      modifies this
      ensures fault.Some? ==> r == Err(fault.value) && docs == old(docs)
      ensures fault.None? ==> r == Ok(if UsernameTaken(old(docs), name) then 1 else 0)
      ensures fault.None? ==> docs == Promoted(old(docs), name)
      ensures old(Valid()) ==> Valid()
    {
      if fault.Some? {
        return Err(fault.value);
      }
      r := Ok(if UsernameTaken(docs, name) then 1 else 0);
      PromotedWellFormed(docs, name);
      docs := Promoted(docs, name);
    }
  }
}
