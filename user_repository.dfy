/**
 * The user repository of task_manager/repositories/user_repository.go: a
 * MongoDB users collection with a unique index on `username`, a registration
 * loop that draws fresh uuids until the insert is decided, a login that
 * compares password hashes and issues a token, and a promotion to admin.
 */
module UserRepository {
  import opened Wrappers
  import opened Ascii
  import opened Domain
  import opened MongoDriver
  import opened Jwt

  const UsernameExists := "username already exists"
  const UserNotFound := "user not found"
  const InvalidCredentials := "invalid credentials"
  const InternalError := "internal server error"

  /**
   * How the registration loop reads one InsertOne reply for the user `u`:
   * None means "draw another uuid". A duplicate-key message is searched for
   * "username" first and "_id" second; a duplicate that names neither falls
   * through to the success return although nothing was stored.
   */
  function Classify(reply: InsertReply, u: User): (r: Option<Result<User>>)
    ensures r.None? <==> reply.DuplicateKey? && !Contains(reply.msg, "username") && Contains(reply.msg, "_id")
    ensures reply.DuplicateKey? && Contains(reply.msg, "username") ==> r == Some(Err(UsernameExists))
    ensures reply.InsertFailed? ==> r == Some(Err(reply.msg))
    ensures r.Some? && r.value.Ok? <==>
              reply.Inserted? || (reply.DuplicateKey? && !Contains(reply.msg, "username") && !Contains(reply.msg, "_id"))
    ensures r.Some? && r.value.Ok? ==> r.value.value == u
  {
    match reply
    case DuplicateKey(msg) =>
      if Contains(msg, "username") then Some(Err(UsernameExists))
      else if Contains(msg, "_id") then None
      else Some(Ok(u))
    case InsertFailed(msg) => Some(Err(msg))
    case Inserted => Some(Ok(u))
  }

  /**
   * The result of the registration loop and the users it leaves: each draw
   * gives the user a new id and tries the insert; the first reply that is not
   * a retry decides.
   */
  function InsertOutcome(docs: map<Uuid, User>, user: User, draws: seq<Draw>): (o: (Result<User>, map<Uuid, User>))
    ensures o.0.Ok? ==> o.0.value == user.(id := o.0.value.id)
    ensures o.1 == docs ||
            (&& o.0.Ok? && o.0.value.id !in docs && !UsernameTaken(docs, user.username)
             && o.1 == docs[o.0.value.id := o.0.value])
    decreases |draws|
  {
    if draws == [] then (Err(Exhausted), docs)
    else
      var u := user.(id := draws[0].id);
      var reply := UserInsertReply(docs, u, draws[0].fault);
      match Classify(reply, u)
      case None => InsertOutcome(docs, user, draws[1..])
      case Some(r) => (r, if reply.Inserted? then docs[u.id := u] else docs)
  }

  /**
   * The registration loop over `coll`, shared word for word by the
   * repository and the older service: `uuid.New()`, InsertOne, and the
   * duplicate-key triage, until a reply decides or the draws run out.
   */
  method InsertWithFreshIds(coll: UserCollection, user: User, draws: seq<Draw>) returns (r: Result<User>)
    modifies coll
    ensures (r, coll.docs) == InsertOutcome(old(coll.docs), user, draws)
    ensures old(coll.Valid()) ==> coll.Valid()
  {
    for i := 0 to |draws|
      invariant coll.docs == old(coll.docs)
      invariant InsertOutcome(coll.docs, user, draws) == InsertOutcome(coll.docs, user, draws[i..])
    {
      assert draws[i..][0] == draws[i] && draws[i..][1..] == draws[i + 1..];
      var u := user.(id := draws[i].id);
      var reply := coll.InsertOne(u, draws[i].fault);
      if reply.DuplicateKey? {
        if Contains(reply.msg, "username") {
          return Err(UsernameExists);
        }
        if Contains(reply.msg, "_id") {
          continue;
        }
      } else if reply.InsertFailed? {
        return Err(reply.msg);
      }
      return Ok(u);
    }
    assert draws[|draws|..] == [];
    return Err(Exhausted);
  }

  /** The messages the driver gives for the two indexes are read as the loop intends. */
  lemma IndexMessagesClassified(u: User)
    ensures Classify(DuplicateKey(IdKey), u) == None
    ensures Classify(DuplicateKey(UsernameKey), u) == Some(Err(UsernameExists))
  {
    ContainsNothingLonger(IdKey, "username");
    assert "_id" <= IdKey;
    assert "username" <= UsernameKey;
  }

  /** Position of the first draw whose id is not in use, or |draws| when there is none. */
  function FirstFree(docs: map<Uuid, User>, draws: seq<Draw>): (k: nat)
    ensures k <= |draws|
    ensures k < |draws| ==> draws[k].id !in docs
    ensures forall j :: 0 <= j < k ==> draws[j].id in docs
    decreases |draws|
  {
    if draws == [] then 0
    else if draws[0].id !in docs then 0
    else 1 + FirstFree(docs, draws[1..])
  }

  /**
   * With fault-free inserts and a supply that holds a free id, registration
   * refuses exactly a username already taken; otherwise it stores the user
   * under the first free id drawn.
   */
  lemma {:induction false} RegisterDecided(docs: map<Uuid, User>, user: User, draws: seq<Draw>)
    requires forall i :: 0 <= i < |draws| ==> draws[i].fault == NoFault
    requires exists i :: 0 <= i < |draws| && draws[i].id !in docs
    ensures var o := InsertOutcome(docs, user, draws);
            && (o.0 == Err(UsernameExists) <==> UsernameTaken(docs, user.username))
            && (!UsernameTaken(docs, user.username) ==>
                  && o.0.Ok? && o.0.value.id == draws[FirstFree(docs, draws)].id
                  && o.1 == docs[o.0.value.id := o.0.value])
  {
    var u := user.(id := draws[0].id);
    IndexMessagesClassified(u);
    if draws[0].id in docs {
      var i :| 0 <= i < |draws| && draws[i].id !in docs;
      assert draws[1..][i - 1] == draws[i];
      RegisterDecided(docs, user, draws[1..]);
      var k := FirstFree(docs, draws[1..]);
      assert FirstFree(docs, draws) == 1 + k && draws[1 + k] == draws[1..][k];
    }
  }

  /** The unique index holds across registration: usernames stay distinct and users stay under their ids. */
  lemma RegisterKeepsUsersWellFormed(docs: map<Uuid, User>, user: User, draws: seq<Draw>)
    requires UsersWellFormed(docs)
    ensures UsersWellFormed(InsertOutcome(docs, user, draws).1)
  {
    var o := InsertOutcome(docs, user, draws);
    if o.1 != docs {
      var u := o.0.value;
      forall a, b | a in o.1 && b in o.1 && o.1[a].username == o.1[b].username ensures a == b {
        if a != u.id && b != u.id {
        } else if a == u.id && b != u.id {
          assert false;
        } else if a != u.id && b == u.id {
          assert false;
        }
      }
    }
  }

  /**
   * The decision LoginUser takes once it holds the stored user: a password
   * that does not match the stored hash is refused; otherwise the token
   * issued for the stored user is handed out, and a failure to issue it
   * becomes "internal server error".
   */
  function CheckLogin(stored: User, password: string, matches: (string, string) -> bool,
                      issued: Result<Token>): (r: Result<Token>)
    ensures r.Ok? <==> matches(stored.password, password) && issued.Ok?
    ensures r.Ok? ==> r == issued
    ensures !matches(stored.password, password) ==> r == Err(InvalidCredentials)
    ensures matches(stored.password, password) && issued.Err? ==> r == Err(InternalError)
  {
    if !matches(stored.password, password) then Err(InvalidCredentials)
    else if issued.Err? then Err(InternalError)
    else issued
  }

  /** Under the unique index, a username names at most one stored user, so login is decided by the store. */
  lemma StoredUserUnique(docs: map<Uuid, User>, name: string, s1: User, s2: User)
    requires UsersWellFormed(docs)
    requires s1 in docs.Values && s1.username == name
    requires s2 in docs.Values && s2.username == name
    ensures s1 == s2
  {
    var k1 :| k1 in docs && docs[k1] == s1;
    var k2 :| k2 in docs && docs[k2] == s2;
  }

  class UserRepository {
    const coll: UserCollection

    constructor (coll: UserCollection)
      ensures this.coll == coll
    {
      this.coll := coll;
    }

    /** The number of stored users, or the driver's error. */
    method Count(fault: Option<string>) returns (r: Result<nat>)
      ensures fault.Some? ==> r == Err(fault.value)
      ensures fault.None? ==> r == Ok(|coll.docs|)
    {
      r := coll.CountDocuments(fault);
    }

    /**
     * Hashes the password (`hash` is the password service: the hash or its
     * error) and then runs the registration loop with the hash in place of
     * the password; a hashing error stores nothing.
     */
    method RegisterUser(user: User, hash: string -> Result<string>, draws: seq<Draw>) returns (r: Result<User>)
      modifies coll
      ensures hash(user.password).Err? ==> r == Err(hash(user.password).msg) && coll.docs == old(coll.docs)
      ensures hash(user.password).Ok? ==>
                (r, coll.docs) == InsertOutcome(old(coll.docs), user.(password := hash(user.password).value), draws)
      ensures r.Ok? ==> r.value.password == hash(user.password).value
      ensures old(coll.Valid()) ==> coll.Valid()
    {
      var hashed := hash(user.password);
      if hashed.Err? {
        return Err(hashed.msg);
      }
      r := InsertWithFreshIds(coll, user.(password := hashed.value), draws);
    }

    /**
     * Finds the user by username; a missing user, a failing read, a wrong
     * password and a failing signer each end the login with their own error.
     * The token is GenerateToken's, for the STORED username and admin flag.
     */
    method LoginUser(user: User, fault: Option<string>, matches: (string, string) -> bool, now: int, signs: bool)
      returns (r: Result<Token>)
      ensures fault.Some? ==> r == Err(fault.value)
      ensures fault.None? && !UsernameTaken(coll.docs, user.username) ==> r == Err(UserNotFound)
      ensures fault.None? && UsernameTaken(coll.docs, user.username) ==>
                exists s :: s in coll.docs.Values && s.username == user.username &&
                  r == CheckLogin(s, user.password, matches, GenerateToken(s.username, s.isAdmin, now, signs))
    {
      var found := coll.FindByUsername(user.username, fault);
      match found
      case ReadError(msg) => return Err(msg);
      case NoDocuments => return Err(UserNotFound);
      case Found(existing) =>
        if !matches(existing.password, user.password) {
          return Err(InvalidCredentials);
        }
        var token := GenerateToken(existing.username, existing.isAdmin, now, signs);
        if token.Err? {
          return Err(InternalError);
        }
        return token;
    }

    /**
     * Sets `is_admin` on the user with that username. No match is not an
     * error: only the driver's failure is reported.
     */
    method PromoteUser(name: string, fault: Option<string>) returns (err: Outcome)
      modifies coll
      ensures fault.Some? ==> err == Fail(fault.value) && coll.docs == old(coll.docs)
      ensures fault.None? ==> err == Pass && coll.docs == Promoted(old(coll.docs), name)
      ensures old(coll.Valid()) ==> coll.Valid()
    {
      var matched := coll.SetAdmin(name, fault);
      if matched.Err? {
        return Fail(matched.msg);
      }
      return Pass;
    }
  }
}
