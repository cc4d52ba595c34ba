/**
 * The older user service of task_manager/services/user_service.go: the same
 * users collection and registration loop as the repository, but the first
 * user to register becomes an admin, and login builds its own token with
 * "is_admin" and signs it with a literal key.
 */
module UserStoreService {
  import opened Wrappers
  import opened Ascii
  import opened Domain
  import opened MongoDriver
  import opened Jwt
  import opened AuthGate
  import opened UserRepository

  /** The key LoginUser signs with, a literal of the file. */
  const ServiceKey := "qwertyuiopasdfghjklzxcvbnm"

  /** `time.Now().Add(900)`: the Duration 900 is nanoseconds. */
  const ExpiryNanos := 900

  /** Fifteen minutes, in seconds: what the 900 evidently stands for. */
  const ExpirySeconds := 900

  /**
   * The token LoginUser signs for the stored user at `nowNanos`: "username",
   * "is_admin" and an "exp" that is a `time.Time`, not a number.
   */
  function ServiceToken(stored: User, nowNanos: int): (t: Token)
    ensures t.alg == HS256 && t.key == ServiceKey
    ensures t.claims.Keys == {"username", "is_admin", "exp"}
    ensures t.claims["username"] == Text(stored.username)
    ensures AdminReadable(t) && ValidateAdmin(t) == stored.isAdmin
    ensures t.claims["exp"] == Instant(nowNanos + ExpiryNanos)
  {
    Token(HS256, map["username" := Text(stored.username), "is_admin" := Flag(stored.isAdmin),
                     "exp" := Instant(nowNanos + ExpiryNanos)], ServiceKey)
  }

  /**
   * As written, the token's "exp" is not a number, so jwt-go never checks it:
   * the middleware that verifies under the same literal key admits the
   * token at every later time.
   */
  lemma ServiceTokenNeverExpires(stored: User, nowNanos: int, text: string, decode: string -> Option<Token>,
                                 later: int, adminCheck: bool)
    requires ' ' !in text && decode(text) == Some(ServiceToken(stored, nowNanos))
    ensures LegacyGate("Bearer " + text, adminCheck, decode, later) == Next
  {
    assert Lower("Bearer") == "bearer";
    assert "Bearer" + " " + text == "Bearer " + text;
    SplitAroundSpace("Bearer", text);
    assert Parse(text, LegacyKey, decode, later).Some?;
  }

  /** The token as evidently intended: an "exp" fifteen minutes after `now`, in Unix seconds. */
  function ServiceTokenFixed(stored: User, now: int): (t: Token)
    ensures t.alg == HS256 && t.key == ServiceKey
    ensures t.claims.Keys == {"username", "is_admin", "exp"}
    ensures t.claims["username"] == Text(stored.username)
    ensures AdminReadable(t) && ValidateAdmin(t) == stored.isAdmin
    ensures t.claims["exp"] == Number(now + ExpirySeconds)
  {
    Token(HS256, map["username" := Text(stored.username), "is_admin" := Flag(stored.isAdmin),
                     "exp" := Number(now + ExpirySeconds)], ServiceKey)
  }

  /** With the fix, the middleware admits the token for fifteen minutes and refuses it
      afterwards, for a token issued after the Unix epoch. */
  lemma FixedServiceTokenExpires(stored: User, now: int, text: string, decode: string -> Option<Token>,
                                 later: int, adminCheck: bool)
    requires 0 <= now && ' ' !in text && decode(text) == Some(ServiceTokenFixed(stored, now))
    ensures LegacyGate("Bearer " + text, adminCheck, decode, later) == Next <==> later <= now + ExpirySeconds
  {
    assert Lower("Bearer") == "bearer";
    assert "Bearer" + " " + text == "Bearer " + text;
    SplitAroundSpace("Bearer", text);
    var t := decode(text).value;
    assert t.claims["exp"] == Number(now + ExpirySeconds);
    assert Parse(text, LegacyKey, decode, later).Some? <==> later <= now + ExpirySeconds;
  }

  class UserService {
    const coll: UserCollection

    constructor (coll: UserCollection)
      ensures this.coll == coll
    {
      this.coll := coll;
    }

    /**
     * Hashes the password, counts the users (`countFault` is the driver's
     * error, if any), makes the user an admin when there are none yet, and
     * runs the registration loop. A failure before the loop stores nothing.
     */
    method RegisterUser(user: User, hash: string -> Result<string>, countFault: Option<string>, draws: seq<Draw>)
      returns (r: Result<User>)
      modifies coll
      ensures hash(user.password).Err? ==> r == Err(hash(user.password).msg) && coll.docs == old(coll.docs)
      ensures hash(user.password).Ok? && countFault.Some? ==> r == Err(countFault.value) && coll.docs == old(coll.docs)
      ensures hash(user.password).Ok? && countFault.None? ==>
                (r, coll.docs) ==
                InsertOutcome(old(coll.docs),
                              user.(password := hash(user.password).value,
                                    isAdmin := user.isAdmin || |old(coll.docs)| == 0),
                              draws)
      ensures r.Ok? && |old(coll.docs)| == 0 ==> r.value.isAdmin
      ensures r.Ok? && |old(coll.docs)| > 0 ==> r.value.isAdmin == user.isAdmin
      ensures old(coll.Valid()) ==> coll.Valid()
    {
      var hashed := hash(user.password);
      if hashed.Err? {
        return Err(hashed.msg);
      }
      var u := user.(password := hashed.value);
      var count := coll.CountDocuments(countFault);
      if count.Err? {
        return Err(count.msg);
      }
      if count.value == 0 {
        u := u.(isAdmin := true);
      }
      r := InsertWithFreshIds(coll, u, draws);
    }

    /**
     * The repository's login decision, with the token built here: the
     * stored user's name and admin flag, signed with ServiceKey (`signs` is
     * whether signing succeeds).
     */
    method LoginUser(user: User, fault: Option<string>, matches: (string, string) -> bool, nowNanos: int, signs: bool)
      returns (r: Result<Token>)
      ensures fault.Some? ==> r == Err(fault.value)
      ensures fault.None? && !UsernameTaken(coll.docs, user.username) ==> r == Err(UserNotFound)
      ensures fault.None? && UsernameTaken(coll.docs, user.username) ==>
                exists s :: s in coll.docs.Values && s.username == user.username &&
                  r == CheckLogin(s, user.password, matches,
                                  if signs then Ok(ServiceToken(s, nowNanos)) else Err(CannotSign))
    {
      var found := coll.FindByUsername(user.username, fault);
      match found
      case ReadError(msg) => return Err(msg);
      case NoDocuments => return Err(UserNotFound);
      case Found(existing) =>
        if !matches(existing.password, user.password) {
          return Err(InvalidCredentials);
        }
        if !signs {
          return Err(InternalError);
        }
        return Ok(ServiceToken(existing, nowNanos));
    }

    /** Sets `is_admin` on the user with that username; no match is not an error. */
    method PromoteUser(name: string, fault: Option<string>) returns (err: Outcome)
      modifies coll
      ensures fault.Some? ==> err == Fail(fault.value) && coll.docs == old(coll.docs)
      ensures fault.None? ==> err == Pass && coll.docs == Promoted(old(coll.docs), name)
      ensures old(coll.Valid()) ==> coll.Valid()
    {
      var matched := coll.SetAdmin(name, fault);
      if matched.Err? {
        return Fail(matched.msg);
      }
      return Pass;
    }
  }
}
