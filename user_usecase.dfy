/**
 * The user use case of task_manager/usecases/user_usecase.go: registration,
 * login and promotion over three collaborators the model cannot see, a user
 * repository, a password service and a JWT service. Their replies are
 * parameters, and every use case reports the calls it made to them.
 */
module UserUsecase {
  import opened Wrappers
  import opened Domain

  const InvalidCredentials := "invalid credentials"
  const InternalError := "internal server error"

  /** One call from the use case to a collaborator, with its arguments. */
  datatype UserCall =
    | CountCall                                  // UserRepo.Count
    | HashCall(plain: string)                    // PasswordService.HashPassword
    | RegisterCall(user: User)                   // UserRepo.RegisterUser
    | GetUserCall(username: string)              // UserRepo.GetUser
    | CompareCall(hashed: string, plain: string) // PasswordService.ComparePassword
    | GenerateCall(username: string, isAdmin: bool) // JwtService.GenerateToken
    | PromoteCall(username: string)              // UserRepo.PromoteUser

  /** The caller's `*domain.User`, which RegisterUser writes to. */
  class UserRef {
    var id: Uuid
    var username: string
    var password: string
    var isAdmin: bool

    constructor (u: User)
      ensures Value() == u
    {
      id := u.id;
      username := u.username;
      password := u.password;
      isAdmin := u.isAdmin;
    }

    /** The user the pointer currently points at. */
    function Value(): (u: User)
      reads this
      ensures u.id == id && u.username == username && u.password == password && u.isAdmin == isAdmin
    {
      User(id, username, password, isAdmin)
    }
  }

  /**
   * RegisterUser: counts the users, gives the caller's user a fresh id
   * (`freshId`), makes it an admin when there are no users yet, replaces its
   * password by the hash and hands it to the repository. A count error
   * leaves the user untouched; a hash error leaves the new id and admin flag
   * in place and never reaches the repository.
   */
  method RegisterUser(user: UserRef, count: Result<int>, freshId: Uuid,
                      hash: string -> Result<string>, register: User -> Result<User>)
    returns (r: Result<User>, calls: seq<UserCall>)
    modifies user
    ensures count.Err? ==> r == Err(count.msg) && calls == [CountCall] && user.Value() == old(user.Value())
    ensures count.Ok? ==>
              && user.id == freshId && user.username == old(user.username)
              && user.isAdmin == (old(user.isAdmin) || count.value == 0)
    ensures count.Ok? && hash(old(user.password)).Err? ==>
              && r == Err(hash(old(user.password)).msg)
              && calls == [CountCall, HashCall(old(user.password))]
              && user.password == old(user.password)
    ensures count.Ok? && hash(old(user.password)).Ok? ==>
              && user.password == hash(old(user.password)).value
              && calls == [CountCall, HashCall(old(user.password)), RegisterCall(user.Value())]
              && r == register(user.Value())
  {
    calls := [CountCall];
    if count.Err? {
      return Err(count.msg), calls;
    }
    user.id := freshId;
    if count.value == 0 {
      user.isAdmin := true;
    }
    var plain := user.password;
    calls := calls + [HashCall(plain)];
    var hashed := hash(plain);
    if hashed.Err? {
      return Err(hashed.msg), calls;
    }
    user.password := hashed.value;
    calls := calls + [RegisterCall(user.Value())];
    r := register(user.Value());
  }

  /**
   * LoginUser: fetches the stored user, compares the stored hash with the
   * given password and asks for a token for the STORED username and admin
   * flag. A fetch error passes through; a mismatch and a generation error
   * have their own messages.
   */
  function LoginUser(user: User, getUser: string -> Result<User>, matches: (string, string) -> bool,
                     generate: (string, bool) -> Result<string>): (r: Traced<Result<string>, UserCall>)
    ensures getUser(user.username).Err? ==>
              r == Traced(Err(getUser(user.username).msg), [GetUserCall(user.username)])
    ensures getUser(user.username).Ok? ==>
              var s := getUser(user.username).value;
              && |r.calls| >= 2 && r.calls[..2] == [GetUserCall(user.username), CompareCall(s.password, user.password)]
              && (!matches(s.password, user.password) ==> r == Traced(Err(InvalidCredentials), r.calls[..2]))
              && (matches(s.password, user.password) ==>
                    && r.calls == r.calls[..2] + [GenerateCall(s.username, s.isAdmin)]
                    && r.result == (if generate(s.username, s.isAdmin).Ok? then generate(s.username, s.isAdmin)
                                    else Err(InternalError)))
  {
    match getUser(user.username)
    case Err(msg) => Traced(Err(msg), [GetUserCall(user.username)])
    case Ok(s) =>
      var checked := [GetUserCall(user.username), CompareCall(s.password, user.password)];
      if !matches(s.password, user.password) then Traced(Err(InvalidCredentials), checked)
      else
        var calls := checked + [GenerateCall(s.username, s.isAdmin)];
        match generate(s.username, s.isAdmin)
        case Err(_) => Traced(Err(InternalError), calls)
        case Ok(token) => Traced(Ok(token), calls)
  }

  /** PromoteUser is the repository's PromoteUser. */
  function PromoteUser(name: string, promote: string -> Outcome): (r: Traced<Outcome, UserCall>)
    ensures r == Traced(promote(name), [PromoteCall(name)])
  {
    Traced(promote(name), [PromoteCall(name)])
  }

  /** The admin flag a login request carries never reaches the token: only the stored one does. */
  lemma LoginIgnoresRequestedAdmin(user: User, claimed: bool, getUser: string -> Result<User>,
                                   matches: (string, string) -> bool, generate: (string, bool) -> Result<string>)
    ensures LoginUser(user.(isAdmin := claimed), getUser, matches, generate) == LoginUser(user, getUser, matches, generate)
  {
  }

  /** A token is asked for only after the password matched the stored hash. */
  lemma TokenOnlyAfterMatch(user: User, getUser: string -> Result<User>,
                            matches: (string, string) -> bool, generate: (string, bool) -> Result<string>)
    ensures LoginUser(user, getUser, matches, generate).result.Ok? ==>
              getUser(user.username).Ok? && matches(getUser(user.username).value.password, user.password)
  {
  }
}
