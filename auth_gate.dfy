/**
 * The three versions of the bearer-token access gate. Each is the closure an
 * AuthMiddleware constructor returns, as a decision from the Authorization
 * header to "go on to the handler" or "abort with this status and message".
 */
module AuthGate {
  import opened Wrappers
  import opened Ascii
  import opened Jwt

  datatype Verdict = Next | Abort(code: int, msg: string)

  const Unauthorized := 401
  const Forbidden := 403
  const ForbiddenMsg := "Forbidden"

  /**
   * The gate of infrastructure/auth_middleware.go, and equally of
   * task_manager/infrastructure/auth_middleware.go: `validate` and `isAdmin`
   * are the JWT service's ValidateToken and ValidateAdmin. Checks run in a
   * fixed order and the first failure decides; only the admin check gives 403.
   */
  function Gate(header: string, adminCheck: bool, validate: string -> Result<Token>, isAdmin: Token -> bool): (v: Verdict)
    ensures header == "" ==> v == Abort(Unauthorized, HeaderRequired)
    ensures header != "" && Spaces(header) != 1 ==> v == Abort(Unauthorized, InvalidHeader)
    ensures header != "" && !BearerShaped(header) ==> v == Abort(Unauthorized, InvalidHeader)
    ensures v.Abort? ==> v.code == Unauthorized || (v.code == Forbidden && v.msg == ForbiddenMsg)
    ensures v == Next <==>
              header != "" && BearerShaped(header) &&
              validate(SplitSpace(header)[1]).Ok? &&
              (adminCheck ==> isAdmin(validate(SplitSpace(header)[1]).value))
    ensures v.Abort? && v.code == Forbidden <==>
              header != "" && BearerShaped(header) && adminCheck &&
              validate(SplitSpace(header)[1]).Ok? &&
              !isAdmin(validate(SplitSpace(header)[1]).value)
  {
    if header == "" then Abort(Unauthorized, HeaderRequired)
    else
      var parts := SplitSpace(header);
      if |parts| != 2 || Lower(parts[0]) != "bearer" then Abort(Unauthorized, InvalidHeader)
      else
        match validate(parts[1])
        case Err(e) => Abort(Unauthorized, e)
        case Ok(token) =>
          if adminCheck && !isAdmin(token) then Abort(Forbidden, ForbiddenMsg)
          else Next
  }

  /**
   * On a header "<bearer in any case> <token>" the validator sees exactly the
   * token; its error text becomes the 401 message.
   */
  lemma GateOnBearerHeader(scheme: string, text: string, adminCheck: bool,
                           validate: string -> Result<Token>, isAdmin: Token -> bool)
    requires ' ' !in scheme && ' ' !in text && Lower(scheme) == "bearer"
    ensures Gate(scheme + " " + text, adminCheck, validate, isAdmin) ==
              match validate(text)
              case Err(e) => Abort(Unauthorized, e)
              case Ok(t) => if adminCheck && !isAdmin(t) then Abort(Forbidden, ForbiddenMsg) else Next
  {
    SplitAroundSpace(scheme, text);
  }

  /** Without the admin check, ValidateAdmin is never consulted. */
  lemma GateIgnoresAdminWhenUnchecked(header: string, validate: string -> Result<Token>,
                                      isAdmin1: Token -> bool, isAdmin2: Token -> bool)
    ensures Gate(header, false, validate, isAdmin1) == Gate(header, false, validate, isAdmin2)
  {
  }

  /** With an empty header neither ValidateToken nor ValidateAdmin is consulted. */
  lemma GateEmptyHeaderConsultsNothing(adminCheck: bool,
                                       validate1: string -> Result<Token>, isAdmin1: Token -> bool,
                                       validate2: string -> Result<Token>, isAdmin2: Token -> bool)
    ensures Gate("", adminCheck, validate1, isAdmin1) == Gate("", adminCheck, validate2, isAdmin2)
  {
  }

  /** The secret the oldest middleware verifies with, a literal of task_manager/middleware/auth_middleware.go. */
  const LegacyKey := "qwertyuiopasdfghjklzxcvbnm"

  const LegacyHeaderRequired := "Authorization header is required"
  const LegacyInvalidHeader := "Invalid authorization header"
  const LegacyInvalidJwt := "Invalid JWT"

  /**
   * The gate of task_manager/middleware/auth_middleware.go: the same header
   * checks with capitalised messages, then an inline jwt.Parse under
   * LegacyKey. `adminCheck` is accepted and never read.
   */
  function LegacyGate(header: string, adminCheck: bool, decode: string -> Option<Token>, now: int): (v: Verdict)
    ensures header == "" ==> v == Abort(Unauthorized, LegacyHeaderRequired)
    ensures header != "" && !BearerShaped(header) ==> v == Abort(Unauthorized, LegacyInvalidHeader)
    ensures v.Abort? ==> v.code == Unauthorized
    ensures v == Next <==>
              header != "" && BearerShaped(header) && Parse(SplitSpace(header)[1], LegacyKey, decode, now).Some?
  {
    if header == "" then Abort(Unauthorized, LegacyHeaderRequired)
    else
      var parts := SplitSpace(header);
      if |parts| != 2 || Lower(parts[0]) != "bearer" then Abort(Unauthorized, LegacyInvalidHeader)
      else
        match Parse(parts[1], LegacyKey, decode, now)
        case None => Abort(Unauthorized, LegacyInvalidJwt)
        case Some(_) => Next
  }

  /** Routes built with adminCheck true admit exactly what the others admit. */
  lemma LegacyIgnoresAdminCheck(header: string, decode: string -> Option<Token>, now: int)
    ensures LegacyGate(header, true, decode, now) == LegacyGate(header, false, decode, now)
  {
  }

  /**
   * The oldest gate is the newer one with the admin check off and a
   * validator that parses under LegacyKey, up to its capitalised messages:
   * both let exactly the same requests through.
   */
  lemma LegacyAgreesWithGate(header: string, adminCheck: bool, decode: string -> Option<Token>, now: int,
                             isAdmin: Token -> bool)
    ensures var validate := (text: string) =>
              match Parse(text, LegacyKey, decode, now)
              case None => Err(InvalidJwt)
              case Some(t) => Ok(t);
            (LegacyGate(header, adminCheck, decode, now) == Next) <==>
            (Gate(header, false, validate, isAdmin) == Next)
  {
  }
}
