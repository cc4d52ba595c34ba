/**
 * Token issue and validation of task_manager/infrastructure/jwt_services.go.
 * A signed token is modelled by what it carries: its signing method, its
 * claims and the key it was signed with. HMAC is taken as ideal, so a token
 * verifies under a key exactly when it was signed with that key. The compact
 * text form of a token is not modelled: whoever reads a header passes in
 * `decode`, the decoding of that text.
 */
module Jwt {
  import opened Wrappers
  import opened Ascii

  /** A claim value as jwt-go's MapClaims holds it. */
  datatype Claim =
    | Text(s: string)
    | Flag(b: bool)
    | Number(n: int)      // a Unix time in seconds
    | Instant(nanos: int) // a `time.Time`, which travels as text

  type Claims = map<string, Claim>

  /**
   * The signing method. HS256 stands for every HMAC method (HS256, HS384,
   * HS512), all of which the key functions accept; RS256 stands for every
   * method that is not HMAC.
   */
  datatype Alg = HS256 | RS256

  datatype Token = Token(alg: Alg, claims: Claims, key: string)

  const HeaderRequired := "authorization header is required"
  const InvalidHeader := "invalid authorization header"
  const InvalidJwt := "invalid JWT"
  const CannotSign := "can't sign token"

  /** The key GenerateToken signs with: a string literal, not the configured secret. */
  const LiteralKey := "JwtSecret"

  /** Twenty minutes, in seconds. */
  const Lifetime := 20 * 60

  /**
   * jwt-go's claim check as far as these tokens use it: a numeric "exp" must
   * not lie in the past, except that an "exp" of 0 counts as no expiry; an
   * "exp" of any other kind is not checked.
   */
  predicate ClaimsValid(claims: Claims, now: int)
  {
    "exp" in claims && claims["exp"].Number? ==> claims["exp"].n == 0 || now <= claims["exp"].n
  }

  /**
   * `jwt.Parse` with the key function of this file: a token that does not
   * decode, whose method is not HMAC, that was signed with another key or
   * whose claims fail the check gives nothing.
   */
  function Parse(text: string, key: string, decode: string -> Option<Token>, now: int): (r: Option<Token>)
    ensures r.Some? <==>
              decode(text).Some? && decode(text).value.alg == HS256 &&
              decode(text).value.key == key && ClaimsValid(decode(text).value.claims, now)
    ensures r.Some? ==> r == decode(text)
  {
    match decode(text)
    case None => None
    case Some(t) =>
      if t.alg != HS256 then None
      else if t.key != key then None
      else if !ClaimsValid(t.claims, now) then None
      else Some(t)
  }

  /** The header check: split on " " into exactly two parts, the first "bearer" in any ASCII case. */
  predicate BearerShaped(header: string)
  {
    var parts := SplitSpace(header);
    |parts| == 2 && Lower(parts[0]) == "bearer"
  }

  /**
   * GenerateToken: an HS256 token with exactly the claims "username",
   * "isAdmin" and "exp" (now plus twenty minutes), signed with LiteralKey.
   * `signs` is whether the signer succeeds.
   */
  function GenerateToken(username: string, isAdmin: bool, now: int, signs: bool): (r: Result<Token>)
    ensures r.Err? <==> !signs
    ensures r.Err? ==> r.msg == CannotSign
    ensures r.Ok? ==> r.value.alg == HS256 && r.value.key == LiteralKey
    ensures r.Ok? ==> r.value.claims.Keys == {"username", "isAdmin", "exp"}
    ensures r.Ok? ==> r.value.claims["username"] == Text(username) && r.value.claims["isAdmin"] == Flag(isAdmin)
    ensures r.Ok? ==> r.value.claims["exp"] == Number(now + Lifetime)
  {
    var claims := map["username" := Text(username), "isAdmin" := Flag(isAdmin), "exp" := Number(now + Lifetime)];
    if signs then Ok(Token(HS256, claims, LiteralKey)) else Err(CannotSign)
  }

  /**
   * ValidateAuthHeader against the configured `secret`: an empty header, a
   * header of the wrong shape, and every parse failure each have their own
   * message; a token comes back only when it verifies under `secret`.
   */
  function ValidateAuthHeader(header: string, secret: string, decode: string -> Option<Token>, now: int): (r: Result<Token>)
    ensures header == "" ==> r == Err(HeaderRequired)
    ensures header != "" && !BearerShaped(header) ==> r == Err(InvalidHeader)
    ensures r.Err? ==> r.msg in {HeaderRequired, InvalidHeader, InvalidJwt}
    ensures r.Ok? ==> BearerShaped(header) && decode(SplitSpace(header)[1]) == Some(r.value)
    ensures r.Ok? ==> r.value.alg == HS256 && r.value.key == secret && ClaimsValid(r.value.claims, now)
  {
    if header == "" then Err(HeaderRequired)
    else
      var parts := SplitSpace(header);
      if |parts| != 2 || Lower(parts[0]) != "bearer" then Err(InvalidHeader)
      else
        match Parse(parts[1], secret, decode, now)
        case None => Err(InvalidJwt)
        case Some(t) => Ok(t)
  }

  /** ValidateAdmin reads "is_admin" with a type assertion, which panics unless that claim is a bool. */
  predicate AdminReadable(t: Token)
  {
    "is_admin" in t.claims && t.claims["is_admin"].Flag?
  }

  function ValidateAdmin(t: Token): (b: bool)
    requires AdminReadable(t)
    ensures b <==> t.claims["is_admin"] == Flag(true)
  {
    t.claims["is_admin"].b
  }

  /** Any header "<bearer in any case> <token>" with no other space reaches the parser with exactly that token. */
  lemma BearerHeader(scheme: string, text: string, secret: string, decode: string -> Option<Token>, now: int)
    requires ' ' !in scheme && ' ' !in text && Lower(scheme) == "bearer"
    ensures BearerShaped(scheme + " " + text)
    ensures ValidateAuthHeader(scheme + " " + text, secret, decode, now) ==
              match Parse(text, secret, decode, now)
              case None => Err(InvalidJwt)
              case Some(t) => Ok(t)
  {
    SplitAroundSpace(scheme, text);
  }

  /**
   * As written, a token from GenerateToken never passes ValidateAuthHeader
   * unless the configured secret happens to be the literal "JwtSecret".
   */
  lemma GeneratedTokenRejected(username: string, isAdmin: bool, issued: int, text: string,
                               secret: string, decode: string -> Option<Token>, now: int)
    requires ' ' !in text && secret != LiteralKey
    requires decode(text) == Some(GenerateToken(username, isAdmin, issued, true).value)
    ensures ValidateAuthHeader("Bearer " + text, secret, decode, now) == Err(InvalidJwt)
  {
    assert Lower("Bearer") == "bearer";
    assert "Bearer" + " " + text == "Bearer " + text;
    BearerHeader("Bearer", text, secret, decode, now);
    assert decode(text).value.key == LiteralKey;
    assert Parse(text, secret, decode, now) == None;
  }

  /**
   * As written, GenerateToken writes "isAdmin" while ValidateAdmin reads
   * "is_admin": a generated token never meets ValidateAdmin's requirement,
   * so the admin check on it panics.
   */
  lemma GeneratedTokenHasNoAdminClaim(username: string, isAdmin: bool, now: int)
    ensures !AdminReadable(GenerateToken(username, isAdmin, now, true).value)
  {
  }

  /** GenerateToken as evidently intended: the admin flag under "is_admin", signed with the configured secret. */
  function GenerateTokenFixed(username: string, isAdmin: bool, now: int, secret: string, signs: bool): (r: Result<Token>)
    ensures r.Err? <==> !signs
    ensures r.Err? ==> r.msg == CannotSign
    ensures r.Ok? ==> r.value.alg == HS256 && r.value.key == secret && AdminReadable(r.value)
  {
    var claims := map["username" := Text(username), "is_admin" := Flag(isAdmin), "exp" := Number(now + Lifetime)];
    if signs then Ok(Token(HS256, claims, secret)) else Err(CannotSign)
  }

  /**
   * With the fix, a token issued at `issued` and presented as a bearer
   * header within its twenty minutes validates, and ValidateAdmin gives back
   * the admin flag it was issued with.
   */
  lemma FixedTokenRoundTrip(username: string, isAdmin: bool, issued: int, text: string,
                            secret: string, decode: string -> Option<Token>, now: int)
    requires ' ' !in text && now <= issued + Lifetime
    requires decode(text) == Some(GenerateTokenFixed(username, isAdmin, issued, secret, true).value)
    ensures var r := ValidateAuthHeader("Bearer " + text, secret, decode, now);
            r.Ok? && AdminReadable(r.value) && ValidateAdmin(r.value) == isAdmin
  {
    assert Lower("Bearer") == "bearer";
    assert "Bearer" + " " + text == "Bearer " + text;
    BearerHeader("Bearer", text, secret, decode, now);
    var t := decode(text).value;
    assert t.claims["exp"] == Number(issued + Lifetime);
    assert Parse(text, secret, decode, now) == Some(t);
    assert t.claims["is_admin"] == Flag(isAdmin);
  }

  /** After twenty minutes the same token is refused, for a token issued after the Unix epoch. */
  lemma FixedTokenExpires(username: string, isAdmin: bool, issued: int, text: string,
                          secret: string, decode: string -> Option<Token>, now: int)
    requires 0 <= issued && ' ' !in text && now > issued + Lifetime
    requires decode(text) == Some(GenerateTokenFixed(username, isAdmin, issued, secret, true).value)
    ensures ValidateAuthHeader("Bearer " + text, secret, decode, now) == Err(InvalidJwt)
  {
    assert Lower("Bearer") == "bearer";
    assert "Bearer" + " " + text == "Bearer " + text;
    BearerHeader("Bearer", text, secret, decode, now);
    var t := decode(text).value;
    assert t.claims["exp"] == Number(issued + Lifetime);
    assert Parse(text, secret, decode, now) == None;
  }
}
