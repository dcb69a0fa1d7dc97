/**
 * Token issuance (`create_token`) and the outcomes of decoding a bearer
 * token. Signing and verifying are done by a JWT library; here encoding is
 * a function parameter `encode` (the secret and algorithm are fixed inside
 * it) and decoding is summarised by the outcome it reports.
 */
module TokenService {
  import opened Wrappers
  import opened Text
  import opened Records

  /** Defaults of the configuration: the signing algorithm and the token lifetime in minutes. */
  const DefaultAlgorithm: string := "HS256"
  const DefaultExpireMinutes: int := 30

  /** The payload of an issued token: `sub` (the user id as a string) and `exp` (a Unix time in seconds). */
  datatype Claims = Claims(sub: string, exp: int)

  /**
   * Why `create_token` raises `ValueError`: the id is not in the users
   * table, or `str(user_id)` refuses an id of more than `MaxStrDigits`
   * digits.
   */
  datatype TokenError = UserNotFound | TooManyDigits

  /**
   * What decoding a token string reports, one case per way the library
   * call can end: the expiry check failed, any other token validation
   * failed (bad signature, bad structure, ...), some other exception was
   * raised, or the payload came back. `sub` is `None` when the payload
   * has no `sub` claim.
   */
  datatype DecodeOutcome =
    | Expired
    | Invalid
    | Failed
    | Decoded(sub: Option<string>)

  /** The claims of a token issued for `userId` at time `now` (seconds). */
  function TokenClaims(userId: int, now: int, expireMinutes: int): (c: Claims)
    requires WithinStrDigits(userId)
    ensures ParseInt(c.sub) == Some(userId)
    ensures c.exp - now == expireMinutes * 60
  {
    DecimalRoundTrip(userId);
    Claims(IntToDecimal(userId), now + expireMinutes * 60)
  }

  /**
   * `create_token(user_id)`: refuses an id that is not in the users table,
   * then one that `str` cannot write, otherwise signs the claims for that id.
   */
  function CreateToken(users: seq<User>, userId: int, now: int, expireMinutes: int,
                       encode: Claims -> string): (r: Result<string, TokenError>)
    ensures r == Err(UserNotFound) <==> forall u :: u in users ==> u.id != userId
    ensures r == Err(TooManyDigits) <==>
              (exists u :: u in users && u.id == userId) && !WithinStrDigits(userId)
    ensures r.Ok? ==> WithinStrDigits(userId) && r.value == encode(TokenClaims(userId, now, expireMinutes))
  {
    if FindById(users, userId).None? then Err(UserNotFound)
    else if !WithinStrDigits(userId) then Err(TooManyDigits)
    else Ok(encode(TokenClaims(userId, now, expireMinutes)))
  }

  /**
   * A reference for the library's decoder with the application's secret:
   * `issued` maps each token string signed with that secret to its claims.
   * Any other string fails verification; a signed token whose `exp` is not
   * after `now` has expired (the library's rule with zero leeway).
   */
  function IdealDecode(issued: map<string, Claims>, now: int): (decode: string -> DecodeOutcome)
    ensures forall token :: token !in issued ==> decode(token) == Invalid
  {
    token =>
      if token !in issued then Invalid
      else if issued[token].exp <= now then Expired
      else Decoded(Some(issued[token].sub))
  }
}
