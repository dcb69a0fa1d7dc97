/**
 * The `token_required` decorator: the per-request decision that either
 * answers with a fixed error response or calls the wrapped handler with
 * the user the bearer token resolves to.
 */
module AuthMiddleware {
  import opened Wrappers
  import opened Text
  import opened Records
  import opened TokenService

  const BearerPrefix: string := "Bearer "

  const MissingOrMalformed := Response(403, Message("Token is missing or malformed"))
  const TokenExpired := Response(401, Message("Token has expired"))
  const TokenInvalid := Response(401, Message("Token is invalid"))
  const SomethingWentWrong := Response(500, Message("Something went wrong"))
  const UserNotFoundResponse := Response(404, Message("User not found"))

  /** Either the request is answered here, or the handler runs for `user`. */
  datatype Decision = Deny(response: Response) | Invoke(user: User)

  /** `request.headers.get("Authorization", "")`. */
  function HeaderOrEmpty(header: Option<string>): (h: string)
    ensures header.Some? ==> h == header.value
    ensures header.None? ==> !StartsWith(h, BearerPrefix)
  {
    if header.Some? then header.value else ""
  }

  /**
   * The token handed to the decoder: every occurrence of the prefix is
   * removed from the header (not only the leading one), then whitespace is
   * stripped from both ends.
   */
  function ExtractToken(header: string): (token: string)
    ensures |token| <= |header|
    ensures token != [] ==> !IsWhitespace(token[0]) && !IsWhitespace(token[|token| - 1])
  {
    Strip(RemoveAll(header, BearerPrefix))
  }

  /**
   * The token the decorator hands to the decoder, or `None` when the
   * header (or its `""` default) does not start with the prefix.
   */
  function BearerToken(header: Option<string>): (t: Option<string>)
    ensures t.None? <==> !StartsWith(HeaderOrEmpty(header), BearerPrefix)
  {
    var h := HeaderOrEmpty(header);
    if StartsWith(h, BearerPrefix) then Some(ExtractToken(h)) else None
  }

  /**
   * What the decorator does with the decoder's outcome: each exception
   * becomes its fixed response; a payload is resolved to a user through
   * `int(payload["sub"])` and a lookup by primary key.
   */
  function Resolve(outcome: DecodeOutcome, users: seq<User>): (d: Decision)
    ensures d.Invoke? ==> d.user in users
    ensures d.Deny? ==> d.response.status in {401, 404, 500}
  {
    match outcome
    case Expired => Deny(TokenExpired)
    case Invalid => Deny(TokenInvalid)
    case Failed => Deny(SomethingWentWrong)
    case Decoded(sub) =>
      if sub.None? then Deny(SomethingWentWrong)          // KeyError on decoded["sub"]
      else match ParseInt(sub.value)
        case None => Deny(SomethingWentWrong)              // ValueError from int(...)
        case Some(id) =>
          match FindById(users, id)
          case None => Deny(UserNotFoundResponse)
          case Some(u) => Invoke(u)
  }

  /**
   * The decision of the decorator for one request, given the
   * `Authorization` header (absent is `None`), the JWT decoder and the
   * users table.
   */
  function Authenticate(header: Option<string>, decode: string -> DecodeOutcome,
                        users: seq<User>): (d: Decision)
    ensures d.Invoke? ==> d.user in users
    ensures d.Deny? ==> d.response.status in {401, 403, 404, 500}
    ensures !StartsWith(HeaderOrEmpty(header), BearerPrefix) ==> d == Deny(MissingOrMalformed)
  {
    match BearerToken(header)
    case None => Deny(MissingOrMalformed)
    case Some(token) => Resolve(decode(token), users)
  }

  /**
   * The decorated handler: the decision's error response, or whatever the
   * wrapped handler returns for the resolved user. The handler runs
   * outside the `try`, so its own failures are not turned into a 500 here.
   */
  function Decorated(header: Option<string>, decode: string -> DecodeOutcome,
                     users: seq<User>, handler: User -> Response): (r: Response)
    ensures Authenticate(header, decode, users).Invoke? ==>
              r == handler(Authenticate(header, decode, users).user)
    ensures Authenticate(header, decode, users).Deny? ==>
              r == Authenticate(header, decode, users).response
  {
    match Authenticate(header, decode, users)
    case Deny(resp) => resp
    case Invoke(u) => handler(u)
  }

  /**
   * Without a `Bearer ` header the answer is 403 whatever the decoder and
   * the table hold: nothing is decoded and nothing is looked up.
   */
  lemma MissingHeaderIndependent(header: Option<string>,
                                 decode1: string -> DecodeOutcome, users1: seq<User>,
                                 decode2: string -> DecodeOutcome, users2: seq<User>)
    requires !StartsWith(HeaderOrEmpty(header), BearerPrefix)
    ensures Authenticate(header, decode1, users1) == Authenticate(header, decode2, users2)
                                                  == Deny(MissingOrMalformed)
  {
  }

  /**
   * With a `Bearer ` header, the decoder is applied to the extracted token
   * and the decision is what its outcome resolves to.
   */
  lemma DecodesExtractedToken(h: string, decode: string -> DecodeOutcome, users: seq<User>)
    requires StartsWith(h, BearerPrefix)
    ensures Authenticate(Some(h), decode, users) == Resolve(decode(ExtractToken(h)), users)
  {
  }

  /** The decoder's failures map to fixed responses, and the handler is not called. */
  lemma DecodeFailureResponses(users: seq<User>)
    ensures Resolve(Expired, users) == Deny(TokenExpired)
    ensures Resolve(Invalid, users) == Deny(TokenInvalid)
    ensures Resolve(Failed, users) == Deny(SomethingWentWrong)
  {
  }

  /**
   * A decoded payload: a missing or non-numeric `sub` gives 500, a number
   * with no user row gives 404, and otherwise the handler gets that row.
   */
  lemma DecodedPayloadResponses(sub: Option<string>, users: seq<User>)
    ensures sub.None? ==> Resolve(Decoded(sub), users) == Deny(SomethingWentWrong)
    ensures sub.Some? && ParseInt(sub.value).None? ==> Resolve(Decoded(sub), users) == Deny(SomethingWentWrong)
    ensures sub.Some? && ParseInt(sub.value).Some? ==>
              && ((forall u :: u in users ==> u.id != ParseInt(sub.value).value) ==>
                    Resolve(Decoded(sub), users) == Deny(UserNotFoundResponse))
              && (forall u :: u in users && u.id == ParseInt(sub.value).value && IncreasingUserIds(users) ==>
                    Resolve(Decoded(sub), users) == Invoke(u))
  {
    if sub.Some? && ParseInt(sub.value).Some? {
      forall u | u in users && u.id == ParseInt(sub.value).value && IncreasingUserIds(users)
        ensures Resolve(Decoded(sub), users) == Invoke(u)
      {
        FindByIdFindsRow(users, u);
      }
    }
  }

  /**
   * `int()` refuses a `sub` that starts with one of the separators U+001C
   * to U+001F (which `str.isspace` counts as whitespace but `int` does
   * not skip), so such a payload ends in the 500 response.
   */
  lemma SeparatorSubResponse(c: char, s: string, users: seq<User>)
    requires '\U{001C}' <= c <= '\U{001F}'
    ensures Resolve(Decoded(Some([c] + s)), users) == Deny(SomethingWentWrong)
  {
    ParseIntRejectsSeparator(c, s);
  }

  /** A `sub` numeral of more than `MaxStrDigits` digits also ends in the 500 response. */
  lemma LongSubResponse(s: string, users: seq<User>)
    requires IsDigitGroup(s) && DigitCount(s) > MaxStrDigits
    ensures Resolve(Decoded(Some(s)), users) == Deny(SomethingWentWrong)
    ensures Resolve(Decoded(Some("-" + s)), users) == Deny(SomethingWentWrong)
  {
    ParseIntRejectsLongNumeral(s);
  }

  /**
   * The handler runs exactly when the decoder returns a payload whose `sub`
   * parses as an integer that is the id of a user row.
   */
  lemma InvokedExactlyWhen(outcome: DecodeOutcome, users: seq<User>)
    ensures Resolve(outcome, users).Invoke? <==>
              && outcome.Decoded? && outcome.sub.Some?
              && ParseInt(outcome.sub.value).Some?
              && exists u :: u in users && u.id == ParseInt(outcome.sub.value).value
  {
  }

  /** A header `Bearer <token>` hands `<token>` to the decoder when the token has no whitespace. */
  lemma {:induction false} ExtractPlainToken(token: string)
    requires NoWhitespace(token)
    ensures ExtractToken(BearerPrefix + token) == token
  {
    RemoveAllInterior([], BearerPrefix, token);
    assert [] + BearerPrefix + token == BearerPrefix + token;
    assert IsWhitespace(BearerPrefix[6]);
    RemoveAllAbsent(token, BearerPrefix);
    TrimNoWhitespace(StrSpaces, token);
  }

  /** A repeated prefix is swallowed too: `Bearer Bearer <token>` hands over the same token. */
  lemma RepeatedPrefix(token: string)
    requires NoWhitespace(token)
    ensures ExtractToken(BearerPrefix + BearerPrefix + token) == token
  {
    RemoveAllInterior([], BearerPrefix, BearerPrefix + token);
    assert [] + BearerPrefix + (BearerPrefix + token) == BearerPrefix + BearerPrefix + token;
    ExtractPlainToken(token);
  }
}
