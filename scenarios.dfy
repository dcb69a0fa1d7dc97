/**
 * Properties that span several requests: a user who signs up can log in,
 * and the token that login returns opens the protected item routes until
 * it expires.
 */
module Scenarios {
  import opened Wrappers
  import opened Text
  import opened Records
  import opened TokenService
  import opened AuthMiddleware
  import opened Handlers

  /**
   * A token issued for a stored user, presented as `Bearer <token>`,
   * resolves to that same user while it is unexpired, and is reported
   * expired from `exp` on. `issued` is what the secret has signed.
   */
  lemma IssuedTokenResolvesToUser(users: seq<User>, u: User, now: int, expireMinutes: int,
                                  encode: Claims -> string, issued: map<string, Claims>, later: int)
    requires IncreasingUserIds(users) && u in users && WithinStrDigits(u.id)
    requires encode(TokenClaims(u.id, now, expireMinutes)) in issued
    requires issued[encode(TokenClaims(u.id, now, expireMinutes))] == TokenClaims(u.id, now, expireMinutes)
    requires NoWhitespace(encode(TokenClaims(u.id, now, expireMinutes)))
    ensures var token := encode(TokenClaims(u.id, now, expireMinutes));
            && (later < now + expireMinutes * 60 ==>
                  Authenticate(Some(BearerPrefix + token), IdealDecode(issued, later), users) == Invoke(u))
            && (now + expireMinutes * 60 <= later ==>
                  Authenticate(Some(BearerPrefix + token), IdealDecode(issued, later), users) == Deny(TokenExpired))
  {
    var claims := TokenClaims(u.id, now, expireMinutes);
    var token := encode(claims);
    ExtractPlainToken(token);
    assert StartsWith(BearerPrefix + token, BearerPrefix);
    DecodesExtractedToken(BearerPrefix + token, IdealDecode(issued, later), users);
    FindByIdFindsRow(users, u);
    DecodedPayloadResponses(Some(claims.sub), users);
  }

  /**
   * A `Bearer ` header whose extracted token (prefixes removed, then
   * stripped) the secret never signed is answered with 401 "Token is
   * invalid", whatever the users table holds.
   */
  lemma UnsignedTokenRejected(users: seq<User>, h: string, issued: map<string, Claims>, later: int)
    requires StartsWith(h, BearerPrefix) && ExtractToken(h) !in issued
    ensures Authenticate(Some(h), IdealDecode(issued, later), users) == Deny(TokenInvalid)
  {
    DecodesExtractedToken(h, IdealDecode(issued, later), users);
  }

  /**
   * In particular `Bearer <token>` for a whitespace-free string the secret
   * never signed. (Padding a signed token with whitespace or another
   * prefix is not forging it: extraction hands the signed token over.)
   */
  lemma ForgedTokenRejected(users: seq<User>, token: string, issued: map<string, Claims>, later: int)
    requires token !in issued && NoWhitespace(token)
    ensures Authenticate(Some(BearerPrefix + token), IdealDecode(issued, later), users) == Deny(TokenInvalid)
  {
    ExtractPlainToken(token);
    assert StartsWith(BearerPrefix + token, BearerPrefix);
    UnsignedTokenRejected(users, BearerPrefix + token, issued, later);
  }

  /**
   * Signing up a new name and then logging in with the same password
   * yields a token for the new user's id, provided the hash library's
   * check accepts a password against its own hash and `str` can write
   * the id.
   */
  lemma SignupThenLogin(users: seq<User>, nextId: int, username: string, password: string,
                        hash: string -> string, check: (string, string) -> bool,
                        encode: Claims -> string, now: int, expireMinutes: int)
    requires UniqueUsernames(users) && WithinStrDigits(nextId)
    requires forall u :: u in users ==> u.username != username
    requires check(hash(password), password)
    ensures Login(users + [User(nextId, username, hash(password))], username, password,
                  check, encode, now, expireMinutes)
              == Response(200, AccessToken(encode(TokenClaims(nextId, now, expireMinutes))))
  {
    var user := User(nextId, username, hash(password));
    var users' := users + [user];
    assert UniqueUsernames(users') by {
      forall i, j | 0 <= i < j < |users'| ensures users'[i].username != users'[j].username {
        if j == |users| { assert users'[i] in users; }
      }
    }
    assert user == users'[|users|];
    LoginIssuesTokenForUser(users', user, password, check, encode, now, expireMinutes);
  }

  /**
   * Two requests with a header that authenticates as `user`: creating an
   * item and then listing the items. The new item comes back last in the
   * list with the name and description it was given.
   */
  method CreateThenList(db: Database, header: Option<string>, decode: string -> DecodeOutcome,
                        user: User, name: string, description: string)
    returns (created: Response, listed: Response)
    requires db.Valid()
    requires Authenticate(header, decode, db.users) == Invoke(user)
    modifies db
    ensures db.Valid() && db.users == old(db.users)
    ensures created.status == 200 && created.body.ItemJson?
    ensures created.body.item.name == name && created.body.item.description == description
    ensures listed.status == 200 && listed.body.ItemList? && created.body.item in listed.body.items
    ensures listed.body.items[|listed.body.items| - 1] == created.body.item
  {
    created := db.CreateItemRoute(header, decode, name, description);
    listed := db.GetItemsRoute(header, decode);
  }

  /**
   * The whole flow against the store: sign up, log in, then create an
   * item and list the items with the token that login returned.
   */
  method SignupLoginCreateList(db: Database, username: string, password: string,
                               hash: string -> string, check: (string, string) -> bool,
                               encode: Claims -> string, now: int, expireMinutes: int, later: int,
                               name: string, description: string)
    returns (created: Response, listed: Response)
    requires db.Valid()
    requires forall u :: u in db.users ==> u.username != username
    requires check(hash(password), password)
    requires WithinStrDigits(db.nextUserId)
    requires NoWhitespace(encode(TokenClaims(db.nextUserId, now, expireMinutes)))
    requires later < now + expireMinutes * 60
    modifies db
    ensures db.Valid()
    ensures created.status == 200 && created.body.ItemJson?
    ensures created.body.item.name == name && created.body.item.description == description
    ensures listed.status == 200 && listed.body.ItemList? && created.body.item in listed.body.items
    ensures listed.body.items[|listed.body.items| - 1] == created.body.item
  {
    var id := db.nextUserId;
    ghost var users0 := db.users;
    var signup := db.Signup(username, password, hash);
    var user := User(id, username, hash(password));
    assert db.users == users0 + [user];
    SignupThenLogin(users0, id, username, password, hash, check, encode, now, expireMinutes);
    var claims := TokenClaims(id, now, expireMinutes);
    var login := Login(db.users, username, password, check, encode, now, expireMinutes);
    var token := login.body.token;
    assert token == encode(claims);
    var decode := IdealDecode(map[token := claims], later);
    IssuedTokenResolvesToUser(db.users, user, now, expireMinutes, encode, map[token := claims], later);
    created, listed := CreateThenList(db, Some(BearerPrefix + token), decode, user, name, description);
  }
}
