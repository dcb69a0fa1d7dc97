/**
 * The request handlers over an in-memory copy of the two tables: signup,
 * login, creating an item and listing the items, and the two item routes
 * behind the authentication decorator.
 */
module Handlers {
  import opened Wrappers
  import opened Text
  import opened Records
  import opened TokenService
  import opened AuthMiddleware

  const UserExists := Response(400, Message("User already exists"))
  const UserCreated := Response(200, Message("User created successfully"))
  const InvalidCredentials := Response(401, Message("Invalid credentials"))

  predicate IncreasingItemIds(items: seq<Item>)
  {
    forall i, j :: 0 <= i < j < |items| ==> items[i].id < items[j].id
  }

  /**
   * `login`: 401 when no user has that name or the password does not match
   * its stored hash, otherwise a token for that user's id. `check` is the
   * password-hash check, called as `check(stored_hash, password)`. The
   * `ValueError` that `create_token` raises for an id `str` cannot write
   * is not caught and becomes a 500.
   */
  function Login(users: seq<User>, username: string, password: string,
                 check: (string, string) -> bool, encode: Claims -> string,
                 now: int, expireMinutes: int): (r: Response)
    ensures r.status == 200 || r == InvalidCredentials || r == Response(500, InternalServerError)
    ensures r.status == 200 ==>
              exists u :: && u in users && u.username == username
                          && check(u.passwordHash, password) && WithinStrDigits(u.id)
                          && r.body == AccessToken(encode(TokenClaims(u.id, now, expireMinutes)))
    ensures r.status == 500 ==>
              exists u :: && u in users && u.username == username
                          && check(u.passwordHash, password) && !WithinStrDigits(u.id)
    ensures (forall u :: u in users ==> u.username != username) ==> r == InvalidCredentials
  {
    match FindByUsername(users, username)
    case None => InvalidCredentials
    case Some(u) =>
      if !check(u.passwordHash, password) then InvalidCredentials
      else
        match CreateToken(users, u.id, now, expireMinutes, encode)
        case Err(_) => Response(500, InternalServerError)
        case Ok(token) => Response(200, AccessToken(token))
  }

  /**
   * With unique usernames, a stored user with the right password gets a
   * token for its own id, or a 500 when `str` cannot write that id.
   */
  lemma LoginIssuesTokenForUser(users: seq<User>, u: User, password: string,
                                check: (string, string) -> bool, encode: Claims -> string,
                                now: int, expireMinutes: int)
    requires UniqueUsernames(users) && u in users
    ensures check(u.passwordHash, password) && WithinStrDigits(u.id) ==>
              Login(users, u.username, password, check, encode, now, expireMinutes)
                == Response(200, AccessToken(encode(TokenClaims(u.id, now, expireMinutes))))
    ensures check(u.passwordHash, password) && !WithinStrDigits(u.id) ==>
              Login(users, u.username, password, check, encode, now, expireMinutes)
                == Response(500, InternalServerError)
    ensures !check(u.passwordHash, password) ==>
              Login(users, u.username, password, check, encode, now, expireMinutes) == InvalidCredentials
  {
    FindByUsernameFindsRow(users, u);
  }

  /**
   * The two tables. Ids come from per-table counters, as an auto-increment
   * primary key assigns them on commit.
   */
  class Database {
    var users: seq<User>
    var items: seq<Item>
    var nextUserId: int
    var nextItemId: int

    ghost predicate Valid()
      reads this
    {
      && 1 <= nextUserId && 1 <= nextItemId
      && IncreasingUserIds(users) && UniqueUsernames(users)
      && (forall u :: u in users ==> 1 <= u.id < nextUserId)
      && IncreasingItemIds(items)
      && (forall it :: it in items ==> 1 <= it.id < nextItemId)
    }

    constructor ()
      ensures Valid()
      ensures users == [] && items == []
      ensures nextUserId == 1 && nextItemId == 1
    {
      users, items := [], [];
      nextUserId, nextItemId := 1, 1;
    }

    /**
     * `signup`: refuses a username that is already taken and leaves the
     * tables alone; otherwise adds exactly one user, with the password's
     * hash, under a fresh id.
     */
    method Signup(username: string, password: string, hash: string -> string) returns (resp: Response)
      requires Valid()
      modifies this
      ensures Valid()
      ensures items == old(items) && nextItemId == old(nextItemId)
      ensures (exists u :: u in old(users) && u.username == username) ==>
                resp == UserExists && users == old(users) && nextUserId == old(nextUserId)
      ensures (forall u :: u in old(users) ==> u.username != username) ==>
                && resp == UserCreated
                && users == old(users) + [User(old(nextUserId), username, hash(password))]
                && nextUserId == old(nextUserId) + 1
    {
      if FindByUsername(users, username).Some? {
        resp := UserExists;
        return;
      }
      var user := User(nextUserId, username, hash(password));
      users := users + [user];
      nextUserId := nextUserId + 1;
      resp := UserCreated;
    }

    /** `create_item`: adds one item with the given name and description and returns it. */
    method CreateItem(currentUser: User, name: string, description: string) returns (resp: Response)
      requires Valid()
      modifies this
      ensures Valid()
      ensures users == old(users) && nextUserId == old(nextUserId)
      ensures items == old(items) + [Item(old(nextItemId), name, description)]
      ensures nextItemId == old(nextItemId) + 1
      ensures resp == Response(200, ItemJson(Item(old(nextItemId), name, description)))
    {
      var item := Item(nextItemId, name, description);
      items := items + [item];
      nextItemId := nextItemId + 1;
      resp := Response(200, ItemJson(item));
    }

    /** `get_items`: every stored item, in table order. */
    method GetItems(currentUser: User) returns (resp: Response)
      ensures resp.status == 200 && resp.body.ItemList?
      ensures |resp.body.items| == |items|
      ensures forall k :: 0 <= k < |items| ==> resp.body.items[k] == items[k]
    {
      resp := Response(200, ItemList(items));
    }

    /**
     * `POST /items`: the decorator, then `create_item` for the resolved
     * user. A denied request leaves both tables as they were. The handler
     * here changes the item table, so it is a method and cannot be handed
     * to the pure `Decorated`; the decision is taken by `Authenticate`
     * directly, as `Decorated` takes it.
     */
    method CreateItemRoute(header: Option<string>, decode: string -> DecodeOutcome,
                           name: string, description: string) returns (resp: Response)
      requires Valid()
      modifies this
      ensures Valid()
      ensures users == old(users) && nextUserId == old(nextUserId)
      ensures Authenticate(header, decode, old(users)).Deny? ==>
                && resp == Authenticate(header, decode, old(users)).response
                && items == old(items) && nextItemId == old(nextItemId)
      ensures Authenticate(header, decode, old(users)).Invoke? ==>
                && items == old(items) + [Item(old(nextItemId), name, description)]
                && nextItemId == old(nextItemId) + 1
                && resp == Response(200, ItemJson(Item(old(nextItemId), name, description)))
    {
      match Authenticate(header, decode, users)
      case Deny(r) => resp := r;
      case Invoke(u) => resp := CreateItem(u, name, description);
    }

    /**
     * `GET /items`: the decorator, then `get_items` for the resolved user;
     * the answer is the decorated form of a handler that lists the table.
     */
    method GetItemsRoute(header: Option<string>, decode: string -> DecodeOutcome) returns (resp: Response)
      ensures var all := items; resp == Decorated(header, decode, users, _ => Response(200, ItemList(all)))
      ensures Authenticate(header, decode, users).Deny? ==>
                resp == Authenticate(header, decode, users).response
      ensures Authenticate(header, decode, users).Invoke? ==>
                resp == Response(200, ItemList(items))
    {
      match Authenticate(header, decode, users)
      case Deny(r) => resp := r;
      case Invoke(u) =>
        resp := GetItems(u);
        assert resp.body.items == items;
    }
  }
}
