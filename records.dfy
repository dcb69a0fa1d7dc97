/**
 * The rows of the two tables (users and items), the JSON responses the
 * handlers produce, and the two queries the code runs against the users
 * table: lookup by primary key and the first row with a given username.
 */
module Records {
  import opened Wrappers

  datatype User = User(id: int, username: string, passwordHash: string)

  datatype Item = Item(id: int, name: string, description: string)

  /** The JSON body of a response. */
  datatype Body =
    | Message(msg: string)             // {"msg": ...}
    | AccessToken(token: string)       // {"access_token": ...}
    | ItemJson(item: Item)             // {"id", "name", "description"}
    | ItemList(items: seq<Item>)       // a list of those
    | InternalServerError              // the framework's page for an uncaught exception

  datatype Response = Response(status: int, body: Body)

  /** Row ids strictly increase in table order, as an auto-increment key assigns them. */
  predicate IncreasingUserIds(users: seq<User>)
  {
    forall i, j :: 0 <= i < j < |users| ==> users[i].id < users[j].id
  }

  predicate UniqueUsernames(users: seq<User>)
  {
    forall i, j :: 0 <= i < j < |users| ==> users[i].username != users[j].username
  }

  /** `Users.query.get(id)`: the row whose primary key is `id`, if any. */
  function FindById(users: seq<User>, id: int): (r: Option<User>)
    ensures r.Some? ==> r.value in users && r.value.id == id
    ensures r.None? <==> forall u :: u in users ==> u.id != id
  {
    if users == [] then None
    else if users[0].id == id then Some(users[0])
    else FindById(users[1..], id)
  }

  /** `Users.query.filter_by(username=name).first()`: the first row with that username. */
  function FindByUsername(users: seq<User>, name: string): (r: Option<User>)
    ensures r.Some? ==> r.value in users && r.value.username == name
    ensures r.None? <==> forall u :: u in users ==> u.username != name
  {
    if users == [] then None
    else if users[0].username == name then Some(users[0])
    else FindByUsername(users[1..], name)
  }

  /** With unique primary keys, `get` finds every stored row by its own id. */
  lemma {:induction false} FindByIdFindsRow(users: seq<User>, u: User)
    requires IncreasingUserIds(users)
    requires u in users
    ensures FindById(users, u.id) == Some(u)
  {
    if users[0] != u {
      assert u in users[1..];
      var k :| 1 <= k < |users| && users[k] == u;
      assert users[0].id < users[k].id;
      FindByIdFindsRow(users[1..], u);
    }
  }

  /** With unique usernames, `filter_by(...).first()` finds every stored row by its username. */
  lemma {:induction false} FindByUsernameFindsRow(users: seq<User>, u: User)
    requires UniqueUsernames(users)
    requires u in users
    ensures FindByUsername(users, u.username) == Some(u)
  {
    if users[0] != u {
      assert u in users[1..];
      var k :| 1 <= k < |users| && users[k] == u;
      assert users[0].username != users[k].username;
      FindByUsernameFindsRow(users[1..], u);
    }
  }
}
