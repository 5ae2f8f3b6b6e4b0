/** The `db` package: an in-memory user store, a map from identifier to record.
    Each operation is a pure function from the old store to the new store and the
    operation's result; absence is reported as a `false` flag, never as an error. */
module Store {
  import opened Bytes
  import opened Uuids

  /** A stored record (`db.user`). */
  datatype User = User(id: Uuid, firstName: Text, lastName: Text, biography: Text)

  /** Go's zero value `user{}`, returned alongside `false` on a miss. */
  const ZeroUser: User := User(Nil, [], [], [])

  /** The store (`db.application`). */
  datatype Application = Application(data: map<Uuid, User>)

  /** The store invariant: every record is filed under its own `ID`. */
  ghost predicate KeysMatchIds(app: Application) {
    forall k :: k in app.data ==> app.data[k].id == k
  }

  /** `a` and `b` hold the same keys and the same records everywhere except at `id`. */
  ghost predicate AgreeExcept(a: map<Uuid, User>, b: map<Uuid, User>, id: Uuid) {
    forall k :: k != id ==> (k in a <==> k in b) && (k in a ==> a[k] == b[k])
  }

  /** `NewApplication`: a store holding nothing. */
  function NewApplication(): (app: Application)
    ensures |app.data| == 0
    ensures forall k :: k !in app.data
    ensures KeysMatchIds(app)
  {
    Application(map[])
  }

  /** `Insert`: files a new record under the freshly generated identifier `id`
      (the value `uuid.New()` returns) and returns that record. */
  function Insert(app: Application, id: Uuid, firstName: Text, lastName: Text, biography: Text)
    : (r: (Application, User))
    requires id !in app.data
    ensures r.1.id == id
    ensures r.1.firstName == firstName && r.1.lastName == lastName && r.1.biography == biography
    ensures id in r.0.data && r.0.data[id] == r.1
    ensures AgreeExcept(app.data, r.0.data, id)
    ensures |r.0.data| == |app.data| + 1
    ensures KeysMatchIds(app) ==> KeysMatchIds(r.0)
  {
    var newUser := User(id, firstName, lastName, biography);
    var data := app.data[id := newUser];
    assert data.Keys == app.data.Keys + {id};
    (Application(data), newUser)
  }

  /** `FindById`: exact-match lookup; a miss yields the zero user and `false`. */
  function FindById(app: Application, id: Uuid): (r: (User, bool))
    ensures r.1 <==> id in app.data
    ensures r.1 ==> r.0 == app.data[id]
    ensures !r.1 ==> r.0 == ZeroUser
    ensures KeysMatchIds(app) && r.1 ==> r.0.id == id
  {
    if id in app.data then (app.data[id], true) else (ZeroUser, false)
  }

  /** `Update`: replaces the three text fields of an existing record, keeping the
      record's own `ID`; a miss returns the zero user and `false` and changes nothing. */
  function Update(app: Application, id: Uuid, firstName: Text, lastName: Text, biography: Text)
    : (r: (Application, User, bool))
    ensures r.2 <==> id in app.data
    ensures !r.2 ==> r.0 == app && r.1 == ZeroUser
    ensures r.2 ==> r.1.id == app.data[id].id
    ensures r.2 ==> r.1.firstName == firstName && r.1.lastName == lastName && r.1.biography == biography
    ensures r.2 ==> r.0.data.Keys == app.data.Keys && r.0.data[id] == r.1
    ensures AgreeExcept(app.data, r.0.data, id)
    ensures KeysMatchIds(app) ==> KeysMatchIds(r.0) && (r.2 ==> r.1.id == id)
  {
    var (existing, found) := FindById(app, id);
    if !found then
      (app, ZeroUser, found)
    else
      var updated := existing.(firstName := firstName, lastName := lastName, biography := biography);
      (Application(app.data[id := updated]), updated, found)
  }

  /** `Delete`: removes the record under `id` and reports whether there was one. */
  function Delete(app: Application, id: Uuid): (r: (Application, bool))
    ensures r.1 <==> id in app.data
    ensures id !in r.0.data
    ensures r.0.data.Keys == app.data.Keys - {id}
    ensures AgreeExcept(app.data, r.0.data, id)
    ensures |r.0.data| == if r.1 then |app.data| - 1 else |app.data|
    ensures !r.1 ==> r.0 == app
    ensures KeysMatchIds(app) ==> KeysMatchIds(r.0)
  {
    var (_, found) := FindById(app, id);
    if !found then
      (app, found)
    else
      (Application(app.data - {id}), true)
  }

  /** `FindAll`: a snapshot of every stored record, in the unspecified order of Go's
      map iteration (here: whatever order the `:|` choices produce).
      The ghost `keys` records which key each element was read from: every key
      exactly once, so each stored record appears as often as it is stored. */
  method FindAll(app: Application) returns (users: seq<User>, ghost keys: seq<Uuid>)
    ensures |users| == |app.data|
    // The next two clauses follow from the `keys` clauses below; they are stated
    // for callers that only need membership.
    ensures forall i :: 0 <= i < |users| ==> users[i] in app.data.Values
    ensures forall k :: k in app.data ==> app.data[k] in users
    ensures KeysMatchIds(app) ==>
      forall i, j :: 0 <= i < j < |users| ==> users[i].id != users[j].id
    ensures |keys| == |users|
    ensures forall i :: 0 <= i < |keys| ==> keys[i] in app.data && users[i] == app.data[keys[i]]
    ensures forall i, j :: 0 <= i < j < |keys| ==> keys[i] != keys[j]
    ensures forall k :: k in app.data ==> k in keys
  {
    users := [];
    keys := [];
    var remaining := app.data.Keys;
    while remaining != {}
      invariant remaining <= app.data.Keys
      invariant |keys| == |users|
      invariant |users| + |remaining| == |app.data|
      invariant forall i :: 0 <= i < |keys| ==>
        keys[i] in app.data && keys[i] !in remaining && users[i] == app.data[keys[i]]
      invariant forall i, j :: 0 <= i < j < |keys| ==> keys[i] != keys[j]
      invariant forall k :: k in app.data && k !in remaining ==> app.data[k] in users && k in keys
      decreases |remaining|
    {
      var k :| k in remaining;
      users := users + [app.data[k]];
      keys := keys + [k];
      remaining := remaining - {k};
    }
  }

  /** After an insert, looking the new identifier up returns exactly the inserted record,
      and every other identifier reads as before. */
  lemma InsertThenFind(app: Application, id: Uuid, firstName: Text, lastName: Text, biography: Text, other: Uuid)
    requires id !in app.data
    ensures var (app', u) := Insert(app, id, firstName, lastName, biography);
      FindById(app', id) == (u, true) && (other != id ==> FindById(app', other) == FindById(app, other))
  {
  }

  /** Two inserts, each with an identifier fresh at its own time, yield distinct identifiers
      even when the field values are identical. */
  lemma InsertTwiceDistinctIds(app: Application, id1: Uuid, id2: Uuid, firstName: Text, lastName: Text, biography: Text)
    requires id1 !in app.data
    requires id2 !in Insert(app, id1, firstName, lastName, biography).0.data
    ensures var (app1, u1) := Insert(app, id1, firstName, lastName, biography);
      var (app2, u2) := Insert(app1, id2, firstName, lastName, biography);
      u1.id != u2.id && |app2.data| == |app.data| + 2 && FindById(app2, u1.id) == (u1, true)
  {
  }

  /** Update then lookup: the identifier reads back the three new fields and its old `ID`;
      other identifiers read as before. */
  lemma UpdateThenFind(app: Application, id: Uuid, firstName: Text, lastName: Text, biography: Text, other: Uuid)
    requires KeysMatchIds(app)
    ensures var (app', u, found) := Update(app, id, firstName, lastName, biography);
      && (found ==> FindById(app', id) == (u, true) && u == User(id, firstName, lastName, biography))
      && (!found ==> FindById(app', id) == (ZeroUser, false))
      && (other != id ==> FindById(app', other) == FindById(app, other))
  {
  }

  /** After a delete the identifier is absent; a second delete of it reports `false`
      and leaves the store as the first left it. */
  lemma DeleteTwice(app: Application, id: Uuid)
    ensures var (app1, found1) := Delete(app, id);
      var (app2, found2) := Delete(app1, id);
      && FindById(app1, id) == (ZeroUser, false)
      && found1 == (id in app.data)
      && !found2 && app2 == app1
  {
  }
}
