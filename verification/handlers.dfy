/** The order in which the `api` handlers use the validator and the store, with the
    HTTP layer abstracted away: a request either fails validation and never reaches
    the store, or reaches the store with exactly the request's three fields. */
module Handlers {
  import opened Bytes
  import opened Uuids
  import UserModel
  import Store

  /** What a handler reports, before it is turned into a status code and a JSON body. */
  datatype Outcome =
    | Created(user: Store.User)
    | Updated(user: Store.User)
    | Found(user: Store.User)
    | Deleted
    | Invalid(error: UserModel.ValidationError)
    | NotFound

  /** The validator's view of a stored record. */
  function AsModelUser(u: Store.User): UserModel.User {
    UserModel.User(u.firstName, u.lastName, u.biography)
  }

  /** Every stored record passes the validator. */
  ghost predicate AllStoredValid(app: Store.Application) {
    forall k :: k in app.data ==> UserModel.Acceptable(AsModelUser(app.data[k]))
  }

  /** `handlerInsert` after the payload is decoded: validate the mapped user, and only
      on success insert the request's fields under the fresh identifier `newId`. */
  function HandleInsert(app: Store.Application, newId: Uuid, req: UserModel.UserRequest)
    : (r: (Store.Application, Outcome))
    requires newId !in app.data
    ensures r.1.Invalid? || r.1.Created?
    ensures r.1.Invalid? <==> !UserModel.Acceptable(UserModel.ToUser(req))
    ensures r.1.Invalid? ==> r.0 == app && UserModel.Validate(UserModel.ToUser(req)) == UserModel.Err(r.1.error)
    ensures r.1.Created? ==>
      && r.1.user == Store.User(newId, req.firstName, req.lastName, req.biography)
      && Store.FindById(r.0, newId) == (r.1.user, true)
      && |r.0.data| == |app.data| + 1
    ensures Store.AgreeExcept(app.data, r.0.data, newId)
    ensures Store.KeysMatchIds(app) ==> Store.KeysMatchIds(r.0)
    ensures AllStoredValid(app) ==> AllStoredValid(r.0)
  {
    match UserModel.Validate(UserModel.ToUser(req))
    case Err(e) => (app, Invalid(e))
    case Ok =>
      var (app', newUser) := Store.Insert(app, newId, req.firstName, req.lastName, req.biography);
      (app', Created(newUser))
  }

  /** `handlerUpdate` after the identifier and payload are decoded: validation runs
      first, so an invalid payload is reported even for an unknown identifier. */
  function HandleUpdate(app: Store.Application, id: Uuid, req: UserModel.UserRequest)
    : (r: (Store.Application, Outcome))
    ensures r.1.Invalid? || r.1.NotFound? || r.1.Updated?
    ensures r.1.Invalid? <==> !UserModel.Acceptable(UserModel.ToUser(req))
    ensures r.1.Invalid? ==> UserModel.Validate(UserModel.ToUser(req)) == UserModel.Err(r.1.error)
    ensures r.1.NotFound? <==> UserModel.Acceptable(UserModel.ToUser(req)) && id !in app.data
    ensures !r.1.Updated? ==> r.0 == app
    ensures r.1.Updated? ==>
      && r.1.user.firstName == req.firstName
      && r.1.user.lastName == req.lastName
      && r.1.user.biography == req.biography
      && r.1.user.id == app.data[id].id
      && Store.FindById(r.0, id) == (r.1.user, true)
      && r.0.data.Keys == app.data.Keys
    ensures Store.AgreeExcept(app.data, r.0.data, id)
    ensures Store.KeysMatchIds(app) ==> Store.KeysMatchIds(r.0)
    ensures AllStoredValid(app) ==> AllStoredValid(r.0)
  {
    match UserModel.Validate(UserModel.ToUser(req))
    case Err(e) => (app, Invalid(e))
    case Ok =>
      var (app', updated, found) := Store.Update(app, id, req.firstName, req.lastName, req.biography);
      if found then (app', Updated(updated)) else (app', NotFound)
  }

  /** `handlerDelete` after the identifier is decoded. */
  function HandleDelete(app: Store.Application, id: Uuid): (r: (Store.Application, Outcome))
    ensures r.1 == (if id in app.data then Deleted else NotFound)
    ensures id !in r.0.data && r.0.data.Keys == app.data.Keys - {id}
    ensures Store.AgreeExcept(app.data, r.0.data, id)
    ensures Store.KeysMatchIds(app) ==> Store.KeysMatchIds(r.0)
    ensures AllStoredValid(app) ==> AllStoredValid(r.0)
  {
    var (app', found) := Store.Delete(app, id);
    (app', if found then Deleted else NotFound)
  }

  /** `handlerFindById` after the identifier is decoded; the store is left as it was. */
  function HandleFindById(app: Store.Application, id: Uuid): (r: Outcome)
    ensures r.Found? <==> id in app.data
    ensures r.Found? ==> r.user == app.data[id]
    ensures r.NotFound? <==> id !in app.data
  {
    var (u, found) := Store.FindById(app, id);
    if found then Found(u) else NotFound
  }

  /** A decoded request; `newId` is the identifier `uuid.New()` yields for that insert. */
  datatype Request =
    | InsertRequest(newId: Uuid, body: UserModel.UserRequest)
    | UpdateRequest(id: Uuid, body: UserModel.UserRequest)
    | DeleteRequest(id: Uuid)
    | FindRequest(id: Uuid)

  /** An insert's generated identifier is not already in use. */
  predicate FreshFor(app: Store.Application, req: Request) {
    req.InsertRequest? ==> req.newId !in app.data
  }

  /** Serves one decoded request on the route it was sent to; a lookup leaves the store as it was. */
  function Step(app: Store.Application, req: Request): (r: (Store.Application, Outcome))
    requires FreshFor(app, req)
    ensures Store.KeysMatchIds(app) ==> Store.KeysMatchIds(r.0)
    ensures AllStoredValid(app) ==> AllStoredValid(r.0)
  {
    match req
    case InsertRequest(newId, body) => HandleInsert(app, newId, body)
    case UpdateRequest(id, body) => HandleUpdate(app, id, body)
    case DeleteRequest(id) => HandleDelete(app, id)
    case FindRequest(id) => (app, HandleFindById(app, id))
  }

  /** Every insert in `reqs` draws an identifier fresh at the moment it is served. */
  ghost predicate FreshIds(app: Store.Application, reqs: seq<Request>)
    decreases |reqs|
  {
    |reqs| == 0 || (FreshFor(app, reqs[0]) && FreshIds(Step(app, reqs[0]).0, reqs[1..]))
  }

  /** Serves the requests one after another, as a single-threaded server would. */
  function Serve(app: Store.Application, reqs: seq<Request>): Store.Application
    requires FreshIds(app, reqs)
    decreases |reqs|
  {
    if |reqs| == 0 then app else Serve(Step(app, reqs[0]).0, reqs[1..])
  }

  /** However many requests are served, every record stays filed under its own `ID`
      and every record passes the validator. */
  lemma {:induction false} ServePreservesInvariants(app: Store.Application, reqs: seq<Request>)
    requires FreshIds(app, reqs)
    requires Store.KeysMatchIds(app) && AllStoredValid(app)
    ensures Store.KeysMatchIds(Serve(app, reqs)) && AllStoredValid(Serve(app, reqs))
    decreases |reqs|
  {
    if |reqs| > 0 {
      ServePreservesInvariants(Step(app, reqs[0]).0, reqs[1..]);
    }
  }

  /** Starting from `NewApplication`, the store invariants hold after any request sequence. */
  lemma FreshStoreStaysValid(reqs: seq<Request>)
    requires FreshIds(Store.NewApplication(), reqs)
    ensures Store.KeysMatchIds(Serve(Store.NewApplication(), reqs))
    ensures AllStoredValid(Serve(Store.NewApplication(), reqs))
  {
    ServePreservesInvariants(Store.NewApplication(), reqs);
  }

  /** The create / list / update / delete / list walkthrough on an empty store. */
  method Walkthrough(id: Uuid)
    returns (created: Outcome, listedBefore: seq<Store.User>, updated: Outcome,
             deleted: Outcome, listedAfter: seq<Store.User>)
    ensures created == Created(Store.User(id, Ascii("Ana"), Ascii("Silva"), Ascii(Bio)))
    ensures listedBefore == [created.user]
    ensures updated.Updated? && updated.user == Store.User(id, Ascii("Ana"), Ascii("Souza"), Ascii(Bio))
    ensures deleted == Deleted
    ensures listedAfter == []
  {
    var app := Store.NewApplication();
    var body := UserModel.UserRequest(Ascii("Ana"), Ascii("Silva"), Ascii(Bio));
    assert UserModel.Acceptable(UserModel.ToUser(body));
    var step := HandleInsert(app, id, body);
    app, created := step.0, step.1;
    ghost var keys: seq<Uuid>;
    listedBefore, keys := Store.FindAll(app);
    assert app.data.Keys == {id};
    var change := body.(lastName := Ascii("Souza"));
    step := HandleUpdate(app, id, change);
    app, updated := step.0, step.1;
    step := HandleDelete(app, id);
    app, deleted := step.0, step.1;
    listedAfter, keys := Store.FindAll(app);
  }

  const Bio: string := "A short biography text of sufficient length to pass."

  /** A one-byte first name is rejected with the first-name error whatever follows it. */
  lemma ShortFirstNameRejected(app: Store.Application, newId: Uuid, firstName: Text, lastName: Text, biography: Text)
    requires newId !in app.data
    requires |firstName| == 1
    ensures HandleInsert(app, newId, UserModel.UserRequest(firstName, lastName, biography))
      == (app, Invalid(UserModel.InvalidFirstName))
  {
  }
}
