# crud-go-desafio: the user store and its validator, in Dafny

This project models the two pieces of a small Go CRUD service that hold its logic:

- the in-memory user store of the `db` package: a map from UUID to user record,
  with `NewApplication`, `Insert`, `FindAll`, `FindById`, `Update` and `Delete`.
  Absence is reported as a `false` flag next to Go's zero `user{}`, never as an error;
- the `model` package: the request payload `UserRequest`, its field-for-field
  mapping `ToUser`, and `Validate`. The validator checks three inclusive byte-length
  ranges in a fixed order and reports the first that fails.

A third module, `Handlers`, keeps only the order in which the `api` handlers use
those two pieces. An insert or update is validated first and reaches the store only
when validation passes. On that basis it proves that a single-threaded server keeps
two store invariants across any sequence of requests:

- every record is filed under its own `ID`;
- every stored record passes the validator.

Modelling choices:

- Text is `seq<byte>` (`Bytes.Text`). Go's `len` on a string counts bytes, so `|t|`
  is the length the source compares with 2, 20 and 450.
- `uuid.UUID` is `[16]byte` in Go, and `Uuids.Uuid` is a 16-byte sequence. The zero
  record `Store.ZeroUser` therefore carries the all-zero UUID `Uuids.Nil` and three
  empty strings, exactly as `user{}` does.
- The store is an immutable `Store.Application` value. Every operation is a pure
  function that returns the new store together with the Go return values.
  `FindAll` is a method, because Go's map iteration order is unspecified. It picks
  keys nondeterministically, so its contract promises the right elements but no order.
- `uuid.New()` becomes a parameter `id` of `Insert`, with the precondition
  `id !in app.data`.
- Lengths are byte counts, because Go's `len` on a string counts bytes
  (model/user.go:18, 21 and 24). The error texts at model/user.go:19-25 say
  "characters" all the same, so for non-ASCII text the message and the check
  measure different things; the model keeps the bytes.
- `handlerUpdate` validates the payload before it calls `database.Update`
  (api/api.go:128-138), so an invalid payload for an unknown identifier is reported
  as a validation error, not as a missing user. `Handlers.HandleUpdate` keeps that order.
- Identifier freshness is an assumption standing in for `uuid.New()` (db/db.go:25),
  not something the code checks; see "## Left out".
- Errors from `Validate` are the datatype `ValidationError`. Go's `nil` error is
  `ValidationResult.Ok`, and the three message texts are kept in `UserModel.Message`.

## Model

| member | source | states |
|---|---|---|
| Store.NewApplication | db/db.go:18-22 | a new store holds no record (so `FindAll` on it returns an empty sequence) and trivially satisfies the key/ID invariant |
| Store.Insert | db/db.go:24-37 | given an identifier not yet in use, the returned record carries that identifier and the three arguments, it is stored under the identifier, the store grows by exactly one, every other key is untouched, and the key/ID invariant is kept |
| Store.FindAll | db/db.go:39-46 | the result has one element per stored key: a ghost list of the keys read, each key exactly once, gives every element as the record stored under its key, so each record appears as often as it is stored; under the key/ID invariant no ID appears twice; no order is promised |
| Store.FindById | db/db.go:48-52 | `found` holds exactly when the identifier is a key; then the stored record is returned (whose ID is the key under the invariant), otherwise the zero user |
| Store.Update | db/db.go:54-67 | a miss returns the zero user and `false` and leaves the store unchanged; a hit replaces the three text fields, keeps the stored record's own ID, stores and returns the new record, keeps the key set, touches no other key and keeps the key/ID invariant |
| Store.Delete | db/db.go:69-78 | reports whether the identifier was present; afterwards it is absent, the key set loses exactly it, the size drops by one only on a hit, a miss leaves the store unchanged, other keys are untouched |
| Store.InsertThenFind | db/db.go:24-52 | after an insert, looking up the new identifier returns exactly the inserted record, and every other identifier reads as before |
| Store.InsertTwiceDistinctIds | db/db.go:24-37 | two inserts with identical fields, each given an identifier fresh at its time, leave a store two larger with the first record still found; the two IDs differ because freshness (the stand-in for `uuid.New()`) is assumed, not because the store derives it |
| Store.UpdateThenFind | db/db.go:54-67 | under the key/ID invariant, a successful update reads back as `(id, a, b, c)`; a failed one leaves the identifier absent; other identifiers read as before |
| Store.DeleteTwice | db/db.go:69-78 | after a delete the identifier is not found; the first delete reports presence, and a second delete of the same identifier reports `false` and changes nothing |
| UserModel.Validate | model/user.go:17-28 | accepts exactly when first name and last name are 2..20 bytes and the biography is 20..450 bytes; the first-name error exactly when the first name is out of range, whatever else holds; the last-name error exactly when only the first name is in range; the biography error exactly when both names are in range and the biography is not |
| UserModel.ValidateIsFirstFailure | model/user.go:17-28 | the verdict equals that of an independent "first failing check in a list" reading, with the checks in field order |
| UserModel.ValidateDependsOnlyOnLengths | model/user.go:17-28 | two users whose three fields have the same byte lengths get the same verdict |
| UserModel.BoundsAreInclusive | model/user.go:18-26 | both ends of each range are inclusive: lengths 2 and 20 (names) and 20 and 450 (biography) pass, and 1 and 21 (names) and 19 and 451 (biography) fail with that field's error |
| UserModel.Message | model/user.go:19-25 | each error's text starts with the JSON name of the failing field (model/user.go:12-14) and ends in " characters" |
| UserModel.MessageTexts | model/user.go:19-25 | the three texts are exactly the Go error strings |
| UserModel.MessagesDistinct | model/user.go:19-25 | the three error messages are pairwise different, so the error text identifies the failing field |
| UserModel.ToUser | model/user.go:30-36 | the mapped user carries the request's three fields unchanged |
| UserModel.ValidateRequest | model/user.go:17-36 | validating `ToUser(req)` accepts exactly when the request's own three fields are within their bounds, and equals validating a user built from those fields |
| Handlers.HandleInsert | api/api.go:236-251 | an invalid payload is rejected with the validator's error and never reaches the store; a valid one is inserted under the fresh identifier with exactly the request's fields, the store grows by one and every other key keeps its record; both store invariants are kept |
| Handlers.HandleUpdate | api/api.go:128-152 | validation comes before the lookup, so an invalid payload is reported, with the validator's own error, even for an unknown identifier; a valid payload for an unknown identifier yields not-found with the store unchanged; otherwise the record is updated to the request's fields and keeps its stored ID; every other key keeps its record; both invariants are kept |
| Handlers.HandleDelete | api/api.go:78-92 | reports deleted exactly when the identifier was present; afterwards it is absent and every other key keeps its record; both invariants are kept |
| Handlers.HandleFindById | api/api.go:178-192 | reports found with the stored record exactly when the identifier is a key, otherwise not-found |
| Handlers.Step | api/api.go:24-28 | serving any one routed request with a fresh insert identifier keeps both store invariants |
| Handlers.ServePreservesInvariants | api/api.go:15-28 | after any sequence of requests served one at a time, every record is still filed under its own ID and still passes the validator |
| Handlers.FreshStoreStaysValid | api/api.go:15 | the handlers' store, created once by `db.NewApplication()` (db/db.go:18-22), satisfies both invariants after any request sequence |
| Handlers.Walkthrough | db/db.go:24-78 | on an empty store, inserting ("Ana", "Silva", a 52-byte biography) creates that record, listing returns just it, updating the last name to "Souza" returns the changed record with the same ID, deleting reports success, and listing then returns nothing |
| Handlers.ShortFirstNameRejected | api/api.go:236-244 | an insert whose first name is any one-byte text is rejected with the first-name error, whatever the other fields are, and the store is unchanged |

## Left out

- HTTP plumbing: chi routing and middleware, JSON decoding and `sendJSON`, `slog`
  logging and the mapping of outcomes to status codes are not modelled. That mapping
  includes 400 for a missing user in `handlerFindById` and 405 for an undecodable
  insert payload. `Handlers.Outcome` stops before status codes.
- `FindAll` handler: it only wraps `Store.FindAll`, so no separate handler is modelled.
- `uuid.New` and `uuid.Parse`: generation is replaced by a caller-supplied identifier
  that must not be a current key. Parse failures never reach the store.
- Store.Insert: freshness is only required against the current keys. "Never reused
  after deletion" is not modelled. The source relies on UUID randomness for that and
  makes no checkable promise.
- Concurrency: the global `database` in the `api` package is shared by concurrent
  handlers without a lock. The model is a single-threaded sequential store and says
  nothing about concurrent access.
- Aliasing: Go returns `user` structs by value, and the model's immutable values
  match that. Mutation through a caller's copy cannot be expressed, so it is not
  discussed further.
- Unicode: the validator counts bytes, as the source does. Character (code-point)
  counts are not modelled. `Bytes.Ascii` is used only to write ASCII literals as bytes.
