/** The `model` package: the request payload, the user shape that is validated,
    and the length validator that decides what may enter the store. */
module UserModel {
  import opened Bytes

  /** The user shape that `Validate` checks (`model.User`); it has no identifier. */
  datatype User = User(firstName: Text, lastName: Text, biography: Text)

  /** The decoded request body (`model.UserRequest`). Decoding from JSON is not modelled;
      the JSON field names appear only in the error texts, through `JsonName`. */
  datatype UserRequest = UserRequest(firstName: Text, lastName: Text, biography: Text)

  /** The three errors `Validate` can return, one per field. */
  datatype ValidationError = InvalidFirstName | InvalidLastName | InvalidBiography

  /** `Validate`'s result: Go's `nil` error is `Ok`. */
  datatype ValidationResult = Ok | Err(error: ValidationError)

  const MinNameLength: nat := 2
  const MaxNameLength: nat := 20
  const MinBiographyLength: nat := 20
  const MaxBiographyLength: nat := 450

  /** The byte length of `t` lies in the inclusive range `[lo, hi]`. */
  predicate LengthWithin(t: Text, lo: nat, hi: nat) {
    lo <= |t| <= hi
  }

  predicate FirstNameOk(u: User) {
    LengthWithin(u.firstName, MinNameLength, MaxNameLength)
  }

  predicate LastNameOk(u: User) {
    LengthWithin(u.lastName, MinNameLength, MaxNameLength)
  }

  predicate BiographyOk(u: User) {
    LengthWithin(u.biography, MinBiographyLength, MaxBiographyLength)
  }

  /** The documented acceptance condition: every field within its inclusive bounds. */
  predicate Acceptable(u: User) {
    FirstNameOk(u) && LastNameOk(u) && BiographyOk(u)
  }

  /** `(*User).Validate`: the fields are checked in the order first name, last name,
      biography, and the first failing check is reported. */
  function Validate(u: User): (r: ValidationResult)
    ensures r == Ok <==> Acceptable(u)
    ensures r == Err(InvalidFirstName) <==> !FirstNameOk(u)
    ensures r == Err(InvalidLastName) <==> FirstNameOk(u) && !LastNameOk(u)
    ensures r == Err(InvalidBiography) <==> FirstNameOk(u) && LastNameOk(u) && !BiographyOk(u)
  {
    if |u.firstName| < MinNameLength || |u.firstName| > MaxNameLength then
      Err(InvalidFirstName)
    else if |u.lastName| < MinNameLength || |u.lastName| > MaxNameLength then
      Err(InvalidLastName)
    else if |u.biography| < MinBiographyLength || |u.biography| > MaxBiographyLength then
      Err(InvalidBiography)
    else
      Ok
  }

  /** The JSON name of the field each error is about (the struct tags of `UserRequest`). */
  function JsonName(e: ValidationError): string {
    match e
    case InvalidFirstName => "first_name"
    case InvalidLastName => "last_name"
    case InvalidBiography => "biography"
  }

  /** The inclusive byte range each error's field must lie in, as its message writes it. */
  function BoundsText(e: ValidationError): string {
    match e
    case InvalidFirstName => "2 and 20"
    case InvalidLastName => "2 and 20"
    case InvalidBiography => "20 and 450"
  }

  /** The text of the error each failure carries, e.g.
      "first_name must be between 2 and 20 characters": it names the failing field by
      its JSON name and ends in the word "characters", although the bound is in bytes. */
  function Message(e: ValidationError): (m: string)
    ensures |JsonName(e)| < |m| && m[..|JsonName(e)|] == JsonName(e)
    ensures |m| >= 11 && m[|m| - 11..] == " characters"
  {
    JsonName(e) + " must be between " + BoundsText(e) + " characters"
  }

  /** `(*UserRequest).ToUser`: a field-for-field copy. */
  function ToUser(req: UserRequest): (u: User)
    ensures u.firstName == req.firstName
    ensures u.lastName == req.lastName
    ensures u.biography == req.biography
  {
    User(req.firstName, req.lastName, req.biography)
  }

  // An independent reading of the validator: a list of checks, the first failing one wins.

  datatype Check = Check(passes: bool, error: ValidationError)

  /** The error of the first failing check, or `Ok` when every check passes. */
  function FirstFailure(checks: seq<Check>): (r: ValidationResult)
    ensures r == Ok <==> forall i :: 0 <= i < |checks| ==> checks[i].passes
    ensures r.Err? ==>
      exists i :: 0 <= i < |checks| && !checks[i].passes && checks[i].error == r.error &&
        forall j :: 0 <= j < i ==> checks[j].passes
  {
    if |checks| == 0 then Ok
    else if !checks[0].passes then Err(checks[0].error)
    else FirstFailure(checks[1..])
  }

  /** The validator's checks in the order `Validate` performs them. */
  function FieldChecks(u: User): seq<Check> {
    [ Check(FirstNameOk(u), InvalidFirstName),
      Check(LastNameOk(u), InvalidLastName),
      Check(BiographyOk(u), InvalidBiography) ]
  }

  /** `Validate` reports exactly the first failing field check, in field order. */
  lemma ValidateIsFirstFailure(u: User)
    ensures Validate(u) == FirstFailure(FieldChecks(u))
  {
    var cs := FieldChecks(u);
    assert cs[1..] == [cs[1], cs[2]];
    assert cs[1..][1..] == [cs[2]];
    assert cs[1..][1..][1..] == [];
  }

  /** The verdict depends on the three byte lengths only, never on the bytes themselves. */
  lemma ValidateDependsOnlyOnLengths(u: User, v: User)
    requires |u.firstName| == |v.firstName|
    requires |u.lastName| == |v.lastName|
    requires |u.biography| == |v.biography|
    ensures Validate(u) == Validate(v)
  {
  }

  /** Both ends of every range are inclusive: a length at either end passes when the
      other fields pass, and a length just outside fails with that field's error when
      the fields checked before it pass. */
  lemma BoundsAreInclusive(u: User)
    ensures LastNameOk(u) && BiographyOk(u) && (|u.firstName| == 2 || |u.firstName| == 20) ==>
      Validate(u) == Ok
    ensures |u.firstName| == 1 || |u.firstName| == 21 ==> Validate(u) == Err(InvalidFirstName)
    ensures FirstNameOk(u) && BiographyOk(u) && (|u.lastName| == 2 || |u.lastName| == 20) ==>
      Validate(u) == Ok
    ensures FirstNameOk(u) && (|u.lastName| == 1 || |u.lastName| == 21) ==> Validate(u) == Err(InvalidLastName)
    ensures FirstNameOk(u) && LastNameOk(u) && (|u.biography| == 19 || |u.biography| == 451) ==>
      Validate(u) == Err(InvalidBiography)
    ensures FirstNameOk(u) && LastNameOk(u) && (|u.biography| == 20 || |u.biography| == 450) ==>
      Validate(u) == Ok
  {
  }

  /** Validating a request's mapped user is validating the request's own three fields. */
  lemma ValidateRequest(req: UserRequest)
    ensures Validate(ToUser(req)) == Ok <==>
      && 2 <= |req.firstName| <= 20
      && 2 <= |req.lastName| <= 20
      && 20 <= |req.biography| <= 450
    ensures Validate(ToUser(req)) == Validate(User(req.firstName, req.lastName, req.biography))
  {
  }

  /** The three messages, spelled out in full. */
  lemma MessageTexts()
    ensures Message(InvalidFirstName) == "first_name must be between 2 and 20 characters"
    ensures Message(InvalidLastName) == "last_name must be between 2 and 20 characters"
    ensures Message(InvalidBiography) == "biography must be between 20 and 450 characters"
  {
    assert "first_name" + " must be between " == "first_name must be between ";
    assert "first_name must be between " + "2 and 20" == "first_name must be between 2 and 20";
    assert "last_name" + " must be between " == "last_name must be between ";
    assert "last_name must be between " + "2 and 20" == "last_name must be between 2 and 20";
    assert "biography" + " must be between " == "biography must be between ";
    assert "biography must be between " + "20 and 450" == "biography must be between 20 and 450";
  }

  /** Each error carries its own text, so a caller can tell which field failed. */
  lemma MessagesDistinct(e1: ValidationError, e2: ValidationError)
    ensures Message(e1) == Message(e2) <==> e1 == e2
  {
  }
}
