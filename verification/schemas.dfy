/**
  The Pydantic side of each entity: validating a parsed JSON object against the
  create schema (every field present or defaulted, of the right type), against
  the all-optional update schema (keeping only the fields actually sent), and
  checking a stored record against the response schema.
  Email syntax is the library's business and comes in as `isEmail`.
 */
module Schemas {
  import opened Values
  import opened Entities

  /** Whether `v` is an acceptable value for field `c`, whose type is `Optional` when `nullable`. */
  predicate Accepts(c: Column, v: Value, nullable: bool, isEmail: string -> bool) {
    if v == Null then nullable
    else HasKind(v, KindOf(c)) && (c == Email ==> v.Text? && isEmail(v.s))
  }

  predicate CreateFieldOk(e: TableSpec, c: Column, body: Row, isEmail: string -> bool) {
    match e.Field(c)
    case Required => c in body && Accepts(c, body[c], false, isEmail)
    case Defaulted(_, nullable) => c !in body || Accepts(c, body[c], nullable, isEmail)
  }

  /** The value a create payload carries for `c`: what was sent, or the schema default. */
  function CreateValue(e: TableSpec, c: Column, body: Row): Value {
    if c in body then body[c]
    else match e.Field(c)
      case Required => Null
      case Defaulted(d, _) => d
  }

  /**
    Validates a create body.  Errors are collected for every field at once,
    not just the first; fields the schema does not declare are ignored.
    On success the payload names every column (the `.dict()` of the schema).
   */
  function ValidateCreate(e: TableSpec, body: Row, isEmail: string -> bool): (r: Result<Row, set<Column>>)
    ensures r.Ok? <==> forall c :: c in e.columns ==> CreateFieldOk(e, c, body, isEmail)
    ensures r.Err? ==> r.error != {}
    ensures r.Err? ==> forall c :: c in r.error <==> c in e.columns && !CreateFieldOk(e, c, body, isEmail)
    ensures r.Ok? ==> r.value.Keys == e.columns
    ensures r.Ok? ==> forall c :: c in body && c in e.columns ==> r.value[c] == body[c]
    ensures r.Ok? ==> forall c :: c in e.columns && c !in body ==> r.value[c] == e.Field(c).default
    ensures r.Ok? ==> forall c :: c in e.notNull ==> r.value[c] != Null
    ensures r.Ok? ==> r.value[Email].Text? && isEmail(r.value[Email].s)
    ensures r.Ok? ==> r.value[e.code].Text?
  {
    var errors := set c | c in e.columns && !CreateFieldOk(e, c, body, isEmail);
    if errors == {} then
      var row := map c | c in e.columns :: CreateValue(e, c, body);
      assert forall c :: c in e.columns ==> c !in errors;
      assert CreateFieldOk(e, Email, body, isEmail) && CreateFieldOk(e, e.code, body, isEmail);
      Ok(row)
    else
      Err(errors)
  }

  /** Whether a sent update field is acceptable; every update field is `Optional`. */
  predicate UpdateFieldOk(e: TableSpec, c: Column, body: Row, isEmail: string -> bool) {
    c in e.updateFields && c in body ==> Accepts(c, body[c], true, isEmail)
  }

  /**
    Validates an update body and keeps only the fields that were sent
    (`exclude_unset=True`): an explicit null is kept as a sent NULL, an absent
    field is not in the result at all, and fields the schema lacks (the
    external code among them) are dropped.
   */
  function ValidateUpdate(e: TableSpec, body: Row, isEmail: string -> bool): (r: Result<Row, set<Column>>)
    ensures r.Ok? <==> forall c :: c in body ==> UpdateFieldOk(e, c, body, isEmail)
    ensures r.Err? ==> r.error != {}
    ensures r.Err? ==> forall c :: c in r.error <==> c in body && !UpdateFieldOk(e, c, body, isEmail)
    ensures r.Ok? ==> r.value.Keys == body.Keys * e.updateFields
    ensures r.Ok? ==> forall c :: c in r.value ==> r.value[c] == body[c]
    ensures r.Ok? ==> e.code !in r.value
  {
    var errors := set c | c in body && !UpdateFieldOk(e, c, body, isEmail);
    if errors == {} then
      Ok(map c | c in body && c in e.updateFields :: body[c])
    else
      Err(errors)
  }

  /**
    Fields the response schema declares with a non-`Optional` type: the response
    schema extends the create schema's base, so these are its required fields
    plus the defaulted ones whose type is not `Optional`.
   */
  function ResponseNonNull(e: TableSpec): set<Column> {
    set c | c in e.columns && !(e.Field(c).Defaulted? && e.Field(c).nullable)
  }

  /** Whether a stored row can be serialised through the response schema. */
  predicate ResponseConforms(e: TableSpec, row: Row) {
    forall c :: c in ResponseNonNull(e) ==> Lookup(row, c) != Null
  }

  /** A validated create payload always serialises: nothing the response demands is NULL. */
  lemma CreatePayloadConforms(e: TableSpec, body: Row, isEmail: string -> bool)
    requires ValidateCreate(e, body, isEmail).Ok?
    ensures ResponseConforms(e, ValidateCreate(e, body, isEmail).value)
  {
    var row := ValidateCreate(e, body, isEmail).value;
    forall c | c in ResponseNonNull(e) ensures Lookup(row, c) != Null {
      assert CreateFieldOk(e, c, body, isEmail);
    }
  }
}
