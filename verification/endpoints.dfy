/**
  The request handlers of the five routers: each parses its body against the
  entity's schema, delegates to the service, and turns the outcome into a
  status code.  An exception nothing catches becomes a 500 response; a record
  the response schema rejects does too, after whatever the service committed.
 */
module Endpoints {
  import opened Values
  import opened Entities
  import opened Schemas
  import opened Tables
  import opened Services

  datatype Body =
    | Item(record: Record)
    | Items(records: seq<Record>)
    | Detail(message: string)
    | FieldErrors(fields: set<Column>)
    | NoBody
    | InternalError

  datatype Response = Response(status: int, body: Body)

  const Ok200: int := 200
  const Created201: int := 201
  const NoContent204: int := 204
  const BadRequest400: int := 400
  const NotFound404: int := 404
  const Unprocessable422: int := 422
  const ServerError500: int := 500

  /** Query defaults of the list handlers. */
  const DefaultSkip: int := 0
  const DefaultLimit: int := 100

  function NotFoundDetail(e: TableSpec): string {
    match e.entity
    case Student => "Student not found"
    case Faculty => "Faculty not found"
    case ITStaff => "IT Staff not found"
    case Staff => "Staff not found"
    case Patient => "Patient not found"
  }

  /** The faculty and IT-staff create handlers look the external code up before creating. */
  function PrecheckDetail(e: TableSpec): Option<string> {
    match e.entity
    case Faculty => Some("Faculty ID already exists")
    case ITStaff => Some("IT Staff ID already exists")
    case _ => None
  }

  /** Serialising one record through the response schema. */
  function Reply(e: TableSpec, status: int, r: Record): Response {
    if ResponseConforms(e, r.row) then Response(status, Item(r))
    else Response(ServerError500, InternalError)
  }

  /** Whether the external code of a validated payload is already in use (the pre-check's query). */
  predicate CodeInUse(e: TableSpec, t: Table, data: Row): (b: bool)
    ensures b <==> Lookup(data, e.code).Text? && exists i :: 0 <= i < |t| && Col(t[i], e.code) == Lookup(data, e.code)
  {
    var code := Lookup(data, e.code);
    code.Text? && GetByCode(e, t, code.s).Some?
  }

  /** `POST /` */
  function HandleCreate(e: TableSpec, t: Table, body: Row, isEmail: string -> bool, now: Time): (s: Step<Response>)
    ensures s.result.status == Unprocessable422 <==> ValidateCreate(e, body, isEmail).Err?
    ensures s.result.status != Created201 ==> s.table == t
    ensures s.result.status == Created201 ==>
      exists r :: s.table == t + [r] && s.result.body == Item(r) && r.row == ValidateCreate(e, body, isEmail).value
  {
    match ValidateCreate(e, body, isEmail)
    case Err(fields) => Step(t, Response(Unprocessable422, FieldErrors(fields)))
    case Ok(data) =>
      if PrecheckDetail(e).Some? && CodeInUse(e, t, data) then
        Step(t, Response(BadRequest400, Detail(PrecheckDetail(e).value)))
      else
        var s := Create(e, t, data, now);
        match s.result
        case Ok(r) =>
          CreatePayloadConforms(e, body, isEmail);
          Step(s.table, Reply(e, Created201, r))
        case Err(ValueError(m)) => Step(s.table, Response(BadRequest400, Detail(m)))
        case Err(IntegrityError(_)) => Step(s.table, Response(ServerError500, InternalError))
  }

  /** `GET /?skip=&limit=`, with the query's defaults for an absent parameter. */
  function HandleList(e: TableSpec, t: Table, skip: Option<int>, limit: Option<int>): (resp: Response)
    ensures resp.status == Ok200 || resp == Response(ServerError500, InternalError)
    ensures resp.status == Ok200 ==>
      var s := if skip.Some? then skip.value else DefaultSkip;
      var n := if limit.Some? then limit.value else DefaultLimit;
      resp.body == Items(Page(t, s, n))
    ensures resp.status == Ok200 && skip.None? && limit.None? ==>
      |resp.body.records| <= 100 && forall k :: 0 <= k < |resp.body.records| ==> resp.body.records[k] == t[k]
    ensures var p := Page(t, if skip.Some? then skip.value else DefaultSkip, if limit.Some? then limit.value else DefaultLimit);
      resp.status == Ok200 <==> forall k :: 0 <= k < |p| ==> ResponseConforms(e, p[k].row)
  {
    var p := Page(t, if skip.Some? then skip.value else DefaultSkip, if limit.Some? then limit.value else DefaultLimit);
    if forall k :: 0 <= k < |p| ==> ResponseConforms(e, p[k].row) then Response(Ok200, Items(p))
    else Response(ServerError500, InternalError)
  }

  /** `GET /{id}` */
  function HandleGet(e: TableSpec, t: Table, id: int): (resp: Response)
    ensures resp.status == NotFound404 <==> forall i :: 0 <= i < |t| ==> t[i].id != id
    ensures resp.status == NotFound404 ==> resp.body == Detail(NotFoundDetail(e))
    ensures resp.status == Ok200 ==> resp.body.Item? && resp.body.record in t && resp.body.record.id == id
    ensures resp.status in {Ok200, NotFound404, ServerError500}
    ensures var g := GetById(t, id);
      && (g.Some? && ResponseConforms(e, g.value.row) ==> resp == Response(Ok200, Item(g.value)))
      && (resp.status == ServerError500 <==> g.Some? && !ResponseConforms(e, g.value.row))
  {
    match GetById(t, id)
    case None => Response(NotFound404, Detail(NotFoundDetail(e)))
    case Some(r) => Reply(e, Ok200, r)
  }

  /** `PUT /{id}` */
  function HandleUpdate(e: TableSpec, t: Table, id: int, body: Row, isEmail: string -> bool, now: Time): (s: Step<Response>)
    ensures s.result.status == Unprocessable422 <==> ValidateUpdate(e, body, isEmail).Err?
    ensures s.result.status == Unprocessable422 ==> s.table == t
    ensures ValidateUpdate(e, body, isEmail).Ok? ==>
      (s.result.status == NotFound404 <==> forall i :: 0 <= i < |t| ==> t[i].id != id)
    ensures s.result.status == NotFound404 ==> s.table == t && s.result.body == Detail(NotFoundDetail(e))
    ensures s.result.status == Ok200 ==>
      var sent := ValidateUpdate(e, body, isEmail).value;
      var i := FindId(t, id);
      i.Some? && s.result.body.Item? && UpdatedAt(e, t, i.value, sent, now, s.table, s.result.body.record)
    ensures s.result.status in {Ok200, NotFound404, Unprocessable422, ServerError500}
    ensures ValidateUpdate(e, body, isEmail).Ok? ==>
      var u := Update(e, t, id, ValidateUpdate(e, body, isEmail).value, now);
      && s.table == u.table
      && (s.result.status == ServerError500 <==>
            u.result.Err? || (u.result.value.Some? && !ResponseConforms(e, u.result.value.value.row)))
  {
    AnswerUpdate(e, t, id, ValidateUpdate(e, body, isEmail), now)
  }

  /** Answers a `PUT /{id}` whose body has been validated into `parsed`. */
  function AnswerUpdate(e: TableSpec, t: Table, id: int, parsed: Result<Row, set<Column>>, now: Time): (s: Step<Response>)
    requires parsed.Ok? ==> parsed.value.Keys <= e.updateFields
    ensures s.result.status == Unprocessable422 <==> parsed.Err?
    ensures s.result.status == Unprocessable422 ==> s.table == t
    ensures parsed.Ok? ==> (s.result.status == NotFound404 <==> forall i :: 0 <= i < |t| ==> t[i].id != id)
    ensures s.result.status == NotFound404 ==> s.table == t && s.result.body == Detail(NotFoundDetail(e))
    ensures s.result.status == Ok200 ==>
      var i := FindId(t, id);
      && parsed.Ok? && i.Some? && s.result.body.Item?
      && UpdatedAt(e, t, i.value, parsed.value, now, s.table, s.result.body.record)
    ensures s.result.status in {Ok200, NotFound404, Unprocessable422, ServerError500}
    ensures parsed.Ok? ==>
      var u := Update(e, t, id, parsed.value, now);
      && s.table == u.table
      && (s.result.status == ServerError500 <==>
            u.result.Err? || (u.result.value.Some? && !ResponseConforms(e, u.result.value.value.row)))
  {
    match parsed
    case Err(fields) => Step(t, Response(Unprocessable422, FieldErrors(fields)))
    case Ok(sent) =>
      var s := Update(e, t, id, sent, now);
      match s.result
      case Ok(None) => Step(s.table, Response(NotFound404, Detail(NotFoundDetail(e))))
      case Ok(Some(r)) => Step(s.table, Reply(e, Ok200, r))
      case Err(_) => Step(s.table, Response(ServerError500, InternalError))
  }

  /** `DELETE /{id}` */
  function HandleDelete(e: TableSpec, t: Table, id: int): (s: Step<Response>)
    ensures s.result.status == NoContent204 <==> exists i :: 0 <= i < |t| && t[i].id == id
    ensures s.result.status == NoContent204 ==> s.result.body == NoBody && |s.table| == |t| - 1
    ensures s.result.status != NoContent204 ==>
      s == Step(t, Response(NotFound404, Detail(NotFoundDetail(e))))
  {
    var d := Delete(e, t, id);
    if d.result then Step(d.table, Response(NoContent204, NoBody))
    else Step(d.table, Response(NotFound404, Detail(NotFoundDetail(e))))
  }

  /** For a validated payload, the ORM row is the payload itself and no NOT NULL column is NULL. */
  lemma ValidatedPayloadFacts(e: TableSpec, body: Row, isEmail: string -> bool)
    requires ValidateCreate(e, body, isEmail).Ok?
    ensures var data := ValidateCreate(e, body, isEmail).value;
      && Construct(e, data) == data
      && !HasNullViolation(e, data)
      && data[e.code].Text?
  {
    var data := ValidateCreate(e, body, isEmail).value;
    assert Construct(e, data) == data;
  }

  /**
    The student, staff and patient create handlers: 201 with the new record when
    both unique values are free; otherwise 400 with the service's message,
    email first, and the table unchanged.  The generic "Database constraint
    violation" message is never reached, since a validated payload fills
    every NOT NULL column.
   */
  lemma CreateAnswers(e: TableSpec, t: Table, body: Row, isEmail: string -> bool, now: Time)
    requires PrecheckDetail(e).None?
    requires ValidateCreate(e, body, isEmail).Ok?
    ensures var data := ValidateCreate(e, body, isEmail).value;
      var s := HandleCreate(e, t, body, isEmail, now);
      var emailUsed := Taken(t, Email, data[Email]);
      var codeUsed := Taken(t, e.code, data[e.code]);
      && (!emailUsed && !codeUsed ==>
            && s.result.status == Created201
            && s.table == t + [s.result.body.record]
            && s.result.body.record.row == data
            && s.result.body.record.createdAt == now
            && s.result.body.record.updatedAt == None
            && s.result.body.record.id == NextId(t))
      && (emailUsed ==> s == Step(t, Response(BadRequest400, Detail("Email already exists"))))
      && (!emailUsed && codeUsed ==>
            s == Step(t, Response(BadRequest400, Detail(ViolationMessage(e, CodeUnique).value))))
      && s.result.body != Detail("Database constraint violation")
  {
    ValidatedPayloadFacts(e, body, isEmail);
    CreatePayloadConforms(e, body, isEmail);
  }

  /**
    The faculty and IT-staff create handlers: a used external code is answered
    400 before anything is written; otherwise the service's outcome decides,
    201 with the new record when the email is free as well.
   */
  lemma PrecheckAnswers(e: TableSpec, t: Table, body: Row, isEmail: string -> bool, now: Time)
    requires PrecheckDetail(e).Some?
    requires ValidateCreate(e, body, isEmail).Ok?
    ensures var data := ValidateCreate(e, body, isEmail).value;
      var s := HandleCreate(e, t, body, isEmail, now);
      var emailUsed := Taken(t, Email, data[Email]);
      var codeUsed := Taken(t, e.code, data[e.code]);
      && (codeUsed ==> s == Step(t, Response(BadRequest400, Detail(PrecheckDetail(e).value))))
      && (!emailUsed && !codeUsed ==>
            && s.result.status == Created201
            && s.table == t + [s.result.body.record]
            && s.result.body.record.row == data)
  {
    ValidatedPayloadFacts(e, body, isEmail);
    CreatePayloadConforms(e, body, isEmail);
  }

  /**
    The pre-check looks only at the external code: a fresh code with a used
    email passes it, and the violation the commit then raises is caught by
    nothing, so the handler answers 500 and the table is unchanged.
   */
  lemma PrecheckIgnoresEmail(e: TableSpec, t: Table, body: Row, isEmail: string -> bool, now: Time)
    requires PrecheckDetail(e).Some?
    requires ValidateCreate(e, body, isEmail).Ok?
    requires var data := ValidateCreate(e, body, isEmail).value;
      Taken(t, Email, data[Email]) && !Taken(t, e.code, data[e.code])
    ensures HandleCreate(e, t, body, isEmail, now) == Step(t, Response(ServerError500, InternalError))
  {
    ValidatedPayloadFacts(e, body, isEmail);
  }

  /** On an empty table every valid payload is created, as the record with id 1. */
  lemma CreateOnEmpty(e: TableSpec, body: Row, isEmail: string -> bool, now: Time)
    requires ValidateCreate(e, body, isEmail).Ok?
    ensures var s := HandleCreate(e, [], body, isEmail, now);
      && s.result.status == Created201
      && s.table == [s.result.body.record]
      && s.result.body.record.id == 1
      && s.result.body.record.row == ValidateCreate(e, body, isEmail).value
      && s.result.body.record.createdAt == now
  {
    ValidatedPayloadFacts(e, body, isEmail);
    CreatePayloadConforms(e, body, isEmail);
  }

  /** No handler breaks uniqueness or any other integrity rule of the table. */
  lemma HandlersKeepValid(e: TableSpec, t: Table, id: int, body: Row, isEmail: string -> bool, now: Time)
    requires Valid(e, t)
    ensures Valid(e, HandleCreate(e, t, body, isEmail, now).table)
    ensures Valid(e, HandleUpdate(e, t, id, body, isEmail, now).table)
    ensures Valid(e, HandleDelete(e, t, id).table)
  {
    HandleCreateKeepsValid(e, t, body, isEmail, now);
    HandleUpdateKeepsValid(e, t, id, body, isEmail, now);
    DeleteKeepsValid(e, t, id);
  }

  lemma HandleCreateKeepsValid(e: TableSpec, t: Table, body: Row, isEmail: string -> bool, now: Time)
    requires Valid(e, t)
    ensures Valid(e, HandleCreate(e, t, body, isEmail, now).table)
  {
    var s := HandleCreate(e, t, body, isEmail, now);
    if s.table != t {
      var data := ValidateCreate(e, body, isEmail).value;
      assert s.table == Create(e, t, data, now).table;
      CreateKeepsValid(e, t, data, now);
    }
  }

  lemma HandleUpdateKeepsValid(e: TableSpec, t: Table, id: int, body: Row, isEmail: string -> bool, now: Time)
    requires Valid(e, t)
    ensures Valid(e, HandleUpdate(e, t, id, body, isEmail, now).table)
  {
    if ValidateUpdate(e, body, isEmail).Ok? {
      var sent := ValidateUpdate(e, body, isEmail).value;
      assert HandleUpdate(e, t, id, body, isEmail, now).table == Update(e, t, id, sent, now).table;
      UpdateKeepsValid(e, t, id, sent, now);
    }
  }

  /** A record the create handler answered 201 for is what a later get of its id answers. */
  lemma CreateThenGet(e: TableSpec, t: Table, body: Row, isEmail: string -> bool, now: Time)
    requires Valid(e, t)
    ensures var s := HandleCreate(e, t, body, isEmail, now);
      s.result.status == Created201 ==>
        HandleGet(e, s.table, s.result.body.record.id) == Response(Ok200, Item(s.result.body.record))
  {
    var s := HandleCreate(e, t, body, isEmail, now);
    if s.result.status != Created201 {
      return;
    }
    var r := s.result.body.record;
    CreatePayloadConforms(e, body, isEmail);
    CreateKeepsValid(e, t, ValidateCreate(e, body, isEmail).value, now);
    assert s.table[|t|] == r;
    FindIdAt(s.table, |t|);
  }

  /** After a delete, the id is gone: get and a second delete both answer 404. */
  lemma DeleteThenGet(e: TableSpec, t: Table, id: int)
    requires Valid(e, t)
    ensures var t' := HandleDelete(e, t, id).table;
      && HandleGet(e, t', id) == Response(NotFound404, Detail(NotFoundDetail(e)))
      && HandleDelete(e, t', id) == Step(t', Response(NotFound404, Detail(NotFoundDetail(e))))
  {
    var t' := HandleDelete(e, t, id).table;
    if exists i :: 0 <= i < |t'| && t'[i].id == id {
      var i :| 0 <= i < |t'| && t'[i].id == id;
      assert t'[i] in t';
    }
  }
}
