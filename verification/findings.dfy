/**
  A field that the update schema and the column both let be NULL, but that the
  response schema declares non-optional (`is_active` everywhere, and the IT-staff
  `department` and `access_level`): an update setting it to null is committed,
  and only then does serialising the answer fail, so the caller gets a 500
  while the change stays, and every later read of that record fails the same
  way.  The evidently intended schema rejects such a null up front.
 */
module Findings {
  import opened Values
  import opened Entities
  import opened Schemas
  import opened Tables
  import opened Services
  import opened Endpoints

  /** Every stored record can be serialised through the response schema. */
  ghost predicate Readable(e: TableSpec, t: Table) {
    forall i :: 0 <= i < |t| ==> ResponseConforms(e, t[i].row)
  }

  /** The as-written update schema takes an explicit null for `is_active` as a sent field. */
  lemma NullActiveIsSent(e: TableSpec, isEmail: string -> bool)
    ensures ValidateUpdate(e, map[IsActive := Null], isEmail) == Ok(map[IsActive := Null])
  {
    var body := map[IsActive := Null];
    assert UpdateFieldOk(e, IsActive, body, isEmail);
    assert forall c :: c in body ==> UpdateFieldOk(e, c, body, isEmail);
    var r := ValidateUpdate(e, body, isEmail);
    assert IsActive in e.updateFields;
    assert r.value.Keys == body.Keys;
    assert r.value == body;
  }

  /** As written: nulling `is_active` is committed, answered 500, and leaves the record unreadable. */
  lemma NullActiveUpdateCommitsThen500(e: TableSpec, t: Table, i: nat, isEmail: string -> bool, now: Time)
    requires Valid(e, t) && i < |t|
    requires Col(t[i], IsActive) != Null
    ensures var s := HandleUpdate(e, t, t[i].id, map[IsActive := Null], isEmail, now);
      && s.result == Response(ServerError500, InternalError)
      && s.table != t
      && |s.table| == |t|
      && Col(s.table[i], IsActive) == Null
      && HandleGet(e, s.table, t[i].id) == Response(ServerError500, InternalError)
  {
    var sent := map[IsActive := Null];
    NullActiveIsSent(e, isEmail);
    assert Changes(t[i].row, sent);
    UpdateCommits(e, t, i, sent, now);
    var r := t[i].(row := t[i].row + sent, updatedAt := Some(now));
    var t' := t[i := r];
    assert !ResponseConforms(e, r.row) by {
      assert IsActive in ResponseNonNull(e);
      assert Lookup(r.row, IsActive) == Null;
    }
    assert HandleUpdate(e, t, t[i].id, sent, isEmail, now) == Step(t', Reply(e, Ok200, r));
    UpdateKeepsValid(e, t, t[i].id, sent, now);
    FindIdAt(t', i);
    assert t' != t by {
      assert t'[i] != t[i];
    }
  }

  /** The update schema as evidently intended: a field whose response type is not optional rejects null. */
  predicate StrictUpdateFieldOk(e: TableSpec, c: Column, body: Row, isEmail: string -> bool) {
    c in e.updateFields && c in body ==> Accepts(c, body[c], c !in ResponseNonNull(e), isEmail)
  }

  function ValidateUpdateStrict(e: TableSpec, body: Row, isEmail: string -> bool): (r: Result<Row, set<Column>>)
    ensures r.Ok? <==> forall c :: c in body ==> StrictUpdateFieldOk(e, c, body, isEmail)
    ensures r.Err? ==> r.error != {}
    ensures r.Ok? ==> r.value.Keys == body.Keys * e.updateFields
    ensures r.Ok? ==> forall c :: c in r.value ==> r.value[c] == body[c]
    ensures r.Ok? ==> forall c :: c in r.value && c in ResponseNonNull(e) ==> r.value[c] != Null
  {
    var errors := set c | c in body && !StrictUpdateFieldOk(e, c, body, isEmail);
    if errors == {} then
      Ok(map c | c in body && c in e.updateFields :: body[c])
    else
      Err(errors)
  }

  /** `PUT /{id}` with the corrected schema. */
  function HandleUpdateStrict(e: TableSpec, t: Table, id: int, body: Row, isEmail: string -> bool, now: Time): (s: Step<Response>)
    ensures s.result.status == Unprocessable422 <==> ValidateUpdateStrict(e, body, isEmail).Err?
    ensures ValidateUpdateStrict(e, body, isEmail).Ok? ==>
      (s.result.status == NotFound404 <==> forall i :: 0 <= i < |t| ==> t[i].id != id)
    ensures s.result.status == Ok200 ==>
      var sent := ValidateUpdateStrict(e, body, isEmail).value;
      var i := FindId(t, id);
      i.Some? && s.result.body.Item? && UpdatedAt(e, t, i.value, sent, now, s.table, s.result.body.record)
  {
    AnswerUpdate(e, t, id, ValidateUpdateStrict(e, body, isEmail), now)
  }

  /**
    Corrected: a readable table stays readable under every update, and a 500
    answer never leaves a change behind.
   */
  lemma StrictUpdateKeepsReadable(e: TableSpec, t: Table, id: int, body: Row, isEmail: string -> bool, now: Time)
    requires Valid(e, t) && Readable(e, t)
    ensures var s := HandleUpdateStrict(e, t, id, body, isEmail, now);
      && Readable(e, s.table)
      && (s.result.status == ServerError500 ==> s.table == t)
  {
    var parsed := ValidateUpdateStrict(e, body, isEmail);
    if parsed.Ok? {
      var sent := parsed.value;
      var u := Update(e, t, id, sent, now);
      if u.result.Ok? && u.result.value.Some? {
        var i := FindId(t, id).value;
        var r := u.result.value.value;
        assert UpdatedAt(e, t, i, sent, now, u.table, r);
        forall c | c in ResponseNonNull(e) ensures Lookup(r.row, c) != Null {
          if c !in sent {
            assert Lookup(r.row, c) == Lookup(t[i].row, c);
          }
        }
        assert ResponseConforms(e, r.row);
      }
    }
  }

  /** The create handler only ever adds readable records. */
  lemma CreateKeepsReadable(e: TableSpec, t: Table, body: Row, isEmail: string -> bool, now: Time)
    requires Readable(e, t)
    ensures Readable(e, HandleCreate(e, t, body, isEmail, now).table)
  {
    var s := HandleCreate(e, t, body, isEmail, now);
    if s.table != t {
      CreatePayloadConforms(e, body, isEmail);
      ValidatedPayloadFacts(e, body, isEmail);
      assert s.table == t + [s.table[|t|]];
    }
  }

  /** On a readable table no get or list answers 500. */
  lemma ReadableAnswersNever500(e: TableSpec, t: Table, id: int, skip: Option<int>, limit: Option<int>)
    requires Readable(e, t)
    ensures HandleGet(e, t, id).status in {Ok200, NotFound404}
    ensures HandleList(e, t, skip, limit).status == Ok200
  {
    var p := Page(t, if skip.Some? then skip.value else DefaultSkip, if limit.Some? then limit.value else DefaultLimit);
    forall k | 0 <= k < |p| ensures ResponseConforms(e, p[k].row) {
      var s := if skip.Some? then skip.value else DefaultSkip;
      if s < 0 {
        assert p[k] == t[k];
      } else {
        assert p[k] == t[s + k];
      }
    }
  }
}
