/**
  A sample walk-through on an empty students table: create S1, two
  rejected duplicates, a one-field update, a delete, and a get that no
  longer finds the record.
 */
module Scenario {
  import opened Values
  import opened Entities
  import opened Schemas
  import opened Tables
  import opened Services
  import opened Endpoints
  import opened Findings

  function Ann(): Row {
    map[StudentId := Text("S1"), FirstName := Text("Ann"), LastName := Text("Lee"),
        Email := Text("a@x.com"), Major := Text("CS")]
  }

  /**
    What the walk-through needs of the students table: its entity and code,
    and that the sample payload names every NOT NULL column and only columns.
   */
  predicate StudentsShaped(e: TableSpec) {
    && e.entity == Student
    && e.code == StudentId
    && e.notNull <= Ann().Keys <= e.columns
  }

  lemma StudentsTableShaped()
    ensures StudentsShaped(Describe(Student))
  {
  }

  lemma AnnValidates(e: TableSpec, body: Row, isEmail: string -> bool)
    requires StudentsShaped(e)
    requires body.Keys == Ann().Keys
    requires forall c :: c in body ==> body[c].Text?
    requires isEmail(body[Email].s)
    ensures var r := ValidateCreate(e, body, isEmail);
      r.Ok? && forall c :: c in body ==> r.value[c] == body[c]
  {
    assert forall c :: c in e.columns ==> CreateFieldOk(e, c, body, isEmail);
  }

  lemma FirstCreate(e: TableSpec, isEmail: string -> bool, now: Time)
    requires StudentsShaped(e)
    requires isEmail("a@x.com")
    ensures var s := HandleCreate(e, [], Ann(), isEmail, now);
      && s.result.status == Created201
      && |s.table| == 1
      && s.table[0] == s.result.body.record
      && s.result.body.record.id == 1
      && s.result.body.record.createdAt == now
      && Col(s.table[0], StudentId) == Text("S1")
      && Col(s.table[0], Email) == Text("a@x.com")
      && Col(s.table[0], Major) == Text("CS")
      && Col(s.table[0], FirstName) == Text("Ann")
      && ResponseConforms(e, s.table[0].row)
  {
    AnnPayload(e, isEmail);
    CreatePayloadConforms(e, Ann(), isEmail);
    CreateOnEmpty(e, Ann(), isEmail, now);
  }

  /** The fields of the validated sample payload that the walk-through reads back. */
  lemma AnnPayload(e: TableSpec, isEmail: string -> bool)
    requires StudentsShaped(e)
    requires isEmail("a@x.com")
    ensures var r := ValidateCreate(e, Ann(), isEmail);
      && r.Ok?
      && r.value[StudentId] == Text("S1") && r.value[Email] == Text("a@x.com")
      && r.value[Major] == Text("CS") && r.value[FirstName] == Text("Ann")
  {
    AnnValidates(e, Ann(), isEmail);
  }

  /** The table after the first create keeps every integrity rule. */
  lemma FirstCreateValid(e: TableSpec, isEmail: string -> bool, now: Time)
    ensures Valid(e, HandleCreate(e, [], Ann(), isEmail, now).table)
  {
    HandleCreateKeepsValid(e, [], Ann(), isEmail, now);
  }

  lemma DuplicateCode(e: TableSpec, t1: Table, isEmail: string -> bool, now: Time)
    requires StudentsShaped(e)
    requires |t1| == 1 && Col(t1[0], StudentId) == Text("S1") && Col(t1[0], Email) == Text("a@x.com")
    requires isEmail("b@x.com")
    ensures HandleCreate(e, t1, Ann()[Email := Text("b@x.com")], isEmail, now)
      == Step(t1, Response(BadRequest400, Detail("Student ID already exists")))
  {
    var body := Ann()[Email := Text("b@x.com")];
    AnnValidates(e, body, isEmail);
    var data := ValidateCreate(e, body, isEmail).value;
    assert data[Email] == Text("b@x.com") && data[StudentId] == Text("S1");
    assert Taken(t1, StudentId, Text("S1"));
    OtherEmailFree(t1);
    StudentCodeMessage(e);
    CreateAnswers(e, t1, body, isEmail, now);
  }

  lemma StudentCodeMessage(e: TableSpec)
    requires e.entity == Student
    ensures ViolationMessage(e, CodeUnique) == Some("Student ID already exists")
  {
  }

  lemma OtherEmailFree(t1: Table)
    requires |t1| == 1 && Col(t1[0], Email) == Text("a@x.com")
    ensures !Taken(t1, Email, Text("b@x.com"))
  {
    assert "a@x.com"[0] != "b@x.com"[0];
  }

  lemma DuplicateEmail(e: TableSpec, t1: Table, isEmail: string -> bool, now: Time)
    requires StudentsShaped(e)
    requires |t1| == 1 && Col(t1[0], Email) == Text("a@x.com")
    requires isEmail("a@x.com")
    ensures HandleCreate(e, t1, Ann()[StudentId := Text("S2")], isEmail, now)
      == Step(t1, Response(BadRequest400, Detail("Email already exists")))
  {
    var body := Ann()[StudentId := Text("S2")];
    AnnValidates(e, body, isEmail);
    var data := ValidateCreate(e, body, isEmail).value;
    assert data[Email] == Text("a@x.com");
    assert Taken(t1, Email, Text("a@x.com"));
    CreateAnswers(e, t1, body, isEmail, now);
  }

  lemma MajorChangeValidates(e: TableSpec, isEmail: string -> bool)
    requires StudentsShaped(e)
    ensures var change := map[Major := Text("Math")];
      ValidateUpdateStrict(e, change, isEmail) == Ok(change)
  {
    var change := map[Major := Text("Math")];
    assert forall c :: c in change ==> StrictUpdateFieldOk(e, c, change, isEmail);
    assert ValidateUpdateStrict(e, change, isEmail).value == change;
  }

  /**
    For the walk-through's change of major, the update handler as written and
    the corrected one give the same answer and the same table: the body sends
    no null, so the two schemas agree on it.
   */
  lemma MajorChangeAsWritten(e: TableSpec, t: Table, id: int, isEmail: string -> bool, now: Time)
    requires StudentsShaped(e)
    ensures var change := map[Major := Text("Math")];
      HandleUpdate(e, t, id, change, isEmail, now) == HandleUpdateStrict(e, t, id, change, isEmail, now)
  {
    var change := map[Major := Text("Math")];
    MajorChangeValidates(e, isEmail);
    assert ValidateUpdate(e, change, isEmail).value == change;
  }

  lemma MajorUpdate(e: TableSpec, t1: Table, isEmail: string -> bool, later: Time)
    requires StudentsShaped(e)
    requires Valid(e, t1) && |t1| == 1 && t1[0].id == 1
    requires Col(t1[0], Major) == Text("CS") && Col(t1[0], FirstName) == Text("Ann")
    requires ResponseConforms(e, t1[0].row)
    ensures var s := HandleUpdate(e, t1, 1, map[Major := Text("Math")], isEmail, later);
      && s.result.status == Ok200
      && |s.table| == 1
      && s.table[0] == s.result.body.record
      && s.table[0].id == 1
      && Col(s.table[0], Major) == Text("Math")
      && Col(s.table[0], FirstName) == Text("Ann")
      && s.table[0].updatedAt == Some(later)
      && Valid(e, s.table)
  {
    var change := map[Major := Text("Math")];
    MajorChangeValidates(e, isEmail);
    assert Changes(t1[0].row, change) by {
      assert "CS"[0] != "Math"[0];
    }
    UpdateCommits(e, t1, 0, change, later);
    var r := t1[0];
    var r' := r.(row := r.row + change, updatedAt := Some(later));
    assert ResponseConforms(e, r'.row) by {
      forall c | c in ResponseNonNull(e) ensures Lookup(r'.row, c) != Null {
        if c != Major {
          assert Lookup(r'.row, c) == Lookup(r.row, c);
        }
      }
    }
    assert HandleUpdateStrict(e, t1, 1, change, isEmail, later) == Step([r'], Response(Ok200, Item(r')));
    UpdateKeepsValid(e, t1, 1, change, later);
    MajorChangeAsWritten(e, t1, 1, isEmail, later);
  }

  /**
    The walk-through, on the students table or any table shaped like it
    (`StudentsTableShaped`): the first create answers 201 with id 1; a second
    S1 and a second a@x.com are refused with their messages; changing the
    major keeps the first name; the delete answers 204 and a get then 404.
   */
  lemma StudentWalkthrough(e: TableSpec, isEmail: string -> bool, now: Time)
    requires StudentsShaped(e)
    requires isEmail("a@x.com") && isEmail("b@x.com")
    ensures var s1 := HandleCreate(e, [], Ann(), isEmail, now);
      var t1 := s1.table;
      var s4 := HandleUpdate(e, t1, 1, map[Major := Text("Math")], isEmail, now + 1);
      var s5 := HandleDelete(e, s4.table, 1);
      && s1.result.status == Created201
      && s1.result.body.record.id == 1
      && s1.result.body.record.createdAt == now
      && HandleCreate(e, t1, Ann()[Email := Text("b@x.com")], isEmail, now)
           == Step(t1, Response(BadRequest400, Detail("Student ID already exists")))
      && HandleCreate(e, t1, Ann()[StudentId := Text("S2")], isEmail, now)
           == Step(t1, Response(BadRequest400, Detail("Email already exists")))
      && s4.result.status == Ok200
      && Col(s4.result.body.record, Major) == Text("Math")
      && Col(s4.result.body.record, FirstName) == Text("Ann")
      && s5.result.status == NoContent204
      && HandleGet(e, s5.table, 1) == Response(NotFound404, Detail("Student not found"))
  {
    FirstCreate(e, isEmail, now);
    FirstCreateValid(e, isEmail, now);
    var t1 := HandleCreate(e, [], Ann(), isEmail, now).table;
    DuplicateCode(e, t1, isEmail, now);
    DuplicateEmail(e, t1, isEmail, now);
    MajorUpdate(e, t1, isEmail, now + 1);
    var t4 := HandleUpdate(e, t1, 1, map[Major := Text("Math")], isEmail, now + 1).table;
    DeleteThenGet(e, t4, 1);
  }
}
