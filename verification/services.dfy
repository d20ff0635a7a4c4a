/**
  The five service classes, written once over an entity descriptor.  Each
  operation takes the table and returns the table afterwards together with its
  outcome.  A commit is one atomic step: it either applies the change or
  reports the constraint it violated and leaves the table as it was.
 */
module Services {
  import opened Values
  import opened Entities
  import opened Tables

  /** What escapes a service call: a mapped `ValueError`, or the storage's `IntegrityError` itself. */
  datatype Fault = ValueError(message: string) | IntegrityError(violated: Constraint)

  /** The table after an operation, and what the operation returned. */
  datatype Step<T> = Step(table: Table, result: T)

  /**
    The message a service's create maps a violation to.  The student, staff and
    patient services catch the violation; the faculty and IT-staff services do
    not, so there is no message and the violation escapes.
   */
  function ViolationMessage(e: TableSpec, c: Constraint): (m: Option<string>)
    ensures m.None? <==> e.entity in {Faculty, ITStaff}
    ensures m.Some? ==> (m.value == "Email already exists" <==> c == EmailUnique)
    ensures m.Some? ==> (m.value == "Database constraint violation" <==> c == NotNull)
  {
    match e.entity
    case Faculty => None
    case ITStaff => None
    case _ =>
      Some(match c
        case EmailUnique => "Email already exists"
        case CodeUnique =>
          (match e.entity
           case Student => "Student ID already exists"
           case Staff => "Staff ID already exists"
           case _ => "Patient ID already exists")
        case NotNull => "Database constraint violation")
  }

  /** What a failed create raises. */
  function Raised(e: TableSpec, c: Constraint): Fault {
    match ViolationMessage(e, c)
    case Some(m) => ValueError(m)
    case None => IntegrityError(c)
  }

  /** The row the ORM builds from a payload: the payload's values, and column defaults for the rest. */
  function Construct(e: TableSpec, data: Row): (row: Row)
    ensures row.Keys == e.columns
    ensures forall c :: c in e.columns && c in data ==> row[c] == data[c]
    ensures forall c :: c in e.columns && c !in data ==> row[c] == e.Default(c)
  {
    map c | c in e.columns :: if c in data then data[c] else e.Default(c)
  }

  /**
    Create: insert the constructed row with a fresh id, stamped `now`, and
    commit; on a violation roll back and raise.
   */
  function Create(e: TableSpec, t: Table, data: Row, now: Time): (s: Step<Result<Record, Fault>>)
    ensures var row := Construct(e, data);
      s.result.Ok? <==>
        && (forall c :: c in e.notNull ==> Lookup(row, c) != Null)
        && (forall i :: 0 <= i < |t| ==> Col(t[i], Email) != Lookup(row, Email))
        && (forall i :: 0 <= i < |t| ==> Col(t[i], e.code) != Lookup(row, e.code))
    ensures s.result.Ok? ==>
      var r := s.result.value;
      && s.table == t + [r]
      && r.row == Construct(e, data)
      && (forall i :: 0 <= i < |t| ==> t[i].id < r.id)
      && r.createdAt == now
      && r.updatedAt == None
    ensures s.result.Err? ==> s.table == t
    ensures s.result.Err? ==> (s.result.error.ValueError? <==> e.entity !in {Faculty, ITStaff})
  {
    var row := Construct(e, data);
    match Violation(e, t, row)
    case Some(c) => Step(t, Err(Raised(e, c)))
    case None =>
      var r := Record(NextId(t), row, now, None);
      Step(t + [r], Ok(r))
  }

  /**
    Which error a failed create raises: a NULL in a NOT NULL column first, then
    a used email, then a used external code.
   */
  lemma CreateRaises(e: TableSpec, t: Table, data: Row, now: Time)
    ensures var row := Construct(e, data);
      var s := Create(e, t, data, now);
      && (HasNullViolation(e, row) ==> s == Step(t, Err(Raised(e, NotNull))))
      && ((!HasNullViolation(e, row) && Taken(t, Email, Lookup(row, Email)))
          ==> s == Step(t, Err(Raised(e, EmailUnique))))
      && ((!HasNullViolation(e, row) && !Taken(t, Email, Lookup(row, Email))
           && Taken(t, e.code, Lookup(row, e.code)))
          ==> s == Step(t, Err(Raised(e, CodeUnique))))
  {
  }

  /** `get_<entity>`: the record with that primary key, if any. */
  function GetById(t: Table, id: int): (r: Option<Record>)
    ensures r.Some? <==> exists i :: 0 <= i < |t| && t[i].id == id
    ensures r.Some? ==> r.value in t && r.value.id == id
    ensures IdsAscending(t) ==> forall i :: 0 <= i < |t| && t[i].id == id ==> r == Some(t[i])
  {
    match FindId(t, id)
    case None => None
    case Some(i) => Some(t[i])
  }

  /** `get_<entity>_by_<code>`: the record holding that external code, if any. */
  function GetByCode(e: TableSpec, t: Table, code: string): (r: Option<Record>)
    ensures r.Some? <==> Taken(t, e.code, Text(code))
    ensures r.Some? ==> r.value in t && Col(r.value, e.code) == Text(code)
    ensures Distinct(t, e.code) ==>
      forall i :: 0 <= i < |t| && Col(t[i], e.code) == Text(code) ==> r == Some(t[i])
  {
    match FindFirst(t, (r: Record) => Col(r, e.code) == Text(code))
    case None => None
    case Some(i) => Some(t[i])
  }

  /** Whether applying `sent` to `row` changes some value, so that an UPDATE is emitted at all. */
  predicate Changes(row: Row, sent: Row) {
    exists c :: c in sent && Lookup(row, c) != sent[c]
  }

  /**
    Update: overwrite exactly the sent fields of the record with that id.  The
    ORM emits no UPDATE when no value differs, so nothing is checked and
    `updated_at` stays; otherwise the commit is checked against the other
    records, and `updated_at` becomes `now`.  Violations are never caught.
   */
  function Update(e: TableSpec, t: Table, id: int, sent: Row, now: Time): (s: Step<Result<Option<Record>, Fault>>)
    requires sent.Keys <= e.updateFields
    ensures (forall i :: 0 <= i < |t| ==> t[i].id != id) ==> s == Step(t, Ok(None))
    ensures (exists i :: 0 <= i < |t| && t[i].id == id) ==> s.result != Ok(None)
    ensures s.result.Err? ==> s.table == t && s.result.error.IntegrityError?
    ensures s.result.Ok? && s.result.value.Some? ==>
      var i := FindId(t, id);
      i.Some? && t[i.value].id == id && UpdatedAt(e, t, i.value, sent, now, s.table, s.result.value.value)
  {
    match FindId(t, id)
    case None => Step(t, Ok(None))
    case Some(i) =>
      var before := t[i];
      var row := before.row + sent;
      if !Changes(before.row, sent) then
        Step(t, Ok(Some(before)))
      else
        match Violation(e, Remove(t, i), row)
        case Some(c) => Step(t, Err(IntegrityError(c)))
        case None =>
          var r := before.(row := row, updatedAt := Some(now));
          Step(t[i := r], Ok(Some(r)))
  }

  /** A commit of `row` in place of record `i` violates a constraint. */
  predicate CommitFails(e: TableSpec, t: Table, i: nat, row: Row)
    requires i < |t|
  {
    || HasNullViolation(e, row)
    || (exists j :: 0 <= j < |t| && j != i && Col(t[j], Email) == Lookup(row, Email))
    || (exists j :: 0 <= j < |t| && j != i && Col(t[j], e.code) == Lookup(row, e.code))
  }

  /**
    `t'` is `t` with record `i` updated by `sent` at `now` into `r`: same id,
    same creation time, the sent fields overwritten, every other field as it
    was, every other record untouched.
   */
  ghost predicate UpdatedAt(e: TableSpec, t: Table, i: nat, sent: Row, now: Time, t': Table, r: Record)
    requires i < |t|
  {
    var before := t[i];
    && t' == t[i := r]
    && r.id == before.id
    && r.createdAt == before.createdAt
    && (forall c :: c in sent ==> Lookup(r.row, c) == sent[c])
    && (forall c :: c !in sent ==> Lookup(r.row, c) == Lookup(before.row, c))
    && Col(r, e.code) == Col(before, e.code)
    && r.updatedAt == (if Changes(before.row, sent) then Some(now) else before.updatedAt)
  }

  /** Delete: remove the record with that id, reporting whether there was one. */
  function Delete(e: TableSpec, t: Table, id: int): (s: Step<bool>)
    ensures s.result <==> exists i :: 0 <= i < |t| && t[i].id == id
    ensures !s.result ==> s.table == t
    ensures s.result ==> |s.table| == |t| - 1
    ensures IdsAscending(t) ==> forall r :: r in s.table <==> r in t && r.id != id
  {
    match FindId(t, id)
    case None => Step(t, false)
    case Some(i) => Step(Remove(t, i), true)
  }

  /** Uniqueness and the other integrity rules survive every create. */
  lemma CreateKeepsValid(e: TableSpec, t: Table, data: Row, now: Time)
    requires Valid(e, t)
    ensures Valid(e, Create(e, t, data, now).table)
  {
    var row := Construct(e, data);
    if Violation(e, t, row).None? {
      AppendKeepsValid(e, t, Record(NextId(t), row, now, None));
    }
  }

  /** Uniqueness and the other integrity rules survive every update. */
  lemma UpdateKeepsValid(e: TableSpec, t: Table, id: int, sent: Row, now: Time)
    requires Valid(e, t) && sent.Keys <= e.updateFields
    ensures Valid(e, Update(e, t, id, sent, now).table)
  {
    match FindId(t, id)
    case None =>
    case Some(i) =>
      var before := t[i];
      var row := before.row + sent;
      if Changes(before.row, sent) && Violation(e, Remove(t, i), row).None? {
        ReplaceKeepsValid(e, t, i, before.(row := row, updatedAt := Some(now)));
      }
  }

  /** Uniqueness and the other integrity rules survive every delete. */
  lemma DeleteKeepsValid(e: TableSpec, t: Table, id: int)
    requires Valid(e, t)
    ensures Valid(e, Delete(e, t, id).table)
  {
    match FindId(t, id)
    case None =>
    case Some(i) => RemoveKeepsValid(e, t, i);
  }

  /**
    An update of an existing record fails exactly when it changes some value
    and the changed row breaks a constraint against the other records.
   */
  lemma UpdateFailsIff(e: TableSpec, t: Table, i: nat, sent: Row, now: Time)
    requires IdsAscending(t) && i < |t| && sent.Keys <= e.updateFields
    ensures Update(e, t, t[i].id, sent, now).result.Err?
      <==> Changes(t[i].row, sent) && CommitFails(e, t, i, t[i].row + sent)
  {
    FindIdAt(t, i);
    var row := t[i].row + sent;
    TakenInRemove(t, i, Email, Lookup(row, Email));
    TakenInRemove(t, i, e.code, Lookup(row, e.code));
  }

  /** The student service: the messages a failed create raises. */
  lemma StudentCreateErrors(t: Table, data: Row, now: Time)
    ensures var row := Construct(Describe(Student), data);
      var s := Create(Describe(Student), t, data, now);
      && (HasNullViolation(Describe(Student), row)
          ==> s == Step(t, Err(ValueError("Database constraint violation"))))
      && ((!HasNullViolation(Describe(Student), row) && Taken(t, Email, Lookup(row, Email)))
          ==> s == Step(t, Err(ValueError("Email already exists"))))
      && ((!HasNullViolation(Describe(Student), row) && !Taken(t, Email, Lookup(row, Email))
           && Taken(t, Describe(Student).code, Lookup(row, Describe(Student).code)))
          ==> s == Step(t, Err(ValueError("Student ID already exists"))))
  {
    CreateRaises(Describe(Student), t, data, now);
  }

  /** The staff service: the messages a failed create raises. */
  lemma StaffCreateErrors(t: Table, data: Row, now: Time)
    ensures var row := Construct(Describe(Staff), data);
      var s := Create(Describe(Staff), t, data, now);
      && (HasNullViolation(Describe(Staff), row)
          ==> s == Step(t, Err(ValueError("Database constraint violation"))))
      && ((!HasNullViolation(Describe(Staff), row) && Taken(t, Email, Lookup(row, Email)))
          ==> s == Step(t, Err(ValueError("Email already exists"))))
      && ((!HasNullViolation(Describe(Staff), row) && !Taken(t, Email, Lookup(row, Email))
           && Taken(t, Describe(Staff).code, Lookup(row, Describe(Staff).code)))
          ==> s == Step(t, Err(ValueError("Staff ID already exists"))))
  {
    CreateRaises(Describe(Staff), t, data, now);
  }

  /** The patient service: the messages a failed create raises. */
  lemma PatientCreateErrors(t: Table, data: Row, now: Time)
    ensures var row := Construct(Describe(Patient), data);
      var s := Create(Describe(Patient), t, data, now);
      && (HasNullViolation(Describe(Patient), row)
          ==> s == Step(t, Err(ValueError("Database constraint violation"))))
      && ((!HasNullViolation(Describe(Patient), row) && Taken(t, Email, Lookup(row, Email)))
          ==> s == Step(t, Err(ValueError("Email already exists"))))
      && ((!HasNullViolation(Describe(Patient), row) && !Taken(t, Email, Lookup(row, Email))
           && Taken(t, Describe(Patient).code, Lookup(row, Describe(Patient).code)))
          ==> s == Step(t, Err(ValueError("Patient ID already exists"))))
  {
    CreateRaises(Describe(Patient), t, data, now);
  }

  /** The faculty service: nothing is caught, so a violated constraint escapes as it is. */
  lemma FacultyCreateUnmapped(t: Table, data: Row, now: Time)
    ensures var row := Construct(Describe(Faculty), data);
      var s := Create(Describe(Faculty), t, data, now);
      && (s.result.Err? ==> s.table == t && s.result.error.IntegrityError?)
      && ((!HasNullViolation(Describe(Faculty), row) && Taken(t, Email, Lookup(row, Email)))
          ==> s == Step(t, Err(IntegrityError(EmailUnique))))
      && ((!HasNullViolation(Describe(Faculty), row) && !Taken(t, Email, Lookup(row, Email))
           && Taken(t, Describe(Faculty).code, Lookup(row, Describe(Faculty).code)))
          ==> s == Step(t, Err(IntegrityError(CodeUnique))))
  {
    CreateRaises(Describe(Faculty), t, data, now);
  }

  /** The IT-staff service: nothing is caught, so a violated constraint escapes as it is. */
  lemma ITStaffCreateUnmapped(t: Table, data: Row, now: Time)
    ensures var row := Construct(Describe(ITStaff), data);
      var s := Create(Describe(ITStaff), t, data, now);
      && (s.result.Err? ==> s.table == t && s.result.error.IntegrityError?)
      && ((!HasNullViolation(Describe(ITStaff), row) && Taken(t, Email, Lookup(row, Email)))
          ==> s == Step(t, Err(IntegrityError(EmailUnique))))
      && ((!HasNullViolation(Describe(ITStaff), row) && !Taken(t, Email, Lookup(row, Email))
           && Taken(t, Describe(ITStaff).code, Lookup(row, Describe(ITStaff).code)))
          ==> s == Step(t, Err(IntegrityError(CodeUnique))))
  {
    CreateRaises(Describe(ITStaff), t, data, now);
  }

  /**
    An update that changes something, nulls no NOT NULL column and leaves the
    email alone always commits: the external code cannot be sent, so neither
    unique value moves.
   */
  lemma UpdateCommits(e: TableSpec, t: Table, i: nat, sent: Row, now: Time)
    requires Valid(e, t) && i < |t| && sent.Keys <= e.updateFields
    requires Changes(t[i].row, sent)
    requires forall c :: c in sent && c in e.notNull ==> sent[c] != Null
    requires Email !in sent
    ensures var r := t[i].(row := t[i].row + sent, updatedAt := Some(now));
      Update(e, t, t[i].id, sent, now) == Step(t[i := r], Ok(Some(r)))
  {
    FindIdAt(t, i);
    var row := t[i].row + sent;
    assert Lookup(row, Email) == Col(t[i], Email);
    assert Lookup(row, e.code) == Col(t[i], e.code);
    TakenInRemove(t, i, Email, Lookup(row, Email));
    TakenInRemove(t, i, e.code, Lookup(row, e.code));
    forall c | c in e.notNull ensures Lookup(row, c) != Null {
      if c !in sent {
        assert Lookup(row, c) == Col(t[i], c);
      }
    }
  }
}
