/**
  The five tables (students, faculty, it_staff, staff, patients) and, for each,
  what its ORM model declares about its columns and what its Pydantic schemas
  declare about create, update and response payloads.  Every table shares one
  shape; the differences between them live in the functions below.
 */
module Entities {
  import opened Values

  datatype Entity = Student | Faculty | ITStaff | Staff | Patient

  /**
    The column names of all five tables (besides `id` and the timestamps),
    which are also the field names of their JSON payloads.
   */
  datatype Column =
    | StudentId | FacultyId | StaffId | PatientId
    | FirstName | LastName | Email | Phone | IsActive
    | Major | Year | Gpa
    | Department | Position | OfficeLocation | Specialization
    | Role | AccessLevel
    | Address | DateOfBirth

  /** A row, or a parsed JSON object: field to value. */
  type Row = map<Column, Value>

  /** The value stored under `c`; a column the row does not mention reads as NULL. */
  function Lookup(row: Row, c: Column): Value {
    if c in row then row[c] else Null
  }

  /** The external code column, unique within its table. */
  function CodeColumn(e: Entity): Column {
    match e
    case Student => StudentId
    case Faculty => FacultyId
    case ITStaff => StaffId
    case Staff => StaffId
    case Patient => PatientId
  }

  /** The columns only this table has. */
  function OwnColumns(e: Entity): set<Column> {
    match e
    case Student => {Major, Year, Gpa}
    case Faculty => {Department, Position, OfficeLocation, Specialization}
    case ITStaff => {Department, Role, AccessLevel, OfficeLocation}
    case Staff => {Department, Role}
    case Patient => {Address, DateOfBirth}
  }

  /** Every column of the table except `id`, `created_at` and `updated_at`. */
  function Columns(e: Entity): set<Column> {
    {CodeColumn(e), FirstName, LastName, Email, Phone, IsActive} + OwnColumns(e)
  }

  /** Columns declared `nullable=False` (the patients model is inferred from its schema). */
  function NotNullColumns(e: Entity): set<Column> {
    {CodeColumn(e), FirstName, LastName, Email}
    + (match e
       case Faculty => {Department}
       case ITStaff => {Role}
       case _ => {})
  }

  /**
    The ORM column defaults that are not NULL, applied when an insert does not
    name the column; every other column defaults to NULL.
   */
  function ColumnDefaults(e: Entity): map<Column, Value> {
    map[IsActive := Bool(true)]
    + (if e == ITStaff
       then map[Department := Text("Information Technology"), AccessLevel := Text("standard")]
       else map[])
  }

  /** The declared type of a field; `year` is the only integer and `is_active` the only boolean. */
  function KindOf(c: Column): Kind {
    if c == Year then IntKind
    else if c == IsActive then BoolKind
    else TextKind
  }

  /**
    How a create schema declares a field: either it must be sent, or it has a
    default and may be omitted; `nullable` says whether its type is `Optional`.
   */
  datatype SchemaField = Required | Defaulted(default: Value, nullable: bool)

  /** The update schema's fields: all of them optional, and the external code absent. */
  function UpdateFields(e: Entity): set<Column> {
    {FirstName, LastName, Email, Phone, IsActive} + OwnColumns(e)
  }

  /**
    Everything the rest of the model needs to know about one table: which
    entity it holds, its external code column, its columns, the NOT NULL ones,
    the ORM's non-NULL column defaults and the update schema's fields.
   */
  datatype Spec = Spec(
    entity: Entity,
    code: Column,
    columns: set<Column>,
    notNull: set<Column>,
    defaults: map<Column, Value>,
    updateFields: set<Column>)
  {
    /** The ORM default of column `c`. */
    function Default(c: Column): Value {
      if c in defaults then defaults[c] else Null
    }

    /**
      The create schema's declaration of `c`: the NOT NULL columns must be sent;
      the others may be omitted, taking the ORM default, and are `Optional`
      exactly when that default is NULL.
     */
    function Field(c: Column): SchemaField {
      if c in notNull then Required
      else if c in defaults then Defaulted(defaults[c], false)
      else Defaulted(Null, true)
    }
  }

  /**
    How the model and the schemas of one table fit together: the email and
    the external code are NOT NULL text columns, `is_active` has a default,
    no NOT NULL column has one and no listed default is NULL, and the update
    schema has every column but the external code.
   */
  predicate Coherent(s: Spec) {
    && s.code in s.notNull && Email in s.notNull && s.notNull <= s.columns
    && IsActive in s.defaults && s.defaults.Keys <= s.columns - s.notNull
    && Null !in s.defaults.Values
    && KindOf(s.code) == TextKind
    && s.updateFields == s.columns - {s.code}
  }

  type TableSpec = s: Spec | Coherent(s)
    witness Spec(Student, StudentId, Columns(Student), NotNullColumns(Student),
                 ColumnDefaults(Student), UpdateFields(Student))

  /** The description of each of the five tables, read off its model and schemas. */
  function Describe(e: Entity): TableSpec {
    Spec(e, CodeColumn(e), Columns(e), NotNullColumns(e), ColumnDefaults(e), UpdateFields(e))
  }

  /** The students model: its code, columns, NOT NULL columns and non-NULL defaults. */
  lemma StudentTable()
    ensures var d := Describe(Student);
      && d.code == StudentId
      && d.columns == {StudentId, FirstName, LastName, Email, Phone, Major, Year, Gpa, IsActive}
      && d.notNull == {StudentId, FirstName, LastName, Email}
      && d.defaults == map[IsActive := Bool(true)]
  {
  }

  /** The faculty model: the department is NOT NULL as well. */
  lemma FacultyTable()
    ensures var d := Describe(Faculty);
      && d.code == FacultyId
      && d.columns == {FacultyId, FirstName, LastName, Email, Phone, Department, Position, OfficeLocation, Specialization, IsActive}
      && d.notNull == {FacultyId, FirstName, LastName, Email, Department}
      && d.defaults == map[IsActive := Bool(true)]
  {
  }

  /** The IT-staff model: the role is NOT NULL, and department and access level have defaults. */
  lemma ITStaffTable()
    ensures var d := Describe(ITStaff);
      && d.code == StaffId
      && d.columns == {StaffId, FirstName, LastName, Email, Phone, Department, Role, AccessLevel, OfficeLocation, IsActive}
      && d.notNull == {StaffId, FirstName, LastName, Email, Role}
      && d.defaults == map[IsActive := Bool(true), Department := Text("Information Technology"), AccessLevel := Text("standard")]
  {
  }

  /** The staff model. */
  lemma StaffTable()
    ensures var d := Describe(Staff);
      && d.code == StaffId
      && d.columns == {StaffId, FirstName, LastName, Email, Phone, Department, Role, IsActive}
      && d.notNull == {StaffId, FirstName, LastName, Email}
      && d.defaults == map[IsActive := Bool(true)]
  {
  }

  /** The patients table, as its schema declares it. */
  lemma PatientTable()
    ensures var d := Describe(Patient);
      && d.code == PatientId
      && d.columns == {PatientId, FirstName, LastName, Email, Phone, Address, DateOfBirth, IsActive}
      && d.notNull == {PatientId, FirstName, LastName, Email}
      && d.defaults == map[IsActive := Bool(true)]
  {
  }

  /**
    The create schemas as declared: the code, names and email must be sent,
    `is_active` defaults to true and is not `Optional`, `phone` is optional;
    faculty must send a department, IT staff a role, and IT staff get a
    non-optional department and access level by default.
   */
  lemma CreateSchemaFields(e: Entity)
    ensures var d := Describe(e);
      && d.Field(CodeColumn(e)) == Required
      && d.Field(FirstName) == Required && d.Field(LastName) == Required && d.Field(Email) == Required
      && d.Field(IsActive) == Defaulted(Bool(true), false)
      && d.Field(Phone) == Defaulted(Null, true)
      && (e == Faculty ==> d.Field(Department) == Required)
      && (e == ITStaff ==>
            && d.Field(Role) == Required
            && d.Field(Department) == Defaulted(Text("Information Technology"), false)
            && d.Field(AccessLevel) == Defaulted(Text("standard"), false))
  {
  }

  /** Update payloads can never name the external code, but can name every other column. */
  lemma UpdateFieldsOmitCode(e: Entity)
    ensures CodeColumn(e) !in UpdateFields(e)
    ensures UpdateFields(e) == Columns(e) - {CodeColumn(e)}
  {
  }
}
