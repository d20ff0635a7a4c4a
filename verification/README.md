# access-api: tables, services and handlers in Dafny

A model of the CRUD core of access-api. The application keeps five tables:
students, faculty, IT staff, staff and patients. Each is a SQLAlchemy model
with a Pydantic create, update and response schema, a service class
(create, get by id, get by external code, list, update, delete) and a FastAPI
router that turns service outcomes into status codes.

The model writes the five tables once, over a description of the table
(`Entities.TableSpec`):

- which entity it holds;
- its external code column (`student_id`, `faculty_id`, `staff_id` or
  `patient_id`);
- its columns and which of them are NOT NULL;
- the ORM's non-NULL column defaults;
- the fields of its update schema.

`Entities.Describe` gives the description of each of the five tables. The
create schema of every table asks for exactly the NOT NULL columns. Every
other field may be omitted; it takes the ORM default and is `Optional` exactly
when that default is NULL. `Entities.Spec.Field` derives each field from this
rule.

Modules, one per layer:

- `Values`: column values, `Option`, `Result`.
- `Entities`: columns, the per-table description, the five descriptions.
- `Schemas`: create validation, which collects every bad field; update
  validation, which keeps only the fields sent (`exclude_unset=True`); the
  response schema.
- `Tables`: a table as a sequence of records in ascending-id order; the
  integrity rules (`Valid`); the atomic constraint check of a commit; SQLite's
  row-id rule; `OFFSET`/`LIMIT`.
- `Services`: the service operations, as pure functions from a table to the
  table afterwards plus the outcome (`Step`). A failed commit rolls back, and
  then the service either maps the violation to a `ValueError` message or lets
  the `IntegrityError` escape.
- `Endpoints`: the handlers and their status codes.
- `Findings`: the null-`is_active` defect described below, as written and
  corrected.
- `Scenario`: a sample walk-through on an empty students table, through the
  handlers as written. For the update body it sends, the corrected update
  handler from `Findings` gives the same answer (`Scenario.MajorChangeAsWritten`).

Two behaviours of the code are worth stating plainly:

- A body that fails schema validation is answered 422. FastAPI does this
  before any handler runs.
- The faculty and IT-staff create handlers pre-check only the external code,
  and their services catch nothing. A duplicate email there is answered 500.

## Model

| member | source | states |
|---|---|---|
| Entities.StudentTable | app/models/student.py:9-20 | The students table: code `student_id`, its nine columns, NOT NULL exactly on code, names and email, and `is_active` defaulting to true. |
| Entities.FacultyTable | app/models/faculty.py:9-21 | The faculty table: code `faculty_id`, its ten columns, NOT NULL also on `department`, and `is_active` defaulting to true. |
| Entities.ITStaffTable | app/models/it_staff.py:9-21 | The IT-staff table: code `staff_id`, its ten columns, NOT NULL also on `role`, and the defaults of `is_active`, `department` and `access_level`. |
| Entities.StaffTable | app/models/staff.py:9-19 | The staff table: code `staff_id`, its eight columns, NOT NULL on code, names and email, and `is_active` defaulting to true. |
| Entities.PatientTable | app/schemas/patient.py:6-14 | The patients table as its schema declares it: code `patient_id`, its eight columns, the required fields as NOT NULL, and `is_active` defaulting to true. |
| Entities.CreateSchemaFields | app/schemas/it_staff.py:6-16 | The code, names and email are required. `is_active` defaults to true and is non-optional. `phone` defaults to null. Faculty must send a department. IT staff must send a role, and their department and access level default to "Information Technology" and "standard". |
| Entities.UpdateFieldsOmitCode | app/schemas/student.py:22-30 | The update schema cannot name the external code. It can name every other column. |
| Schemas.ValidateCreate | app/schemas/student.py:6-19 | Accepted exactly when every field is well-formed. Otherwise the error set is exactly the bad fields and is never empty. An accepted payload names every column, keeps what was sent, puts the default in omitted fields, and fills every NOT NULL column. Its email satisfies the email predicate and its code is text. |
| Schemas.ValidateUpdate | app/schemas/faculty.py:23-32 | Accepted exactly when every sent field is null or well-typed. The result holds exactly the sent fields the schema declares, with the values sent, and never the external code. |
| Schemas.CreatePayloadConforms | app/schemas/student.py:33-39 | A validated create payload always passes the response schema. |
| Tables.Violation | app/services/student_service.py:15-20 | What a commit of a row against the other records reports: nothing exactly when every NOT NULL column is filled and no other record holds its email or its code. NOT NULL is reported exactly when a NOT NULL column is NULL, and a reported unique index is held by another record. |
| Tables.FindFirst | app/services/student_service.py:29 | `.filter(...).first()`: the first position that satisfies the filter, or none exactly when no position does. |
| Tables.MaxId | app/models/student.py:9 | The largest id in the table, or 0 for an empty table. |
| Tables.Page | app/services/student_service.py:34-35 | `OFFSET skip LIMIT limit`: at most `limit` records, forming the contiguous run that starts at `skip`. A negative offset counts as 0, a negative limit as none, and an offset past the end gives nothing. |
| Tables.PagesTile | app/services/faculty_service.py:24-25 | Consecutive pages neither overlap nor leave a gap. |
| Tables.FullScan | app/services/staff_service.py:34-35 | A page from offset 0 whose limit covers the table is the whole table. |
| Tables.FindIdAt | app/models/it_staff.py:9 | With ascending ids, looking up a record's id finds that record. |
| Tables.AppendKeepsValid | app/models/student.py:9-13 | Appending a record whose id is larger than every existing id, whose row conforms, and whose email and code are unused keeps every integrity rule. |
| Tables.ReplaceKeepsValid | app/models/staff.py:9-13 | Replacing a record, keeping its id, by a conforming row whose unique values no other record holds keeps every integrity rule. |
| Tables.RemoveKeepsValid | app/models/faculty.py:9-13 | Removing any record keeps every integrity rule. |
| Tables.TakenInRemove | app/models/student.py:10-13 | A value is held among the other records exactly when some record other than this one holds it. |
| Services.ViolationMessage | app/services/student_service.py:19-26 | Faculty and IT staff map no violation to a message. The other three tables map each violation to its own message: "Email already exists" exactly for the email index, "Database constraint violation" exactly for anything other than the two unique indexes. |
| Services.Create | app/services/student_service.py:12-20 | Succeeds exactly when no NOT NULL column is NULL and neither the email nor the code is in use. On success it appends one record holding the constructed row, with an id larger than all others, `created_at` set to now and no `updated_at`. On failure the table is unchanged. The failure is a `ValueError` exactly for students, staff and patients. |
| Services.CreateRaises | app/services/student_service.py:15-20 | Which constraint a failed create reports, in order: a NULL in a NOT NULL column, then a used email, then a used code. |
| Services.StudentCreateErrors | app/services/student_service.py:19-26 | The messages "Database constraint violation", "Email already exists" and "Student ID already exists", the email checked first. The table is unchanged in each case. |
| Services.StaffCreateErrors | app/services/staff_service.py:19-26 | The same three cases with "Staff ID already exists". |
| Services.PatientCreateErrors | app/services/patient_service.py:19-26 | The same three cases with "Patient ID already exists". |
| Services.FacultyCreateUnmapped | app/services/faculty_service.py:11-16 | Nothing is caught: every failure is the escaping `IntegrityError` naming the constraint, and the table is unchanged. |
| Services.ITStaffCreateUnmapped | app/services/it_staff_service.py:11-16 | Nothing is caught: every failure is the escaping `IntegrityError` naming the constraint, and the table is unchanged. |
| Services.GetById | app/services/student_service.py:28-29 | Some record exactly when one has that id. The result is a record of the table with that id, and with ascending ids it is that record. |
| Services.GetByCode | app/services/patient_service.py:31-32 | Some record exactly when one holds that code. With distinct codes it is that record. |
| Services.Update | app/services/student_service.py:37-45 | A missing id gives `None` and leaves the table unchanged; an existing id never gives `None`. A failure is an unmapped `IntegrityError` that leaves the table unchanged. On success the sent fields are overwritten and every other field keeps its value. The id, `created_at`, the code and every other record are unchanged. `updated_at` becomes now exactly when some value changed. |
| Services.UpdateFailsIff | app/services/staff_service.py:37-45 | An update of an existing record fails exactly when it changes some value and the new row breaks NOT NULL or uniqueness against the other records. |
| Services.UpdateCommits | app/services/it_staff_service.py:27-35 | An update that changes something, nulls no NOT NULL column and leaves the email alone always commits. |
| Services.Delete | app/services/student_service.py:47-53 | True exactly when the id is present. On true one record is gone, and with ascending ids exactly the records with that id. On false the table is unchanged. |
| Services.CreateKeepsValid | app/models/it_staff.py:9-13 | Uniqueness of id, email and code, and NOT NULL, survive every create. |
| Services.UpdateKeepsValid | app/services/patient_service.py:37-45 | The same integrity rules survive every update. |
| Services.DeleteKeepsValid | app/services/faculty_service.py:37-43 | The same integrity rules survive every delete. |
| Endpoints.CodeInUse | app/api/v1/endpoints/faculty.py:19-20 | The pre-check fires exactly when the payload's code is text and some record already holds it. |
| Endpoints.HandleCreate | app/api/v1/endpoints/students.py:11-24 | 422 exactly when validation fails. Anything but 201 leaves the table unchanged. 201 appends exactly one record, which holds the validated payload. |
| Endpoints.HandleList | app/api/v1/endpoints/students.py:27-34 | 200 with the page for the given or default `skip` and `limit`, exactly when every record of that page passes the response schema. With no query that is at most 100 records from the start. Otherwise 500. |
| Endpoints.HandleGet | app/api/v1/endpoints/students.py:37-49 | 404 with the entity's "not found" detail exactly when no record has the id. A found record that passes the response schema is answered 200 with that record. 500 exactly when the found record fails the response schema. |
| Endpoints.HandleUpdate | app/api/v1/endpoints/students.py:52-65 | 422 exactly when the body fails validation. Once it passes, the table afterwards is the service's, and 404 exactly when the id is missing, with the table unchanged. 500 exactly when the service's commit fails (table unchanged) or the updated record fails the response schema (the change stays committed). 200 carries the updated record, with only the sent fields changed. |
| Endpoints.AnswerUpdate | app/api/v1/endpoints/faculty.py:54-67 | The update answer for any validation outcome: 422 exactly when the body was refused, leaving the table unchanged. Otherwise 404 exactly when the id is missing, with the entity's "not found" detail and the table unchanged. A 200 carries the updated record. 500 exactly when the commit fails or the updated record fails the response schema, and the table is always the one the service leaves. |
| Endpoints.HandleDelete | app/api/v1/endpoints/students.py:68-79 | 204 exactly when the id was present, with one record fewer. Otherwise 404 with the detail and the table unchanged. |
| Endpoints.ValidatedPayloadFacts | app/services/student_service.py:13 | The row the ORM builds from a validated payload is the payload itself. It has no NULL in a NOT NULL column, and its code is text. |
| Endpoints.CreateAnswers | app/api/v1/endpoints/patients.py:11-23 | Students, staff, patients: 201 with the payload as a fresh record when both unique values are free. Otherwise 400 with "Email already exists" when the email is used, or with the code message. "Database constraint violation" is never answered. |
| Endpoints.PrecheckAnswers | app/api/v1/endpoints/faculty.py:11-26 | Faculty, IT staff: a used code is answered 400 with "Faculty ID already exists" or "IT Staff ID already exists" and the table unchanged. With both values free, 201 with the payload appended. |
| Endpoints.PrecheckIgnoresEmail | app/api/v1/endpoints/it_staff.py:18-26 | A fresh code with a used email passes the pre-check. The commit then fails, nothing catches it, and the handler answers 500 with the table unchanged. |
| Endpoints.CreateOnEmpty | app/api/v1/endpoints/staff.py:11-23 | On an empty table every valid payload is created as the record with id 1. |
| Endpoints.HandlersKeepValid | app/models/student.py:9-13 | No create, update or delete handler breaks an integrity rule. |
| Endpoints.HandleCreateKeepsValid | app/api/v1/endpoints/faculty.py:11-26 | The create handler keeps every integrity rule. |
| Endpoints.HandleUpdateKeepsValid | app/api/v1/endpoints/faculty.py:54-67 | The update handler keeps every integrity rule. |
| Endpoints.CreateThenGet | app/api/v1/endpoints/students.py:11-49 | A record answered 201 is what a later get of its id answers, with 200. |
| Endpoints.DeleteThenGet | app/api/v1/endpoints/students.py:37-79 | After a delete, a get of the id and a second delete both answer 404. |
| Findings.NullActiveIsSent | app/schemas/student.py:30 | An update body `{"is_active": null}` validates into a sent NULL. |
| Findings.NullActiveUpdateCommitsThen500 | app/schemas/student.py:15-36 | As written: nulling `is_active` on any record is committed, yet the answer is 500. Every later get of the record answers 500. |
| Findings.ValidateUpdateStrict | app/schemas/it_staff.py:23-32 | Corrected update schema: like the as-written one, except that a field the response requires rejects null. Every accepted value of such a field is non-null. |
| Findings.HandleUpdateStrict | app/api/v1/endpoints/it_staff.py:54-67 | Corrected update handler: 422 exactly when the corrected validation fails. |
| Findings.StrictUpdateKeepsReadable | app/schemas/it_staff.py:6-38 | Corrected: every record stays serialisable under every update, and a 500 answer never leaves a change behind. |
| Findings.CreateKeepsReadable | app/api/v1/endpoints/faculty.py:11-26 | Create only ever adds records that pass the response schema. |
| Findings.ReadableAnswersNever500 | app/api/v1/endpoints/faculty.py:29-51 | When every record is serialisable, get answers only 200 or 404 and list answers 200. |
| Scenario.StudentsTableShaped | app/models/student.py:9-18 | The students table has the code `student_id`. The sample payload names every NOT NULL column and only columns. |
| Scenario.AnnValidates | app/schemas/student.py:6-15 | The sample student payload validates, keeping the values sent. |
| Scenario.FirstCreate | app/api/v1/endpoints/students.py:11-19 | The first create answers 201, with id 1 and the payload's values. |
| Scenario.FirstCreateValid | app/models/student.py:10-13 | The table after the first create, on an empty students table, keeps every integrity rule. |
| Scenario.DuplicateCode | app/services/student_service.py:23-24 | A second "S1" with a new email is answered 400 "Student ID already exists" and the table is unchanged. |
| Scenario.DuplicateEmail | app/services/student_service.py:21-22 | A new code with the used email is answered 400 "Email already exists" and the table is unchanged. |
| Scenario.MajorChangeValidates | app/schemas/student.py:22-30 | The corrected update schema accepts `{"major": "Math"}` unchanged. |
| Scenario.MajorChangeAsWritten | app/api/v1/endpoints/students.py:52-65 | For the walk-through's change of major, the update handler as written and the corrected one give the same answer and table, on any table and id. |
| Scenario.MajorUpdate | app/services/student_service.py:37-45 | Changing the major answers 200 from the update handler as written. The first name is kept, `updated_at` is set, and the table stays valid. |
| Scenario.StudentWalkthrough | app/api/v1/endpoints/students.py:11-79 | The whole walk-through: 201 with id 1, the two 400s with their messages, 200 on the update, 204 on the delete, then 404 "Student not found". |

## Left out

- HTTP, JSON parsing and Pydantic type coercion. A request body is a map from
  column to an already typed value. Type coercion such as `"1"` to `1` is not
  modelled.
- Email syntax: `EmailStr` is a foreign library's check. It is the parameter
  `isEmail`.
- Schemas.ValidateCreate: keeps the email exactly as sent. Pydantic's
  `EmailStr` returns a normalised address instead. It strips whitespace,
  lower-cases the domain and drops a display name (`Name <addr>`). So in the
  code `a@X.com` and then `a@x.com` give "Email already exists"; in the model
  both are created. Normalisation is part of the foreign email library and is
  not modelled.
- Schemas.ValidateUpdate: keeps a sent email exactly as sent, for the same
  reason. An update to a differently spelled copy of another record's email
  is therefore not refused as the code would refuse it.
- Timestamps: `func.now()` is the parameter `now`, a natural number.
- The SQLAlchemy session (`add`, `commit`, `refresh`, `rollback`). A commit is
  one atomic step that either applies the change or names the violated
  constraint. The SQLite message strings the services match on are replaced
  by that name.
- When a row breaks both unique indexes at once, which one SQLite reports is
  not fixed by the source. The model reports the email index.
- Concurrency, including the race between the faculty and IT-staff code
  pre-check and the insert. The model is sequential.
- Endpoints.HandleGet: ids, `year`, `skip` and `limit` are unbounded
  integers. SQLite INTEGER is signed 64-bit. Python's sqlite3 driver raises
  `OverflowError` when binding a larger value, and no service catches it, so
  the code answers 500 where the model answers 404 or 200. Pydantic may refuse
  such a body first with 422.
- Endpoints.HandleCreate: the same 64-bit limit on `year` is not modelled; an
  out-of-range year is created (201) in the model and answered 500 in the
  code.
- Endpoints.HandleUpdate, Endpoints.HandleDelete and Endpoints.HandleList: the
  same 64-bit limit on the path id, `year`, `skip` and `limit` is not
  modelled.
- Tables.NextId: row ids are unbounded. SQLite's fallback for a table whose
  largest id is 2^63 - 1 (picking an unused id at random) is not modelled.
- Storage failures other than NOT NULL and UNIQUE, such as a locked or
  unavailable database.
- The patients ORM model (`app/models/patient.py`) is not part of this model.
  Its columns and NOT NULL set are inferred from the patient schema. Its
  unique email and code are inferred from the messages its service matches.
- Application setup (`app/main.py`, `app/core/config.py`), the router and
  re-export modules, and `view_db.py`. Only the students, faculty and IT-staff
  routers are mounted, so the staff and patient handlers cannot be reached
  over HTTP. They are modelled anyway.
- Endpoints.HandleList: a list answer that fails the response schema is
  modelled as a 500 for the whole list. The record that failed is not named.

## Findings

| source | as written | input that shows it | evidently intended | confidence | as-written member | corrected member |
|---|---|---|---|---|---|---|
| app/schemas/student.py:30 | The update schema types `is_active` as `Optional[bool]`, and the column is nullable (app/models/student.py:18). The response schema inherits `is_active: bool` (line 15). IT staff `department` and `access_level` behave the same (app/schemas/it_staff.py:12,14,28,30). | `PUT /students/1` with body `{"is_active": null}` on an existing student. The NULL is committed, the response fails validation and is answered 500, and every later `GET /students/1` also answers 500. | The update schema rejects null for a field the response requires (or the response makes it `Optional`), so a 500 never follows a committed change. | medium; not executed | Findings.NullActiveUpdateCommitsThen500 | Findings.StrictUpdateKeepsReadable |
