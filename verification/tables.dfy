/**
  One entity's table as the storage keeps it: a sequence of records in scan
  order, the integrity constraints the schema declares, the single atomic
  constraint check a commit performs, row-id assignment, and offset/limit
  slicing.
 */
module Tables {
  import opened Values
  import opened Entities

  /** An abstract clock reading standing for `func.now()`. */
  type Time = nat

  /** A stored row: storage-assigned `id`, the columns, and the two timestamps. */
  datatype Record = Record(id: nat, row: Row, createdAt: Time, updatedAt: Option<Time>)

  type Table = seq<Record>

  function Col(r: Record, c: Column): Value {
    Lookup(r.row, c)
  }

  /** The constraint a failed commit names. */
  datatype Constraint = NotNull | EmailUnique | CodeUnique

  /** A row with exactly the table's columns and no NULL in a NOT NULL column. */
  ghost predicate Conforms(e: TableSpec, row: Row) {
    && row.Keys == e.columns
    && forall c :: c in e.notNull ==> Lookup(row, c) != Null
  }

  /** Scan order is ascending primary key, so no two records share an id. */
  ghost predicate IdsAscending(t: Table) {
    forall i, j :: 0 <= i < j < |t| ==> t[i].id < t[j].id
  }

  /** A UNIQUE column: no two records hold the same value in it. */
  ghost predicate Distinct(t: Table, c: Column) {
    forall i, j :: 0 <= i < j < |t| ==> Col(t[i], c) != Col(t[j], c)
  }

  /** The integrity the storage maintains for entity `e`'s table. */
  ghost predicate Valid(e: TableSpec, t: Table) {
    && (forall i :: 0 <= i < |t| ==> 0 < t[i].id && Conforms(e, t[i].row))
    && IdsAscending(t)
    && Distinct(t, Email)
    && Distinct(t, e.code)
  }

  /** Whether some record already holds `v` in column `c`. */
  predicate Taken(t: Table, c: Column, v: Value) {
    exists i :: 0 <= i < |t| && Col(t[i], c) == v
  }

  predicate HasNullViolation(e: TableSpec, row: Row) {
    exists c :: c in e.notNull && Lookup(row, c) == Null
  }

  /**
    The constraint a commit of `row` beside the records `others` violates, if
    any.  NOT NULL is checked before the unique indexes; when both unique
    columns collide the email index is the one reported.
   */
  function Violation(e: TableSpec, others: Table, row: Row): (r: Option<Constraint>)
    ensures r.None? <==>
      && (forall c :: c in e.notNull ==> Lookup(row, c) != Null)
      && (forall j :: 0 <= j < |others| ==> Col(others[j], Email) != Lookup(row, Email))
      && (forall j :: 0 <= j < |others| ==> Col(others[j], e.code) != Lookup(row, e.code))
    ensures r == Some(NotNull) <==> exists c :: c in e.notNull && Lookup(row, c) == Null
    ensures r == Some(EmailUnique) ==> exists j :: 0 <= j < |others| && Col(others[j], Email) == Lookup(row, Email)
    ensures r == Some(CodeUnique) ==> exists j :: 0 <= j < |others| && Col(others[j], e.code) == Lookup(row, e.code)
  {
    if HasNullViolation(e, row) then Some(NotNull)
    else if Taken(others, Email, Lookup(row, Email)) then Some(EmailUnique)
    else if Taken(others, e.code, Lookup(row, e.code)) then Some(CodeUnique)
    else None
  }

  /** The first position whose record satisfies `p` (`.filter(...).first()`). */
  function FindFirst(t: Table, p: Record -> bool): (r: Option<nat>)
    ensures r.Some? ==> r.value < |t| && p(t[r.value])
    ensures r.Some? ==> forall j :: 0 <= j < r.value ==> !p(t[j])
    ensures r.None? <==> forall j :: 0 <= j < |t| ==> !p(t[j])
  {
    if |t| == 0 then None
    else if p(t[0]) then Some(0)
    else match FindFirst(t[1..], p)
      case None => None
      case Some(k) => Some(k + 1)
  }

  function FindId(t: Table, id: int): Option<nat> {
    FindFirst(t, (r: Record) => r.id == id)
  }

  /** The largest id in the table, 0 when it is empty. */
  function MaxId(t: Table): (m: nat)
    ensures forall i :: 0 <= i < |t| ==> t[i].id <= m
    ensures |t| == 0 ==> m == 0
    ensures |t| > 0 ==> exists i :: 0 <= i < |t| && t[i].id == m
  {
    if |t| == 0 then 0
    else
      var m := MaxId(t[..|t| - 1]);
      if t[|t| - 1].id > m then t[|t| - 1].id else m
  }

  /** SQLite's row-id rule for an INTEGER PRIMARY KEY: one more than the largest id, or 1. */
  function NextId(t: Table): nat {
    MaxId(t) + 1
  }

  /** The table without the record at position `i`. */
  function Remove(t: Table, i: nat): (t': Table)
    requires i < |t|
    ensures |t'| == |t| - 1
    ensures forall k :: 0 <= k < i ==> t'[k] == t[k]
    ensures forall k :: i <= k < |t'| ==> t'[k] == t[k + 1]
  {
    t[..i] + t[i + 1..]
  }

  /** `OFFSET skip LIMIT limit` as SQLite reads them: a negative offset is 0, a negative limit is none. */
  function Page(t: Table, skip: int, limit: int): (p: Table)
    ensures |p| <= |t|
    ensures 0 <= limit ==> |p| <= limit
    ensures 0 <= skip <= |t| && 0 <= limit ==> |p| == if limit < |t| - skip then limit else |t| - skip
    ensures 0 <= skip ==> forall k :: 0 <= k < |p| ==> skip + k < |t| && p[k] == t[skip + k]
    ensures skip < 0 ==> forall k :: 0 <= k < |p| ==> p[k] == t[k]
    ensures skip < 0 && 0 <= limit ==> |p| == if limit < |t| then limit else |t|
    ensures skip < 0 && limit < 0 ==> p == t
    ensures limit < 0 && 0 <= skip <= |t| ==> |p| == |t| - skip
    ensures |t| <= skip ==> p == []
  {
    var start := if skip < 0 then 0 else if skip > |t| then |t| else skip;
    var end := if limit < 0 || limit > |t| - start then |t| else start + limit;
    t[start..end]
  }

  /** Appending a record with a fresh, larger id and unused unique values keeps the table valid. */
  lemma AppendKeepsValid(e: TableSpec, t: Table, r: Record)
    requires Valid(e, t)
    requires 0 < r.id && forall i :: 0 <= i < |t| ==> t[i].id < r.id
    requires Conforms(e, r.row)
    requires !Taken(t, Email, Col(r, Email)) && !Taken(t, e.code, Col(r, e.code))
    ensures Valid(e, t + [r])
  {
    var t' := t + [r];
    forall i, j | 0 <= i < j < |t'|
      ensures t'[i].id < t'[j].id
      ensures Col(t'[i], Email) != Col(t'[j], Email)
      ensures Col(t'[i], e.code) != Col(t'[j], e.code)
    {
      if j == |t| {
        assert t'[i] == t[i] && t'[j] == r;
      }
    }
  }

  /** Replacing the record at `i` by one with the same id and values unused elsewhere keeps the table valid. */
  lemma ReplaceKeepsValid(e: TableSpec, t: Table, i: nat, r: Record)
    requires Valid(e, t) && i < |t|
    requires r.id == t[i].id && Conforms(e, r.row)
    requires !Taken(Remove(t, i), Email, Col(r, Email))
    requires !Taken(Remove(t, i), e.code, Col(r, e.code))
    ensures Valid(e, t[i := r])
  {
    var t' := t[i := r];
    var others := Remove(t, i);
    forall j | 0 <= j < |t| && j != i
      ensures Col(t[j], Email) != Col(r, Email)
      ensures Col(t[j], e.code) != Col(r, e.code)
    {
      var k := if j < i then j else j - 1;
      assert others[k] == t[j];
    }
    forall a, b | 0 <= a < b < |t'|
      ensures t'[a].id < t'[b].id
      ensures Col(t'[a], Email) != Col(t'[b], Email)
      ensures Col(t'[a], e.code) != Col(t'[b], e.code)
    {
    }
  }

  /** Removing any record keeps the table valid. */
  lemma RemoveKeepsValid(e: TableSpec, t: Table, i: nat)
    requires Valid(e, t) && i < |t|
    ensures Valid(e, Remove(t, i))
  {
    var t' := Remove(t, i);
    forall a, b | 0 <= a < b < |t'|
      ensures t'[a].id < t'[b].id
      ensures Col(t'[a], Email) != Col(t'[b], Email)
      ensures Col(t'[a], e.code) != Col(t'[b], e.code)
    {
      var a' := if a < i then a else a + 1;
      var b' := if b < i then b else b + 1;
      assert t'[a] == t[a'] && t'[b] == t[b'];
    }
  }

  /**
    Consecutive pages neither overlap nor leave a gap: the page of `n` records
    at `skip` followed by the page of `m` records after it is the page of
    `n + m` records at `skip`.
   */
  lemma PagesTile(t: Table, skip: nat, n: nat, m: nat)
    ensures Page(t, skip, n) + Page(t, skip + n, m) == Page(t, skip, n + m)
  {
    var p, q, pq := Page(t, skip, n), Page(t, skip + n, m), Page(t, skip, n + m);
    assert |p + q| == |pq|;
    forall k | 0 <= k < |pq| ensures (p + q)[k] == pq[k] {
      if k < |p| {
      } else {
        assert q[k - |p|] == t[skip + n + (k - |p|)];
      }
    }
  }

  /** Scanning the whole table from the start returns the whole table, in ascending-id order. */
  lemma FullScan(t: Table, limit: int)
    requires limit < 0 || |t| <= limit
    ensures Page(t, 0, limit) == t
  {
  }

  /** In a table with ascending ids, looking up the id of position `i` finds `i`. */
  lemma FindIdAt(t: Table, i: nat)
    requires IdsAscending(t) && i < |t|
    ensures FindId(t, t[i].id) == Some(i)
  {
  }

  /** A value is taken among the records other than `i` exactly when some record `j != i` holds it. */
  lemma TakenInRemove(t: Table, i: nat, c: Column, v: Value)
    requires i < |t|
    ensures Taken(Remove(t, i), c, v) <==> exists j :: 0 <= j < |t| && j != i && Col(t[j], c) == v
  {
    if Taken(Remove(t, i), c, v) {
      TakenInRemoveHolder(t, i, c, v);
    }
    if exists j :: 0 <= j < |t| && j != i && Col(t[j], c) == v {
      var j :| 0 <= j < |t| && j != i && Col(t[j], c) == v;
      var k := if j < i then j else j - 1;
      assert Remove(t, i)[k] == t[j];
    }
  }

  lemma TakenInRemoveHolder(t: Table, i: nat, c: Column, v: Value)
    requires i < |t| && Taken(Remove(t, i), c, v)
    ensures exists j :: 0 <= j < |t| && j != i && Col(t[j], c) == v
  {
    var others := Remove(t, i);
    var k :| 0 <= k < |others| && Col(others[k], c) == v;
    var j := if k < i then k else k + 1;
    assert others[k] == t[j];
  }
}
