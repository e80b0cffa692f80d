/**
 * The `students` table as the JPA repository sees it, specified abstractly:
 * the rows keyed by id and the next value of the `students_seq` sequence.
 * `StudentRepository` declares no query of its own; the behaviour below is the
 * framework's `save`, `findById`, `findAll`, `deleteById` and a derived
 * exact-match `findByEmail`.
 */
module Tables {
  import opened Wrappers
  import opened Entity
  import opened Exceptions

  datatype Table = Table(rows: map<int, Student>, next: int)

  /** The state of an operation after it ran: the table and what it returned or threw. */
  datatype Outcome<+R> = Outcome(table: Table, result: Result<R, Failure>)

  /** The failure raised when a `nullable = false` column is null at the insert or update. */
  const NullColumn: Failure := Failure(DataIntegrityViolation, None)

  /** Every stored row carries its own key as its id. */
  ghost predicate Keyed(rows: map<int, Student>)
  {
    forall k | k in rows :: rows[k].id == Some(k)
  }

  /**
   * What holds of every table the repository produces: ids are keys, were
   * drawn from the sequence (at least its initial value and below its next
   * value), and no row has a null in a non-null column.
   */
  ghost predicate Valid(t: Table)
  {
    && InitialValue <= t.next
    && Keyed(t.rows)
    && forall k | k in t.rows :: InitialValue <= k < t.next && NonNull(t.rows[k])
  }

  /** No two stored rows share an email. */
  ghost predicate UniqueEmails(rows: map<int, Student>)
  {
    forall j, k | j in rows && k in rows && j != k :: rows[j].email != rows[k].email
  }

  /** The empty table with a fresh sequence. */
  function Empty(): (t: Table)
    ensures Valid(t) && t.rows == map[] && UniqueEmails(t.rows)
    ensures t.next == InitialValue
  {
    Table(map[], InitialValue)
  }

  /**
   * `save` inserts when the record is new to the table: its id is null, or no
   * row has that id (a detached record whose row is gone is merged as a new
   * one). Otherwise it overwrites the row with that id.
   */
  predicate IsInsert(t: Table, s: Student)
  {
    s.id.None? || s.id.value !in t.rows
  }

  /**
   * `save(s)`. An insert draws the next sequence value as the id before the
   * row is written, so the sequence advances even when the row is then
   * rejected for a null column. A successful save stores the returned record
   * under its id and changes no other row.
   */
  function Save(t: Table, s: Student): (o: Outcome<Student>)
    ensures o.result.Ok? <==> NonNull(s)
    ensures o.table.next == if IsInsert(t, s) then t.next + AllocationSize else t.next
    ensures o.result.Ok? ==>
      var r := o.result.value;
      && SameText(r, s)
      && r.id == (if IsInsert(t, s) then Some(t.next) else s.id)
      && o.table.rows == t.rows[r.id.value := r]
    ensures o.result.Err? ==> o.result.error == NullColumn && o.table.rows == t.rows
  {
    var insert := IsInsert(t, s);
    var row := if insert then SetId(s, Some(t.next)) else s;
    var next := if insert then t.next + AllocationSize else t.next;
    if NonNull(row) then Outcome(Table(t.rows[row.id.value := row], next), Ok(row))
    else Outcome(Table(t.rows, next), Err(NullColumn))
  }

  /** `findById(id)`: the row with that id, or an empty `Optional`. */
  function FindById(t: Table, id: int): (r: Option<Student>)
    ensures r.Some? <==> id in t.rows
    ensures r.Some? ==> r.value == t.rows[id] && r.value in t.rows.Values
  {
    if id in t.rows then Some(t.rows[id]) else None
  }

  /** Whether the exact-match query `findByEmail(email)` finds a row. */
  predicate EmailTaken(t: Table, email: Text)
  {
    exists k | k in t.rows :: t.rows[k].email == email
  }

  /** `findAll()`: every stored row, in no particular order. */
  function FindAll(t: Table): (r: set<Student>)
    ensures forall s :: s in r <==> exists k | k in t.rows :: t.rows[k] == s
  {
    set k | k in t.rows :: t.rows[k]
  }

  /** `deleteById(id)`: the row with that id is gone; nothing else changes; no error when absent. */
  function DeleteById(t: Table, id: int): (r: Table)
    ensures id !in r.rows && r.next == t.next
    ensures forall k | k in t.rows && k != id :: k in r.rows && r.rows[k] == t.rows[k]
    ensures forall k | k in r.rows :: k in t.rows
  {
    t.(rows := t.rows - {id})
  }

  /** `save` keeps the table valid: the id it assigns is fresh and the row it stores is complete. */
  lemma SavePreservesValid(t: Table, s: Student)
    requires Valid(t)
    ensures Valid(Save(t, s).table)
  {
  }

  /** `deleteById` keeps the table valid, and keeps emails unique. */
  lemma DeletePreservesValid(t: Table, id: int)
    requires Valid(t)
    ensures Valid(DeleteById(t, id))
    ensures UniqueEmails(t.rows) ==> UniqueEmails(DeleteById(t, id).rows)
  {
  }

  /** Deleting twice has the same effect as deleting once. */
  lemma DeleteIdempotent(t: Table, id: int)
    ensures DeleteById(DeleteById(t, id), id) == DeleteById(t, id)
  {
  }

  /** Distinct keys hold distinct rows, so there are as many rows as keys. */
  lemma {:induction false} KeyedRowsCount(rows: map<int, Student>)
    requires Keyed(rows)
    ensures |set k | k in rows :: rows[k]| == |rows|
    decreases |rows|
  {
    if exists k :: k in rows {
      var k :| k in rows;
      var rest := rows - {k};
      assert rows.Keys == rest.Keys + {k};
      KeyedRowsCount(rest);
      assert rows[k] !in set j | j in rest :: rest[j];
      assert (set j | j in rows :: rows[j]) == (set j | j in rest :: rest[j]) + {rows[k]};
    } else {
      assert rows == map[];
    }
  }

  /** `findAll()` returns exactly as many records as the table has rows. */
  lemma FindAllCount(t: Table)
    requires Valid(t)
    ensures |FindAll(t)| == |t.rows|
    ensures FindAll(t) == {} <==> t.rows == map[]
  {
    KeyedRowsCount(t.rows);
  }
}
