/**
 * `StudentRepository`: the `students` table held in place, as a map from id
 * to row, together with the `students_seq` counter. Each operation is proved
 * against its specification in `Tables`.
 */
module Repository {
  import opened Wrappers
  import opened Entity
  import opened Exceptions
  import Tables

  class StudentRepository {
    /** The rows of `students`, keyed by `id`. */
    var rows: map<int, Student>
    /** The value the `students_seq` sequence hands out next. */
    var next: int

    /** The abstract table this object holds. */
    function State(): Tables.Table
      reads this
    {
      Tables.Table(rows, next)
    }

    ghost predicate Valid()
      reads this
    {
      Tables.Valid(State())
    }

    /** An empty table whose sequence has not handed out any value. */
    constructor ()
      ensures Valid() && State() == Tables.Empty()
    {
      rows := map[];
      next := InitialValue;
    }

    /** `save(student)`: insert (drawing an id) or overwrite, see `Tables.Save`. */
    method Save(student: Student) returns (r: Result<Student, Failure>)
      requires Valid()
      modifies this
      ensures Valid()
      ensures State() == Tables.Save(old(State()), student).table
      ensures r == Tables.Save(old(State()), student).result
    {
      Tables.SavePreservesValid(State(), student);
      var row := student;
      if student.id.None? || student.id.value !in rows {
        row := SetId(student, Some(next));
        next := next + AllocationSize;
      }
      if !NonNull(row) {
        r := Err(Tables.NullColumn);
        return;
      }
      rows := rows[row.id.value := row];
      r := Ok(row);
    }

    /** `findById(id)`. */
    method FindById(id: int) returns (r: Option<Student>)
      ensures r == Tables.FindById(State(), id)
      ensures r.Some? <==> id in rows
    {
      if id in rows {
        r := Some(rows[id]);
      } else {
        r := None;
      }
    }

    /** `findByEmail(email)`: some row with exactly that email, or none when no row has it. */
    method FindByEmail(email: Text) returns (r: Option<Student>)
      ensures r.Some? <==> Tables.EmailTaken(State(), email)
      ensures r.Some? ==> r.value in Tables.FindAll(State()) && r.value.email == email
    {
      if k :| k in rows && rows[k].email == email {
        r := Some(rows[k]);
      } else {
        r := None;
      }
    }

    /** `findAll()`. */
    method FindAll() returns (r: set<Student>)
      ensures r == Tables.FindAll(State())
      ensures Valid() ==> |r| == |rows|
    {
      r := set k | k in rows :: rows[k];
      if Valid() {
        Tables.FindAllCount(State());
      }
    }

    /** `deleteById(id)`: removes the row if there is one; no error otherwise. */
    method DeleteById(id: int)
      requires Valid()
      modifies this
      ensures Valid()
      ensures State() == Tables.DeleteById(old(State()), id)
    {
      Tables.DeletePreservesValid(State(), id);
      rows := rows - {id};
    }
  }
}
