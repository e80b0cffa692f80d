/**
 * The contract of the student service (the `StudentService` interface as
 * `StudentServiceImpl` implements it), as functions from the table before an
 * operation to the table after it and what the operation returned or threw.
 */
module StudentService {
  import opened Wrappers
  import opened Entity
  import opened Exceptions
  import opened Tables
  import opened Dto

  /** Java's string concatenation of a nullable `String`. */
  function EmailText(email: Text): (r: string)
    ensures email.Some? ==> r == email.value
    ensures email.None? ==> r == "null"
  {
    match email
    case Some(e) => e
    case None => "null"
  }

  /** The exception `saveStudentEntity` throws for a taken email. */
  function EntityDuplicate(email: Text): Failure
  {
    Failure(UserAlreadyExists, Some("Student already exist with email: " + EmailText(email)))
  }

  /** The exception `saveStudent` throws for a taken email. */
  function DtoDuplicate(email: Text): Failure
  {
    Failure(UserAlreadyExists, Some("Student already exists with email : " + EmailText(email)))
  }

  /** The exception `getStudentById` throws for a missing id (no-argument constructor). */
  const NotFound: Failure := Failure(ResourceNotFound, None)

  /**
   * `saveStudentEntity(student)`: when a stored row has the record's email it
   * throws UserAlreadyExists and nothing is saved; otherwise the record is
   * saved.
   */
  function SaveStudentEntity(t: Table, student: Student): (o: Outcome<Student>)
    ensures EmailTaken(t, student.email) ==> o == Outcome(t, Err(EntityDuplicate(student.email)))
    ensures !EmailTaken(t, student.email) ==> o.result.Ok? == NonNull(student)
    ensures !EmailTaken(t, student.email) ==>
      o.table.next == if IsInsert(t, student) then t.next + AllocationSize else t.next
    ensures !EmailTaken(t, student.email) && o.result.Err? ==>
      o.result.error.kind == DataIntegrityViolation && o.table.rows == t.rows
    ensures o.result.Ok? ==>
      var saved := o.result.value;
      && saved.id.Some? && SameText(saved, student)
      && o.table.rows == t.rows[saved.id.value := saved]
      && (IsInsert(t, student) ==> saved.id == Some(t.next) && o.table.next == t.next + AllocationSize)
      && (!IsInsert(t, student) ==> saved == student && o.table.next == t.next)
  {
    if EmailTaken(t, student.email) then Outcome(t, Err(EntityDuplicate(student.email)))
    else Save(t, student)
  }

  /**
   * `saveStudent(studentDto)`: the DTO is mapped to an entity, the same
   * duplicate-email check is made, and the saved entity is mapped back.
   */
  function SaveStudent(t: Table, studentDto: StudentDto): (o: Outcome<StudentDto>)
    ensures var student := MapToEntity(studentDto);
      && (EmailTaken(t, student.email) ==> o == Outcome(t, Err(DtoDuplicate(student.email))))
      && (!EmailTaken(t, student.email) ==> o.result.Ok? == NonNull(student))
    ensures o.result.Ok? ==>
      var d := o.result.value;
      && d.id.Some? && d.firstName == studentDto.firstName
      && d.lastName == studentDto.lastName && d.email == studentDto.email
      && o.table.rows == t.rows[d.id.value := MapToEntity(d)]
  {
    var student := MapToEntity(studentDto);
    if EmailTaken(t, student.email) then Outcome(t, Err(DtoDuplicate(student.email)))
    else
      var saved := Save(t, student);
      match saved.result
      case Ok(s) => Outcome(saved.table, Ok(MapToDto(s)))
      case Err(e) => Outcome(saved.table, Err(e))
  }

  /** `getAllStudents()`: exactly the stored rows. */
  function GetAllStudents(t: Table): (r: set<Student>)
    ensures forall s :: s in r <==> exists k | k in t.rows :: t.rows[k] == s
  {
    FindAll(t)
  }

  /**
   * `getStudentById(id)`: the stored row, always wrapped in a present
   * `Optional`; ResourceNotFound when the id has no row.
   */
  function GetStudentById(t: Table, id: int): (r: Result<Option<Student>, Failure>)
    ensures r.Ok? <==> id in t.rows
    ensures r.Ok? ==> r.value == Some(t.rows[id])
    ensures r.Err? ==> r.error == NotFound
  {
    match FindById(t, id)
    case Some(s) => Ok(Some(s))
    case None => Err(NotFound)
  }

  /**
   * `updateStudent(student)`: saved with no email check. A record whose id
   * names a stored row overwrites it; one with a null or unknown id is
   * inserted under the next sequence value.
   */
  function UpdateStudent(t: Table, student: Student): (o: Outcome<Student>)
    ensures o.result.Ok? <==> NonNull(student)
    ensures o.table.next == if IsInsert(t, student) then t.next + AllocationSize else t.next
    ensures o.result.Ok? ==>
      var saved := o.result.value;
      && saved.id.Some? && SameText(saved, student)
      && o.table.rows == t.rows[saved.id.value := saved]
      && (IsInsert(t, student) ==> saved.id == Some(t.next))
      && (!IsInsert(t, student) ==> saved == student)
    ensures o.result.Err? ==> o.result.error.kind == DataIntegrityViolation && o.table.rows == t.rows
  {
    Save(t, student)
  }

  /** `deleteStudentById(id)`. */
  function DeleteStudentById(t: Table, id: int): (r: Table)
    ensures GetStudentById(r, id) == Err(NotFound)
    ensures forall k | k != id :: GetStudentById(r, k) == GetStudentById(t, k)
    ensures r.next == t.next
  {
    DeleteById(t, id)
  }

  // ---------------------------------------------------------------------------
  // Properties of the contract
  // ---------------------------------------------------------------------------

  /**
   * `saveStudentEntity` keeps the table valid and keeps emails unique: on a
   * successful save no other row had the email, and the row it may overwrite
   * is replaced.
   */
  lemma SaveStudentEntityPreservesInvariants(t: Table, student: Student)
    requires Valid(t) && UniqueEmails(t.rows)
    ensures Valid(SaveStudentEntity(t, student).table)
    ensures UniqueEmails(SaveStudentEntity(t, student).table.rows)
  {
    var o := SaveStudentEntity(t, student);
    SavePreservesValid(t, student);
    if o.result.Ok? {
      var saved := o.result.value;
      var id := saved.id.value;
      forall j, k | j in o.table.rows && k in o.table.rows && j != k
        ensures o.table.rows[j].email != o.table.rows[k].email
      {
        if j == id {
          assert o.table.rows[k] == t.rows[k];
        } else if k == id {
          assert o.table.rows[j] == t.rows[j];
        }
      }
    }
  }

  /** `saveStudent` changes the table exactly as `saveStudentEntity` would, and returns its record as a DTO. */
  lemma SaveStudentAgreesWithEntity(t: Table, studentDto: StudentDto)
    ensures var o := SaveStudent(t, studentDto);
      var e := SaveStudentEntity(t, MapToEntity(studentDto));
      && o.table == e.table
      && o.result.Ok? == e.result.Ok?
      && (o.result.Ok? ==> o.result.value == MapToDto(e.result.value))
      && (o.result.Err? ==> o.result.error.kind == e.result.error.kind)
  {
  }

  /** `saveStudent` keeps the table valid and keeps emails unique. */
  lemma SaveStudentPreservesInvariants(t: Table, studentDto: StudentDto)
    requires Valid(t) && UniqueEmails(t.rows)
    ensures Valid(SaveStudent(t, studentDto).table)
    ensures UniqueEmails(SaveStudent(t, studentDto).table.rows)
  {
    SaveStudentAgreesWithEntity(t, studentDto);
    SaveStudentEntityPreservesInvariants(t, MapToEntity(studentDto));
  }

  /** A second create with an email already stored fails and adds no row. */
  lemma DuplicateCreateRejected(t: Table, first: Student, second: Student)
    requires first.email == second.email
    requires SaveStudentEntity(t, first).result.Ok?
    ensures var t1 := SaveStudentEntity(t, first).table;
      SaveStudentEntity(t1, second) == Outcome(t1, Err(EntityDuplicate(second.email)))
  {
    var saved := SaveStudentEntity(t, first).result.value;
    var t1 := SaveStudentEntity(t, first).table;
    var id := saved.id.value;
    assert t1.rows == t.rows[id := saved];
    assert id in t1.rows && t1.rows[id] == saved;
    assert t1.rows[id].email == second.email;
  }

  /** `updateStudent` keeps the table valid. */
  lemma UpdateStudentPreservesValid(t: Table, student: Student)
    requires Valid(t)
    ensures Valid(UpdateStudent(t, student).table)
  {
    SavePreservesValid(t, student);
  }

  /** `updateStudent` makes no email check: it can leave two rows with one email. */
  lemma UpdateStudentMayBreakUniqueEmails()
    ensures exists t: Table, student: Student ::
      && Valid(t) && UniqueEmails(t.rows)
      && UpdateStudent(t, student).result.Ok?
      && !UniqueEmails(UpdateStudent(t, student).table.rows)
  {
    var a := Student(Some(100), Some("a"), Some("a"), Some("a@x"));
    var b := Student(Some(101), Some("b"), Some("b"), Some("b@x"));
    var t := Table(map[100 := a, 101 := b], 102);
    var student := SetEmail(b, Some("a@x"));
    var o := UpdateStudent(t, student);
    assert o.table.rows[100].email == o.table.rows[101].email;
    assert Valid(t) && UniqueEmails(t.rows);
  }

  /** Deleting twice has the same effect as deleting once. */
  lemma DeleteStudentByIdIdempotent(t: Table, id: int)
    ensures DeleteStudentById(DeleteStudentById(t, id), id) == DeleteStudentById(t, id)
  {
    DeleteIdempotent(t, id);
  }

  /** The first record created in a fresh table gets the sequence's initial value as its id. */
  lemma FirstCreateGetsInitialValue(student: Student)
    requires student.id.None? && NonNull(student)
    ensures var o := SaveStudentEntity(Empty(), student);
      && o.result == Ok(SetId(student, Some(InitialValue)))
      && o.table == Table(map[InitialValue := o.result.value], InitialValue + AllocationSize)
  {
  }

  /** A stored record can be fetched by the id it was given. */
  lemma SavedRecordIsFound(t: Table, student: Student)
    requires SaveStudentEntity(t, student).result.Ok?
    ensures var o := SaveStudentEntity(t, student);
      GetStudentById(o.table, o.result.value.id.value) == Ok(Some(o.result.value))
  {
  }

  /**
   * Every id a save hands back is at least the sequence's initial value, and
   * an insert's id belongs to no row stored before.
   */
  lemma SavedIdsFromSequence(t: Table, student: Student)
    requires Valid(t)
    ensures var o := UpdateStudent(t, student);
      o.result.Ok? ==> InitialValue <= o.result.value.id.value
    ensures var o := SaveStudentEntity(t, student);
      o.result.Ok? ==> InitialValue <= o.result.value.id.value
    ensures var o := SaveStudentEntity(t, student);
      o.result.Ok? && IsInsert(t, student) ==> o.result.value.id.value !in t.rows
  {
  }

  /**
   * Two creates of new records in a row draw successive values from the
   * sequence: the second id is the first one plus one, and neither was in use.
   */
  lemma SuccessiveInsertsIncrease(t: Table, a: Student, b: Student)
    requires Valid(t) && a.id.None? && b.id.None?
    requires SaveStudentEntity(t, a).result.Ok?
    requires SaveStudentEntity(SaveStudentEntity(t, a).table, b).result.Ok?
    ensures var o1 := SaveStudentEntity(t, a);
      var o2 := SaveStudentEntity(o1.table, b);
      var i1 := o1.result.value.id.value;
      var i2 := o2.result.value.id.value;
      && InitialValue <= i1 < i2 && i2 == i1 + AllocationSize
      && i1 !in t.rows && i2 !in o1.table.rows
  {
  }

  /** `getAllStudents` lists as many records as the table has rows, and nothing for an empty table. */
  lemma GetAllStudentsCount(t: Table)
    requires Valid(t)
    ensures |GetAllStudents(t)| == |t.rows|
    ensures t.rows == map[] ==> GetAllStudents(t) == {}
  {
    FindAllCount(t);
  }

  /** The table after creating each record of `students` in turn. */
  function CreateAll(t: Table, students: seq<Student>): (r: Table)
    decreases |students|
  {
    if students == [] then t
    else CreateAll(SaveStudentEntity(t, students[0]).table, students[1..])
  }

  /** Records that can all be created: new, complete, with emails unused and pairwise distinct. */
  ghost predicate Creatable(t: Table, students: seq<Student>)
  {
    && (forall i | 0 <= i < |students| :: students[i].id.None? && NonNull(students[i]))
    && (forall i | 0 <= i < |students| :: !EmailTaken(t, students[i].email))
    && (forall i, j | 0 <= i < j < |students| :: students[i].email != students[j].email)
  }

  /**
   * Creating N records with distinct, unused emails adds exactly N rows, so a
   * listing afterwards returns N more records.
   */
  lemma {:induction false} CreateAllCount(t: Table, students: seq<Student>)
    requires Valid(t) && Creatable(t, students)
    ensures Valid(CreateAll(t, students))
    ensures |CreateAll(t, students).rows| == |t.rows| + |students|
    ensures |GetAllStudents(CreateAll(t, students))| == |t.rows| + |students|
    decreases |students|
  {
    if students != [] {
      var s := students[0];
      var t1 := SaveStudentEntity(t, s).table;
      SavePreservesValid(t, s);
      assert t.next !in t.rows;
      assert t1.rows == t.rows[t.next := SaveStudentEntity(t, s).result.value];
      assert t1.rows.Keys == t.rows.Keys + {t.next};
      forall i | 0 <= i < |students[1..]| ensures !EmailTaken(t1, students[1..][i].email) {
        assert students[1..][i] == students[i + 1];
      }
      CreateAllCount(t1, students[1..]);
    } else {
      GetAllStudentsCount(t);
    }
  }
}
