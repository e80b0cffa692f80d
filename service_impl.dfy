/**
 * `StudentServiceImpl`: the service object over the repository it is given.
 * Every method is proved to change the table and answer exactly as the
 * contract in `StudentService` says.
 */
module ServiceImpl {
  import opened Wrappers
  import opened Entity
  import opened Exceptions
  import opened Dto
  import Tables
  import StudentService
  import opened Repository

  class StudentServiceImpl {
    const studentRepository: StudentRepository

    ghost predicate Valid()
      reads this, studentRepository
    {
      studentRepository.Valid()
    }

    constructor (studentRepository: StudentRepository)
      requires studentRepository.Valid()
      ensures Valid() && this.studentRepository == studentRepository
    {
      this.studentRepository := studentRepository;
    }

    /** `saveStudent(studentDto)`. */
    method SaveStudent(studentDto: StudentDto) returns (r: Result<StudentDto, Failure>)
      requires Valid()
      modifies studentRepository
      ensures Valid()
      ensures studentRepository.State() == StudentService.SaveStudent(old(studentRepository.State()), studentDto).table
      ensures r == StudentService.SaveStudent(old(studentRepository.State()), studentDto).result
    {
      var student := MapToEntity(studentDto);
      var foundStudent := studentRepository.FindByEmail(student.email);
      if foundStudent.Some? {
        r := Err(StudentService.DtoDuplicate(student.email));
        return;
      }
      var savedStudent := studentRepository.Save(student);
      match savedStudent
      case Ok(s) => r := Ok(MapToDto(s));
      case Err(e) => r := Err(e);
    }

    /** `saveStudentEntity(student)`. */
    method SaveStudentEntity(student: Student) returns (r: Result<Student, Failure>)
      requires Valid()
      modifies studentRepository
      ensures Valid()
      ensures studentRepository.State() == StudentService.SaveStudentEntity(old(studentRepository.State()), student).table
      ensures r == StudentService.SaveStudentEntity(old(studentRepository.State()), student).result
    {
      var findStudent := studentRepository.FindByEmail(student.email);
      if findStudent.Some? {
        r := Err(StudentService.EntityDuplicate(student.email));
        return;
      }
      r := studentRepository.Save(student);
    }

    /** `getAllStudents()`: every stored row, as many as there are rows. */
    method GetAllStudents() returns (r: set<Student>)
      ensures r == StudentService.GetAllStudents(studentRepository.State())
      ensures Valid() ==> |r| == |studentRepository.rows|
    {
      r := studentRepository.FindAll();
    }

    /** `getStudentById(id)`: the row, or ResourceNotFound. */
    method GetStudentById(id: int) returns (r: Result<Option<Student>, Failure>)
      ensures r == StudentService.GetStudentById(studentRepository.State(), id)
      ensures r.Ok? ==> r.value.Some? && r.value.value == studentRepository.rows[id]
    {
      var found := studentRepository.FindById(id);
      match found
      case Some(s) => r := Ok(Some(s));
      case None => r := Err(StudentService.NotFound);
    }

    /** `updateStudent(student)`. */
    method UpdateStudent(student: Student) returns (r: Result<Student, Failure>)
      requires Valid()
      modifies studentRepository
      ensures Valid()
      ensures studentRepository.State() == StudentService.UpdateStudent(old(studentRepository.State()), student).table
      ensures r == StudentService.UpdateStudent(old(studentRepository.State()), student).result
    {
      r := studentRepository.Save(student);
    }

    /** `deleteStudentById(id)`. */
    method DeleteStudentById(id: int)
      requires Valid()
      modifies studentRepository
      ensures Valid()
      ensures studentRepository.State() == StudentService.DeleteStudentById(old(studentRepository.State()), id)
    {
      studentRepository.DeleteById(id);
    }
  }
}
