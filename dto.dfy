/**
 * `StudentDto`, the transfer shape of a student, and `StudentMapper`, which
 * copies a record field by field between the two identically shaped types.
 */
module Dto {
  import opened Wrappers
  import opened Entity

  datatype StudentDto = StudentDto(id: Option<int>, firstName: Text, lastName: Text, email: Text)

  /** `mapToDto`: every field of the DTO is the entity's. */
  function MapToDto(s: Student): (d: StudentDto)
    ensures d.id == s.id && d.firstName == s.firstName
    ensures d.lastName == s.lastName && d.email == s.email
  {
    StudentDto(s.id, s.firstName, s.lastName, s.email)
  }

  /** `mapToEntity`: every field of the entity is the DTO's. */
  function MapToEntity(d: StudentDto): (s: Student)
    ensures s.id == d.id && s.firstName == d.firstName
    ensures s.lastName == d.lastName && s.email == d.email
  {
    Student(d.id, d.firstName, d.lastName, d.email)
  }

  /** The two mappings are inverse to each other. */
  lemma MapRoundTrip(s: Student, d: StudentDto)
    ensures MapToEntity(MapToDto(s)) == s
    ensures MapToDto(MapToEntity(d)) == d
  {
  }
}
