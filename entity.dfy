/**
 * The `Student` entity: one row of the `students` table, with its Lombok
 * setters, and the constants of the `students_seq` id generator.
 */
module Entity {
  import opened Wrappers

  /** `initialValue` of the `students_seq` sequence generator. */
  const InitialValue: int := 100

  /** `allocationSize` of `students_seq`: every draw advances the sequence by one. */
  const AllocationSize: int := 1

  /** A Java `String` field; `None` is `null`. */
  type Text = Option<string>

  /** A `Student`; `None` in `id` is a record not yet given an id by the generator. */
  datatype Student = Student(id: Option<int>, firstName: Text, lastName: Text, email: Text)

  /** The three columns declared `nullable = false` all hold a value. */
  predicate NonNull(s: Student)
  {
    s.firstName.Some? && s.lastName.Some? && s.email.Some?
  }

  /** The three text fields of `a` and `b` agree (the id may differ). */
  predicate SameText(a: Student, b: Student)
  {
    a.firstName == b.firstName && a.lastName == b.lastName && a.email == b.email
  }

  /** `setId`: replaces the id, keeps every text field. */
  function SetId(s: Student, id: Option<int>): (r: Student)
    ensures r.id == id && SameText(r, s)
    ensures NonNull(r) <==> NonNull(s)
  {
    s.(id := id)
  }

  /** `setFirstName`: replaces the first name, keeps the id and the other fields. */
  function SetFirstName(s: Student, firstName: Text): (r: Student)
    ensures r.firstName == firstName
    ensures r.id == s.id && r.lastName == s.lastName && r.email == s.email
    ensures NonNull(r) <==> firstName.Some? && s.lastName.Some? && s.email.Some?
  {
    s.(firstName := firstName)
  }

  /** `setLastName`: replaces the last name, keeps the id and the other fields. */
  function SetLastName(s: Student, lastName: Text): (r: Student)
    ensures r.lastName == lastName
    ensures r.id == s.id && r.firstName == s.firstName && r.email == s.email
    ensures NonNull(r) <==> s.firstName.Some? && lastName.Some? && s.email.Some?
  {
    s.(lastName := lastName)
  }

  /** `setEmail`: replaces the email, keeps the id and the other fields. */
  function SetEmail(s: Student, email: Text): (r: Student)
    ensures r.email == email
    ensures r.id == s.id && r.firstName == s.firstName && r.lastName == s.lastName
    ensures NonNull(r) <==> s.firstName.Some? && s.lastName.Some? && email.Some?
  {
    s.(email := email)
  }

  /**
   * Setting the email and then the first name of a record (as the repository
   * test of the update operation does) leaves both new values readable and
   * the id and last name untouched, in whichever order the setters run.
   */
  lemma SetEmailThenFirstName(s: Student, email: Text, firstName: Text)
    ensures var r := SetFirstName(SetEmail(s, email), firstName);
      && r.email == email && r.firstName == firstName
      && r.id == s.id && r.lastName == s.lastName
      && r == SetEmail(SetFirstName(s, firstName), email)
  {
  }
}
