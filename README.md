# Student REST API: the student service and its table

This project models the core of a small CRUD service for student records.
That core is the student service (`StudentServiceImpl`) working on the
`students` table through a JPA repository. The `Student` entity has an id drawn
from the `students_seq` sequence, which starts at 100 and steps by 1, and three
non-null text columns. The global exception handler maps the two domain
exceptions to HTTP 404 and 400.

Layout, one module per file:

- `wrappers.dfy` (`Wrappers`): `Option` (Java `null` / `Optional`) and `Result` (a thrown exception).
- `entity.dfy` (`Entity`): the `Student` record, its setters, the non-null column rule and the sequence constants.
- `dto.dfy` (`Dto`): `StudentDto` and the field-by-field mapper.
- `exceptions.dfy` (`Exceptions`): the failure kinds. These are ResourceNotFound, UserAlreadyExists, and the storage-level DataIntegrityViolation raised for a null in a non-null column.
- `exception_handler.dfy` (`ExceptionHandler`): the two handlers, and the dispatch that applies them and leaves every other failure untranslated.
- `tables.dfy` (`Tables`): a pure specification of the table. It holds the rows keyed by id and the next sequence value. It defines the framework's `save`, `findById`, `findAll`, `deleteById` and an exact-match `findByEmail`, the table invariant, and a predicate for unique emails.
- `repository.dfy` (`Repository`): class `StudentRepository`. It holds the table in place in a `map` field and a counter field. Each method is proved against `Tables`.
- `student_service.dfy` (`StudentService`): the service contract. Each operation is a function from the table before to the table after and the result or failure. The file also holds the lemmas about these functions.
- `service_impl.dfy` (`ServiceImpl`): class `StudentServiceImpl` over a `StudentRepository`. Its methods do what the Java methods do, and each is proved to agree with `StudentService`.
- `error_paths.dfy` (`ErrorPaths`): what a client sees when a service operation fails and the failure goes through the handler.

Framework behaviour specified for the repository, since `StudentRepository`
declares nothing of its own:

- `save` inserts when the record's id is null or names no stored row. Otherwise it overwrites the row with that id.
- An insert draws the next sequence value before writing the row. A sequence is not transactional, so a value drawn for an insert that is then rejected for a null column stays used.
- A save with null first name, last name or email fails with DataIntegrityViolation and writes no row.
- `deleteById` of an id with no row does nothing and raises nothing.

`getStudentById` throws ResourceNotFound for a missing id, as the code does.
It never returns an empty `Optional`: when it succeeds, the `Optional` is
always present.

## Model

| member | source | states |
|---|---|---|
| Entity.SetId | src/main/java/com/projects/studentrestapi/entity/Student.java:7-18 | replaces the id; the three text fields and the non-null status are unchanged |
| Entity.SetFirstName | src/main/java/com/projects/studentrestapi/entity/Student.java:20-21 | replaces the first name; id, last name and email unchanged; non-null iff the new value and the other two columns are present |
| Entity.SetLastName | src/main/java/com/projects/studentrestapi/entity/Student.java:23-24 | replaces the last name; id, first name and email unchanged |
| Entity.SetEmail | src/main/java/com/projects/studentrestapi/entity/Student.java:26-27 | replaces the email; id, first and last name unchanged |
| Entity.SetEmailThenFirstName | src/test/java/com/projects/studentrestapi/repository/StudentRepositoryTest.java:91-97 | after setting email then first name, both read back, id and last name are untouched, and the order of the two setters does not matter |
| Dto.MapToDto | src/main/java/com/projects/studentrestapi/mapper/StudentMapper.java:13 | every DTO field equals the entity's field |
| Dto.MapToEntity | src/main/java/com/projects/studentrestapi/mapper/StudentMapper.java:15 | every entity field equals the DTO's field |
| Dto.MapRoundTrip | src/main/java/com/projects/studentrestapi/dto/StudentDto.java:10-15 | the two mappings are inverse to each other in both directions |
| ExceptionHandler.HttpStatus.Value | src/main/java/com/projects/studentrestapi/exception/GlobalExceptionHandler.java:21-31 | NOT_FOUND is 404 and BAD_REQUEST is 400, each code naming exactly one constant |
| ExceptionHandler.HandleResourceNotFoundException | src/main/java/com/projects/studentrestapi/exception/GlobalExceptionHandler.java:14-22 | status 404; body message equals the exception's message; details equal the request description; timestamp is the clock reading |
| ExceptionHandler.HandleUserAlreadyExistsException | src/main/java/com/projects/studentrestapi/exception/GlobalExceptionHandler.java:24-32 | status 400; body message equals the exception's message; details equal the request description |
| ExceptionHandler.Translate | src/main/java/com/projects/studentrestapi/exception/GlobalExceptionHandler.java:11-33 | a response exists iff the failure is one of the two handled kinds; 404 iff not-found, 400 iff already-exists; the body copies message and details |
| ExceptionHandler.StatusDeterminesKind | src/main/java/com/projects/studentrestapi/exception/GlobalExceptionHandler.java:14-31 | two translated failures with the same status are of the same kind |
| Tables.Empty | src/main/java/com/projects/studentrestapi/entity/Student.java:15-18 | the empty table's sequence stands at 100; it is valid and has unique emails |
| Tables.Save | src/main/java/com/projects/studentrestapi/repository/StudentRepository.java:6 | succeeds iff the three non-null columns are present; an insert takes the next sequence value as id and advances the sequence by one; an overwrite keeps the id; the table becomes old rows with the saved record under its id; on failure no row changes |
| Tables.FindById | src/main/java/com/projects/studentrestapi/repository/StudentRepository.java:6 | present iff a row has that id, and then it is that row |
| Tables.FindAll | src/main/java/com/projects/studentrestapi/repository/StudentRepository.java:6 | a record is listed iff it is stored under some id |
| Tables.DeleteById | src/main/java/com/projects/studentrestapi/repository/StudentRepository.java:6 | the id has no row afterwards; every other row and the sequence are unchanged; no row appears |
| Tables.SavePreservesValid | src/main/java/com/projects/studentrestapi/entity/Student.java:15-27 | save keeps ids keyed, within [100, next) and all columns non-null |
| Tables.DeletePreservesValid | src/main/java/com/projects/studentrestapi/repository/StudentRepository.java:6 | delete keeps the table valid and keeps emails unique |
| Tables.DeleteIdempotent | src/test/java/com/projects/studentrestapi/repository/StudentRepositoryTest.java:104-109 | deleting twice equals deleting once |
| Tables.KeyedRowsCount | src/main/java/com/projects/studentrestapi/entity/Student.java:15-18 | when every row carries its key as id, the rows are pairwise distinct, so there are as many records as keys |
| Tables.FindAllCount | src/test/java/com/projects/studentrestapi/repository/StudentRepositoryTest.java:54-60 | findAll returns as many records as there are rows, and none iff the table is empty |
| Repository.StudentRepository.constructor | src/main/java/com/projects/studentrestapi/entity/Student.java:16-17 | a new repository holds the empty table with the sequence at 100 |
| Repository.StudentRepository.Save | src/main/java/com/projects/studentrestapi/repository/StudentRepository.java:6 | the new rows, counter and result are exactly `Tables.Save` of the old state; validity is kept |
| Repository.StudentRepository.FindById | src/main/java/com/projects/studentrestapi/repository/StudentRepository.java:6 | returns `Tables.FindById` of the current state |
| Repository.StudentRepository.FindByEmail | src/test/java/com/projects/studentrestapi/repository/StudentRepositoryTest.java:76-82 | present iff some stored row has exactly that email, and then it is such a stored row |
| Repository.StudentRepository.FindAll | src/main/java/com/projects/studentrestapi/repository/StudentRepository.java:6 | returns exactly the stored rows, as many as there are rows when the table is valid |
| Repository.StudentRepository.DeleteById | src/main/java/com/projects/studentrestapi/repository/StudentRepository.java:6 | the new state is `Tables.DeleteById` of the old; validity is kept |
| StudentService.EmailText | src/main/java/com/projects/studentrestapi/service/impl/StudentServiceImpl.java:28-38 | a null email is concatenated as "null", any other as itself |
| StudentService.SaveStudentEntity | src/main/java/com/projects/studentrestapi/service/impl/StudentServiceImpl.java:35-41 | a taken email throws UserAlreadyExists with the source's message and leaves the table unchanged; otherwise it succeeds iff the record is complete, advances the sequence by one exactly when it inserts (even when the insert then fails), stores the record with the input's fields under its id and changes no other row, and an insert takes the next sequence value |
| StudentService.SaveStudent | src/main/java/com/projects/studentrestapi/service/impl/StudentServiceImpl.java:23-32 | a taken email of the mapped entity throws UserAlreadyExists with the DTO path's message and leaves the table unchanged; on success the returned DTO has an id and the input's text fields, and the table has that record under its id |
| StudentService.GetAllStudents | src/main/java/com/projects/studentrestapi/service/impl/StudentServiceImpl.java:44-46 | a record is returned iff it is stored |
| StudentService.GetStudentById | src/main/java/com/projects/studentrestapi/service/impl/StudentServiceImpl.java:49-52 | succeeds iff the id has a row, then with a present `Optional` of that row; otherwise ResourceNotFound |
| StudentService.UpdateStudent | src/main/java/com/projects/studentrestapi/service/impl/StudentServiceImpl.java:55-57 | succeeds iff the record is complete; a record with a stored id overwrites that row and is returned as given, the sequence untouched; a null or unknown id inserts under the next sequence value, which advances by one; on success the table is the old rows plus the returned record under its id, so no other row changes; on failure no row changes |
| StudentService.DeleteStudentById | src/main/java/com/projects/studentrestapi/service/impl/StudentServiceImpl.java:60-62 | a fetch of the id afterwards fails with ResourceNotFound; a fetch of every other id gives what it gave before; the sequence is unchanged |
| StudentService.SaveStudentEntityPreservesInvariants | src/main/java/com/projects/studentrestapi/service/impl/StudentServiceImpl.java:36-40 | saveStudentEntity keeps the table valid and keeps "no two rows share an email" |
| StudentService.SaveStudentAgreesWithEntity | src/main/java/com/projects/studentrestapi/service/impl/StudentServiceImpl.java:23-41 | the DTO path leaves the same table as the entity path, succeeds when it does with the mapped record, and fails with the same kind |
| StudentService.SaveStudentPreservesInvariants | src/main/java/com/projects/studentrestapi/service/impl/StudentServiceImpl.java:25-30 | saveStudent keeps the table valid and keeps emails unique |
| StudentService.DuplicateCreateRejected | src/test/java/com/projects/studentrestapi/service/StudentServiceTests.java:61-73 | once a record is created, creating another with the same email throws UserAlreadyExists and saves nothing |
| StudentService.UpdateStudentPreservesValid | src/main/java/com/projects/studentrestapi/service/impl/StudentServiceImpl.java:55-57 | updateStudent keeps ids keyed, drawn from the sequence and columns non-null |
| StudentService.UpdateStudentMayBreakUniqueEmails | src/main/java/com/projects/studentrestapi/service/impl/StudentServiceImpl.java:55-57 | there is a valid table with unique emails and a successful update after which two rows share an email |
| StudentService.DeleteStudentByIdIdempotent | src/main/java/com/projects/studentrestapi/service/impl/StudentServiceImpl.java:60-62 | deleting an id twice leaves the same table as deleting it once |
| StudentService.FirstCreateGetsInitialValue | src/main/java/com/projects/studentrestapi/entity/Student.java:15-18 | the first record created in a fresh table gets id 100, and the table then holds that one row with the sequence at 101 |
| StudentService.SavedRecordIsFound | src/test/java/com/projects/studentrestapi/repository/StudentRepositoryTest.java:65-72 | the record a create returns is fetched by its id |
| StudentService.SavedIdsFromSequence | src/test/java/com/projects/studentrestapi/repository/StudentRepositoryTest.java:39-42 | every id a save or update returns is at least 100, and an inserted id was in use by no row |
| StudentService.SuccessiveInsertsIncrease | src/main/java/com/projects/studentrestapi/entity/Student.java:15-18 | two successive creates of new records get ids at least 100 that are strictly increasing by exactly one and both fresh |
| StudentService.GetAllStudentsCount | src/test/java/com/projects/studentrestapi/service/StudentServiceTests.java:87-109 | the listing has as many records as the table has rows, and is empty for an empty table |
| StudentService.CreateAllCount | src/test/java/com/projects/studentrestapi/repository/StudentRepositoryTest.java:47-61 | creating N new, complete records with distinct unused emails adds exactly N rows, so the listing grows by N; the table stays valid |
| ServiceImpl.StudentServiceImpl.constructor | src/main/java/com/projects/studentrestapi/service/impl/StudentServiceImpl.java:16-20 | the service works on the valid repository it is given, and is valid itself |
| ServiceImpl.StudentServiceImpl.SaveStudent | src/main/java/com/projects/studentrestapi/service/impl/StudentServiceImpl.java:23-32 | the new table and the result are those of `StudentService.SaveStudent` |
| ServiceImpl.StudentServiceImpl.SaveStudentEntity | src/main/java/com/projects/studentrestapi/service/impl/StudentServiceImpl.java:35-41 | the new table and the result are those of `StudentService.SaveStudentEntity` |
| ServiceImpl.StudentServiceImpl.GetAllStudents | src/main/java/com/projects/studentrestapi/service/impl/StudentServiceImpl.java:44-46 | returns exactly the stored rows, as many as there are rows when the table is valid |
| ServiceImpl.StudentServiceImpl.GetStudentById | src/main/java/com/projects/studentrestapi/service/impl/StudentServiceImpl.java:49-52 | returns the contract's answer, and on success a present `Optional` holding the stored row |
| ServiceImpl.StudentServiceImpl.UpdateStudent | src/main/java/com/projects/studentrestapi/service/impl/StudentServiceImpl.java:55-57 | the new table and the result are those of `StudentService.UpdateStudent` |
| ServiceImpl.StudentServiceImpl.DeleteStudentById | src/main/java/com/projects/studentrestapi/service/impl/StudentServiceImpl.java:60-62 | the new table is that of `StudentService.DeleteStudentById` |
| ErrorPaths.MissingIdRespondsNotFound | src/test/java/com/projects/studentrestapi/controller/StudentControllerTests.java:115-129 | fetching a missing id ends in a 404 response with a null message and the request's description |
| ErrorPaths.DuplicateEmailRespondsBadRequest | src/main/java/com/projects/studentrestapi/exception/GlobalExceptionHandler.java:24-31 | on a table with unique emails, creating with a taken email ends in a 400 response carrying the exception's message and the request's description |
| ErrorPaths.NullColumnNotTranslated | src/main/java/com/projects/studentrestapi/exception/GlobalExceptionHandler.java:11-33 | a save rejected for a null column gets no response from the handler |

## Left out

- The JPA and Hibernate machinery behind `StudentRepository` is not modelled. Transactions, flushing, the persistence context and connection pooling are replaced by the explicit map and counter above.
- The concurrent-create race on the email check is concurrency, so it is left out. So is a storage-level uniqueness constraint, which the source does not declare.
- Repository.StudentRepository.FindByEmail: when several rows share the email (possible after `updateStudent`), the derived query would raise a non-unique-result fault. The model returns one of those rows, so the service sees the email as taken.
- StudentService.SaveStudentEntity: on a table where two rows share the input's email, the program throws the untranslated non-unique-result fault from `findByEmail`; the model answers UserAlreadyExists instead, which the handler would turn into a 400.
- StudentService.SaveStudent: the same difference as for `saveStudentEntity` when two rows share the mapped entity's email.
- ErrorPaths.DuplicateEmailRespondsBadRequest: stated only for tables with unique emails, where the lookup by email finds a single row; on other tables the program's answer is the untranslated fault above.
- Tables.Save: merging a record whose id names no row is modelled as an insert with a fresh sequence value. Hibernate 6.6 and later raise an optimistic-locking failure in that case. The ORM version is not part of this model.
- Tables.Save: ids are unbounded integers. The 64-bit `Long` bound and exhaustion of the sequence are not modelled.
- Tables.Save: JPA also writes the generated id into the object passed to `save`. The model works on values, so this aliasing is not captured; the saved record is returned instead.
- The message text of the storage-level constraint violation belongs to the framework and is left as null.
- The `findByJPQL*` and `findByNativeSQL*` queries the repository tests call are not declared in the repository file, so they are not part of this model. Neither is the `EmployeeRepository` test.
- ServiceImpl.StudentServiceImpl.GetAllStudents: returns a set, not a `List`. The storage gives no order, and the rows are pairwise distinct because each carries its own id.
- `StudentController` is framework routing with no logic of its own. It also does not match the service interface: it passes a `Student` to `saveStudent`, which takes a `StudentDto`, and it wraps an `Optional` in the response. The PUT and DELETE routes the controller tests call are not in the controller file.
- The `StudentMapper` implementation is generated and not shown. It is modelled as a field-by-field copy between the two identically shaped records.
- The classes `ResourceNotFoundException`, `UserAlreadyExistsException` and `ErrorDetails` are not part of this model. The no-argument constructor used by `getStudentById` is taken to leave the message null.
- `LocalDateTime.now()` is a `Timestamp` parameter. `WebRequest.getDescription(false)` is an opaque string parameter.
- Logging, dependency injection, Mockito mocks, MockMvc and the Testcontainers setup are I/O and framework code, so they are left out.
