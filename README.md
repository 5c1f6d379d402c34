# sudoCODE Academy services: a verified Dafny model of the core

The academy runs two small services. The **users** service creates students and
looks them up by email. The **courses** service creates students and courses,
looks them up, and assigns a course to a student through a link table. Each
service has two layers modelled here:

- a **use-case** layer, which checks the request field by field in a fixed order
  and otherwise hands it unchanged to a repository;
- a **store** (`PostgresDB`), a handle on the database that writes records into
  tables and reads them back.

The model follows the Go code, file by file:

| Dafny file | module | models |
|---|---|---|
| `entity.dfy` | `Entity` | `AbstractBase` and its `BeforeCreate` hook, shared by both domain packages |
| `courses_domain.dfy` | `CoursesDomain` | `Student`, `Course`, `StudentCourse` and the service's errors |
| `courses_store.dfy` | `CoursesStore` | the courses database and its `PostgresDB` handle: create, get, assign |
| `courses_usecase.dfy` | `CoursesUsecase` | the courses `Usecase`: guards and delegation |
| `users_domain.dfy` | `UsersDomain` | the users `Student` and the service's errors |
| `users_store.dfy` | `UsersStore` | the users database and its `PostgresDB` handle: create, get |
| `users_usecase.dfy` | `UsersUsecase` | the users `Usecase`: guards and delegation |
| `validation.dfy` | `Validation` | guard chains, and the student guards both services share |
| `tables.dfy` | `Tables` | primary keys, reading one record (`Find` in table order, `First` by least key), `varchar(n)` columns |
| `wrappers.dfy` | `Wrappers` | `Option` and `Result` |

How the model is built:

- **Records are objects.** Go passes a `*Student` or `*Course` to the store, and
  creation changes that same record. So records are classes, and their embedded
  `AbstractBase` is a separate object the create methods modify.
- **One database, several handles.** A `Database` object holds the tables as
  values: sequences of rows in storage order, plus the set of link keys. Its
  `Valid()` invariant says that:
  - primary keys are non-empty and distinct;
  - in the users service, emails are distinct;
  - every link names a stored student and a stored course.

  A `PostgresDB` is a handle on a `Database`, as `NewPostgresDB` opens a connection
  to the database the environment names. Each service opens two handles on the
  same database, `create` and `get`, and gives them to its use case
  (courses/presentation/config.go:33-35). The use case writes through `create` and
  reads through `get`. `Wire` builds this arrangement, and `RoundTrip` proves that
  a student created through the use case is then found through it.
- **Specification functions.** Every writer keeps the invariant and is proved
  against a specification function: `InsertStudent`, `InsertCourse` or `Assign`.
  Every reader returns what the lookup function `FindStudent` or `FindCourse` gives.
- **Randomness and time are parameters.** The UUID generator and the clock are
  inputs to each create operation: `id: Uuid` is a 36-character UUID text, and
  `now: Time` is an opaque clock reading. If the fresh id clashes with a stored
  key, the insert fails through the primary key.
- **Prices cannot be negative.** A price is Go's 64-bit `uint`: the subset type
  `Price` holds `0 <= x < 2^64`.
- **Names are always present, and at most 255 characters long.** First and last
  name are `varchar(255) not null` columns. A Go string is never NULL, so `not null`
  never fails. An empty name is rejected only by the use-case guards. A longer name
  makes the insert fail (`ValueTooLong`), unless everything past the 255th
  character is spaces; then the stored name is cut to 255 characters, while the
  record keeps the full name (`StoredStudent`, `Tables.Varchar`).

### Behaviour of the code worth knowing

- **Duplicate assignments.** `AssignCourseToStudent` does not scan the student's
  courses for the pair before linking. What rejects a repeated
  pair is the composite primary key `(StudentUUID, CourseUUID)` of the link table:
  the insert fails, and the store reports "can't create a new student's course".
- **Uniqueness.** In the courses service, neither the course title nor the student
  email has a unique index. Several students may share an email
  (`SharedEmailAccepted`), and several courses may share a title. The users
  service does index the email uniquely.
- **Not-found errors.** A missing student and a missing course produce the same
  error, the ORM's record-not-found, returned unwrapped.
- **The assignment result.** The returned student is the record loaded by the email
  lookup. Its course list is not reloaded, so it stays empty.
- **Which student and course an assignment uses.** `AssignCourseToStudent` reads
  with `First`, which orders by primary key. When several students share the email,
  or several courses the title, it uses the one with the least UUID, whatever the
  storage order (`AssignPicksLeastKey`). The `Get*` lookups use `Find`, which has no
  order.
- **Empty keys.** The `Get*` use cases reject only a missing (nil) key. An empty
  key goes on to the store.

## Model

| member | source | states |
|---|---|---|
| `Entity.AbstractBase.BeforeCreate` | courses/domain/course.go:20-23 | the hook overwrites the UUID with the fresh, non-empty id and leaves the other base fields alone |
| `Entity.AbstractBase.FillDefaults` | courses/domain/course.go:11-17 | before the insert, unset created/updated timestamps take the current time and `active` becomes true, its column default; the UUID is kept |
| `Entity.Created` | courses/domain/course.go:11-23 | a created base has the fresh non-empty id, `active` true and both timestamps set; timestamps the caller set are kept |
| `Entity.CreatedIgnoresCallerIdentity` | courses/domain/course.go:20-23 | two records that differ only in caller-supplied UUID or active flag get the same created base |
| `Tables.FirstMatch` | courses/infrastructure/database/postgres.go:159-166 | `Find` into one record: absent iff no row satisfies the condition; otherwise a stored row that satisfies it, with none before it in table order satisfying it |
| `Tables.FirstMatchAppend` | courses/infrastructure/database/postgres.go:87-90 | appending a row changes a lookup only when nothing matched before, and then the new row is found iff it matches |
| `Tables.LeastKeyMatch` | courses/infrastructure/database/postgres.go:133-140 | `First`: absent iff no row satisfies the condition; otherwise a stored row that satisfies it and whose primary key is at most that of every other row that does |
| `Tables.KeyLessEqTotal` | courses/infrastructure/database/postgres.go:133-140 | any two keys are ordered one way or the other, so `First` always has a least match |
| `Tables.KeyLessEqTransitive` | courses/infrastructure/database/postgres.go:133-140 | the key order is transitive |
| `Tables.KeyLessEqAntisymmetric` | courses/infrastructure/database/postgres.go:133-140 | two keys ordered both ways are equal, so with distinct keys the least match is unique |
| `Tables.AppendKeyed` | courses/domain/course.go:12 | appending a row with a new, non-empty primary key keeps keys non-empty and distinct |
| `Tables.Varchar` | courses/domain/course.go:28-29 | text fits a `varchar(n)` column unless some character past the n-th is not a space; text of at most n characters is stored unchanged, longer text is stored as exactly its first n characters, and only spaces are lost |
| `Validation.FirstFailure` | courses/usecase/course.go:87-101 | a guard chain passes iff every guard passes; otherwise it reports the message of a failing guard whose predecessors all pass |
| `Validation.CheckStudent` | courses/usecase/course.go:70-78 | student guards in the order email, first name, last name; the request passes iff all three are non-empty; an empty email is always the error reported |
| `CoursesUsecase.CheckCourse` | courses/usecase/course.go:87-101 | course guards in the order description, instructor, price, title, category; the request passes iff all four strings are non-empty and the price is not zero |
| `CoursesUsecase.CheckAssign` | courses/usecase/course.go:111-116 | the email is checked before the title; the request passes iff both are non-empty |
| `CoursesUsecase.Usecase.constructor` | courses/usecase/course.go:43-63 | a use case exists only with both repositories set, and it keeps exactly those handles |
| `CoursesUsecase.Wire` | courses/presentation/config.go:33-35 | the service opens two distinct handles, both on the one database, and builds the use case over them |
| `CoursesUsecase.RoundTrip` | courses/usecase/course.go:66-129 | with both handles on one database, a student created through the use case is found through `GetStudent` by its email; it is the row stored for the new student when no student held that email before |
| `CoursesUsecase.Usecase.CreateStudent` | courses/usecase/course.go:66-80 | a failing guard returns its error, with the store and the record untouched; otherwise the result is exactly the store's create outcome |
| `CoursesUsecase.Usecase.CreateCourse` | courses/usecase/course.go:83-103 | a failing guard returns its error, with the store and the record untouched; otherwise the result is exactly the store's create outcome |
| `CoursesUsecase.Usecase.AssignCourseToStudent` | courses/usecase/course.go:106-118 | a failing guard returns its error and links nothing; otherwise the outcome is exactly the store's assignment |
| `CoursesUsecase.Usecase.GetStudent` | courses/usecase/course.go:121-129 | only a missing key is an error; any present key, the empty string included, gets the store's lookup result |
| `CoursesUsecase.Usecase.GetCourse` | courses/usecase/course.go:132-140 | only a missing key is an error; any present key, the empty string included, gets the store's lookup result |
| `CoursesStore.StoredStudent` | courses/domain/course.go:28-29 | a student row is storable iff both names fit their `varchar(255)` columns; the stored row keeps the identity and email, and each name is what its column stores: unchanged within the limit, else exactly its first 255 characters, with only trailing spaces lost |
| `CoursesStore.InsertStudentKeepsKeys` | courses/infrastructure/database/postgres.go:83-91 | a student insert succeeds iff the names fit and the UUID is new; it then appends exactly the stored row and keeps primary keys non-empty and distinct |
| `CoursesStore.LongNameRejected` | courses/domain/course.go:28 | a first name with a non-space past the 255th character makes the insert fail with the value-too-long error |
| `CoursesStore.InsertCourseKeepsKeys` | courses/infrastructure/database/postgres.go:94-102 | a course insert succeeds iff the UUID is new; it then appends exactly the new row and keeps primary keys non-empty and distinct |
| `CoursesStore.AppendKeepsLinks` | courses/domain/course.go:45-49 | adding students or courses never leaves a link without the student and course it names |
| `CoursesStore.FindStudent` | courses/infrastructure/database/postgres.go:159-170 | for a non-empty email: absent iff no stored student has it, else a stored student with that email; for any email, a found student is stored |
| `CoursesStore.FindCourse` | courses/infrastructure/database/postgres.go:109-120 | for a non-empty title: absent iff no stored course has it, else a stored course with that title; for any title, a found course is stored |
| `CoursesStore.Assign` | courses/infrastructure/database/postgres.go:129-151 | no student with the email, or no course with the title, gives record-not-found, and only those cases do; on success the student is the one with the least UUID among those with the email, the link pairs its UUID with that of the least-UUID course with the title, and the link was not yet stored; any other failure is the link-key violation, for exactly that least pair already linked |
| `CoursesStore.AssignPicksLeastKey` | courses/infrastructure/database/postgres.go:133-151 | two students share an email and the one stored first, with the greater UUID, is already linked: the assignment succeeds with the other one, so the outcome follows key order, not storage order |
| `CoursesStore.AssignKeepsLinksResolved` | courses/infrastructure/database/postgres.go:143-149 | the link a successful assignment adds names a stored student and a stored course |
| `CoursesStore.AssignTwiceFails` | courses/infrastructure/database/postgres.go:143-149 | repeating a successful assignment fails on the link table's composite key |
| `CoursesStore.CreatedStudentIsFound` | courses/infrastructure/database/postgres.go:155-171 | after a successful create, a lookup by the student's email finds a student with that email; it finds the row stored for the new student when no earlier student has the email |
| `CoursesStore.SharedEmailAccepted` | courses/domain/course.go:30 | two students with one email are both stored, and a lookup by that email returns the first |
| `CoursesStore.AssignScenario` | courses/infrastructure/database/postgres.go:124-152 | create Ada and "Algorithms", assign once: the link (student, course) is stored; the same assignment again fails on the link key |
| `CoursesStore.PostgresDB.constructor` | courses/infrastructure/database/postgres.go:27-33 | a new handle opens the given database |
| `CoursesStore.PostgresDB.CreateStudent` | courses/infrastructure/database/postgres.go:83-91 | the record gets the fresh id, defaults and timestamps; on success the stored row is appended and the same record returned; on a name that does not fit or a key clash the tables are unchanged and nil plus an error is returned |
| `CoursesStore.PostgresDB.CreateCourse` | courses/infrastructure/database/postgres.go:94-102 | the record gets the fresh id, defaults and timestamps; on success the row is appended and the same record returned; on a key clash the tables are unchanged and nil plus an error is returned |
| `CoursesStore.PostgresDB.GetCourse` | courses/infrastructure/database/postgres.go:105-121 | null iff the lookup finds nothing (not an error); else a new record holding the found row, with no students loaded; the store is not modified |
| `CoursesStore.PostgresDB.AssignCourseToStudent` | courses/infrastructure/database/postgres.go:124-152 | students and courses unchanged; on success exactly one new link and a new record of the looked-up student with no courses loaded; on failure no link and nil plus the error |
| `CoursesStore.PostgresDB.GetStudent` | courses/infrastructure/database/postgres.go:155-171 | null iff the lookup finds nothing (not an error); else a new record holding the found row, with no courses loaded; the store is not modified |
| `UsersStore.StoredStudent` | users/domain/student.go:28-29 | a student row is storable iff both names fit their `varchar(255)` columns; the stored row keeps the identity and email, and each name is what its column stores: unchanged within the limit, else exactly its first 255 characters, with only trailing spaces lost |
| `UsersStore.InsertKeepsKeys` | users/domain/student.go:28-30 | an insert succeeds iff the names fit and neither its UUID nor its email is stored; it then appends the stored row and keeps keys and emails unique |
| `UsersStore.LongNameRejected` | users/domain/student.go:29 | a last name with a non-space past the 255th character makes the insert fail with the value-too-long error |
| `UsersStore.DuplicateEmailRejected` | users/infrastructure/database/postgres.go:85-87 | creating a student whose email is already stored fails, whatever id it is given |
| `UsersStore.FindStudent` | users/infrastructure/database/postgres.go:96-107 | for a non-empty email: absent iff no stored student has it, else the stored student with that email; for any email, a found student is stored |
| `UsersStore.CreateThenGet` | users/infrastructure/database/postgres.go:81-107 | after a successful create, a lookup by the new student's email returns exactly the row stored for it |
| `UsersStore.PostgresDB.constructor` | users/infrastructure/database/postgres.go:27-33 | a new handle opens the given database |
| `UsersStore.PostgresDB.CreateStudent` | users/infrastructure/database/postgres.go:81-89 | the record gets the fresh id, defaults and timestamps; on success the stored row is appended and the same record returned; on a name that does not fit, a key clash or an email clash the table is unchanged and nil plus an error is returned |
| `UsersStore.PostgresDB.GetStudent` | users/infrastructure/database/postgres.go:92-108 | null iff the lookup finds nothing (not an error); else a new record holding the found row; the store is not modified |
| `UsersUsecase.Usecase.constructor` | users/usecase/student.go:30-50 | a use case exists only with both repositories set, and it keeps exactly those handles |
| `UsersUsecase.Wire` | users/usecase/student_test.go:20-22 | two distinct handles, both on the one database, and the use case over them |
| `UsersUsecase.RoundTrip` | users/usecase/student.go:53-78 | with both handles on one database, a student created through the use case is found through `GetStudent` by its email, as exactly the row stored for it: same identity and email, names as stored |
| `UsersUsecase.Usecase.CreateStudent` | users/usecase/student.go:53-67 | a failing guard (email, first name, last name) returns its error, with the store and the record untouched; otherwise the result is exactly the store's create outcome |
| `UsersUsecase.Usecase.GetStudent` | users/usecase/student.go:70-78 | only a missing key is an error; any present key, the empty string included, gets the store's lookup result |

## Left out

- The HTTP handlers, routing, middleware, DTOs, server start-up and the interactors are not modelled. They only decode JSON, call the use cases and answer 400 on any error.
- Store connection and migration (`Init`, `Migrate`, the store's `Checkpreconditions`) are not modelled: they read environment variables and exit the process on failure. The `Database` constructor stands for an empty, migrated database, and the `PostgresDB` constructor for `NewPostgresDB` opening a handle on it.
- The repository mocks and all test files are not modelled.
- The `ctx` parameters are dropped, and so are cancellation and timeouts.
- Concurrent requests are not modelled: the model is sequential. Two concurrent assignments of one pair still race to the link table's key.
- Store failures other than key clashes and names too long for their columns are not modelled: lost connections, failed queries, a price above the largest `bigint`. The model's `Get*` store methods therefore have no error result.
- The soft-delete column (`DeletedAt`) and the ORM's filtering of deleted rows are left out, because no core operation deletes anything.
- Nested associations are not saved: the model stores only the record's own columns. The ORM would also save a student's `Courses` or a course's `Students` passed to create; no caller in the services sets them.
- The model reports the primary key when a users-service insert clashes on both the UUID and the email. Which of the two Postgres reports is not modelled.
- `Tables.FirstMatch`: `Find` has no `ORDER BY`, so Postgres may return the matching rows in any order; the model takes them in storage order. The choice matters only when several rows match, which in the courses service happens for a shared email or title: `FindStudent` and `FindCourse` then return one of the matching rows, and `SharedEmailAccepted` shows the first stored.
- `Tables.LeastKeyMatch` compares keys by character code. The UUIDs are canonical text: dashes at the same places, otherwise the characters `0-9` and `a-f`. The usual collations order such text the same way.
- `CoursesUsecase.Usecase.constructor`: like `NewUsecase`, it accepts any two handles, including handles on different databases. The services open both on one database (`Wire`), and `RoundTrip` requires that.
- `UsersUsecase.Usecase.constructor`: likewise, it accepts any two handles; `Wire` opens both on one database, and `RoundTrip` requires that.
- The error texts of store failures are structured values (`CannotCreateStudent(cause)` and so on), not the formatted strings. Use-case errors carry their exact messages.
- A nil record passed to `CreateStudent`/`CreateCourse`, or a nil key passed to `AssignCourseToStudent`, makes the Go code panic on a nil dereference. The model's parameters are non-null, so these calls cannot be made.
- `CoursesStore.FindStudent`: for an empty email, the contract says only that a found student is a stored one. The body follows the ORM rule that drops empty fields from a struct condition, so any stored student can match, but that behaviour belongs to the ORM.
- `CoursesStore.FindCourse`: for an empty title, the contract likewise says only that a found course is a stored one.
- `UsersStore.FindStudent`: for an empty email, the contract likewise says only that a found student is a stored one.
