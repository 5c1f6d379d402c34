/**
 * The courses service's store. The database holds a students table, a courses table
 * and the student_courses link table, as values in storage order; a `PostgresDB`
 * is one handle on it, and several handles may open the same database.
 */
module CoursesStore {
  import opened Wrappers
  import opened Entity
  import opened Tables
  import opened CoursesDomain

  /** The length of the `varchar` name columns. */
  const NameLength := 255

  /** The primary key of a student row. */
  function StudentUuid(s: StudentRow): string { s.base.uuid }

  /** The primary key of a course row. */
  function CourseUuid(c: CourseRow): string { c.base.uuid }

  /** The condition `email = ?`. */
  function EmailIs(email: string): StudentRow -> bool {
    (s: StudentRow) => s.email == email
  }

  /** The condition `title = ?`. */
  function TitleIs(title: string): CourseRow -> bool {
    (c: CourseRow) => c.title == title
  }

  /**
   * The struct condition `Student{Email: email}`: the ORM drops zero-valued fields
   * from a struct condition, so an empty email constrains nothing.
   */
  function StudentFilter(email: string): StudentRow -> bool {
    (s: StudentRow) => email == "" || s.email == email
  }

  /** The struct condition `Course{Title: title}`, read the same way. */
  function CourseFilter(title: string): CourseRow -> bool {
    (c: CourseRow) => title == "" || c.title == title
  }

  /** The zero-valued records a query result is scanned into. */
  const ZeroStudent := StudentRow(ZeroBase, "", "", "")
  const ZeroCourse := CourseRow(ZeroBase, "", 0, "", "", "")

  /** Every link names a stored student and a stored course. */
  predicate LinksResolve(students: seq<StudentRow>, courses: seq<CourseRow>, links: set<StudentCourse>) {
    forall l :: l in links ==> HasKey(students, StudentUuid, l.studentUuid) && HasKey(courses, CourseUuid, l.courseUuid)
  }

  /** The columns a create writes for a student record. */
  function NewStudentRow(record: StudentRow, id: Uuid, now: Time): StudentRow {
    record.(base := Created(record.base, id, now))
  }

  /** The columns a create writes for a course record. */
  function NewCourseRow(record: CourseRow, id: Uuid, now: Time): CourseRow {
    record.(base := Created(record.base, id, now))
  }

  /**
   * The student row the table holds for the given columns: both names pass through
   * their `varchar(255)` columns; None when one of them does not fit.
   */
  function StoredStudent(row: StudentRow): (r: Option<StudentRow>)
    ensures r.None? <==> Varchar(row.firstName, NameLength).None? || Varchar(row.lastName, NameLength).None?
    ensures r.Some? ==> r.value.base == row.base && r.value.email == row.email &&
                        r.value.firstName <= row.firstName && |r.value.firstName| <= NameLength &&
                        r.value.lastName <= row.lastName && |r.value.lastName| <= NameLength
    ensures r.Some? ==> r.value.firstName == Varchar(row.firstName, NameLength).value &&
                        r.value.lastName == Varchar(row.lastName, NameLength).value
    ensures |row.firstName| <= NameLength && |row.lastName| <= NameLength ==> r == Some(row)
  {
    match Varchar(row.firstName, NameLength)
    case None => None
    case Some(first) =>
      match Varchar(row.lastName, NameLength)
      case None => None
      case Some(last) => Some(row.(firstName := first, lastName := last))
  }

  /**
   * An insert into the students table: a name that does not fit is refused first,
   * then a clash on the primary key.
   */
  function InsertStudent(rows: seq<StudentRow>, row: StudentRow): Result<seq<StudentRow>, DbError> {
    match StoredStudent(row)
    case None => Failure(ValueTooLong)
    case Some(stored) =>
      if HasKey(rows, StudentUuid, stored.base.uuid) then Failure(UniqueViolation(StudentsPrimaryKey))
      else Success(rows + [stored])
  }

  /** An insert into the courses table; the primary key rejects a clash. */
  function InsertCourse(rows: seq<CourseRow>, row: CourseRow): Result<seq<CourseRow>, DbError> {
    if HasKey(rows, CourseUuid, row.base.uuid) then Failure(UniqueViolation(CoursesPrimaryKey))
    else Success(rows + [row])
  }

  /** A student insert succeeds exactly when the names fit and the key is new; it appends the stored row. */
  lemma InsertStudentKeepsKeys(rows: seq<StudentRow>, row: StudentRow)
    requires Keyed(rows, StudentUuid) && row.base.uuid != ""
    ensures InsertStudent(rows, row).Success? <==>
              StoredStudent(row).Some? && !HasKey(rows, StudentUuid, row.base.uuid)
    ensures InsertStudent(rows, row).Success? ==>
              InsertStudent(rows, row).value == rows + [StoredStudent(row).value] &&
              Keyed(InsertStudent(rows, row).value, StudentUuid)
  {
    if InsertStudent(rows, row).Success? {
      AppendKeyed(rows, StoredStudent(row).value, StudentUuid);
    }
  }

  /** A name longer than its column, with more than spaces past the limit, is refused. */
  lemma LongNameRejected(rows: seq<StudentRow>, row: StudentRow)
    requires |row.firstName| > NameLength && row.firstName[NameLength] != ' '
    ensures InsertStudent(rows, row) == Failure(ValueTooLong)
  {
  }

  /** A course insert succeeds exactly when the key is new, and keeps the keys distinct. */
  lemma InsertCourseKeepsKeys(rows: seq<CourseRow>, row: CourseRow)
    requires Keyed(rows, CourseUuid) && row.base.uuid != ""
    ensures InsertCourse(rows, row).Success? <==> !HasKey(rows, CourseUuid, row.base.uuid)
    ensures InsertCourse(rows, row).Success? ==>
              InsertCourse(rows, row).value == rows + [row] && Keyed(rows + [row], CourseUuid)
  {
    if InsertCourse(rows, row).Success? {
      AppendKeyed(rows, row, CourseUuid);
    }
  }

  /** Appending rows keeps every link resolvable. */
  lemma AppendKeepsLinks(students: seq<StudentRow>, courses: seq<CourseRow>, links: set<StudentCourse>,
                         moreStudents: seq<StudentRow>, moreCourses: seq<CourseRow>)
    requires LinksResolve(students, courses, links)
    ensures LinksResolve(students + moreStudents, courses + moreCourses, links)
  {
    forall l | l in links
      ensures HasKey(students + moreStudents, StudentUuid, l.studentUuid) &&
              HasKey(courses + moreCourses, CourseUuid, l.courseUuid)
    {
      AppendHasKey(students, moreStudents, StudentUuid, l.studentUuid);
      AppendHasKey(courses, moreCourses, CourseUuid, l.courseUuid);
    }
  }

  /**
   * The outcome of creating a student from `record`: on success the table gains
   * exactly the stored row; on failure the table is unchanged. Either way the record
   * holds the new identity, the defaults and the timestamps, set before the insert.
   */
  predicate StudentCreated(before: seq<StudentRow>, record: StudentRow, id: Uuid, now: Time,
                           after: seq<StudentRow>, recordAfter: StudentRow, ok: bool, err: Option<Error>)
  {
    var row := NewStudentRow(record, id, now);
    recordAfter == row &&
    match InsertStudent(before, row)
    case Success(rows) => ok && err == None && after == rows
    case Failure(e) => !ok && err == Some(CannotCreateStudent(e)) && after == before
  }

  /** The outcome of creating a course from `record`, in the same shape. */
  predicate CourseCreated(before: seq<CourseRow>, record: CourseRow, id: Uuid, now: Time,
                          after: seq<CourseRow>, recordAfter: CourseRow, ok: bool, err: Option<Error>)
  {
    var row := NewCourseRow(record, id, now);
    recordAfter == row &&
    match InsertCourse(before, row)
    case Success(rows) => ok && err == None && after == rows
    case Failure(e) => !ok && err == Some(CannotCreateCourse(e)) && after == before
  }

  /**
   * `GetStudent`'s lookup: scan into a zero record with the struct condition, and
   * report "absent" when the record's identity is still empty.
   */
  function FindStudent(rows: seq<StudentRow>, email: string): (r: Option<StudentRow>)
    requires Keyed(rows, StudentUuid)
    ensures r.Some? ==> r.value in rows
    ensures email != "" ==> (r.None? <==> forall i :: 0 <= i < |rows| ==> rows[i].email != email)
    ensures email != "" && r.Some? ==> r.value.email == email
  {
    var found := FirstMatch(rows, StudentFilter(email));
    var student := if found.Some? then found.value else ZeroStudent;
    if student.base.uuid == "" then None else Some(student)
  }

  /** `GetCourse`'s lookup, in the same shape. */
  function FindCourse(rows: seq<CourseRow>, title: string): (r: Option<CourseRow>)
    requires Keyed(rows, CourseUuid)
    ensures r.Some? ==> r.value in rows
    ensures title != "" ==> (r.None? <==> forall i :: 0 <= i < |rows| ==> rows[i].title != title)
    ensures title != "" && r.Some? ==> r.value.title == title
  {
    var found := FirstMatch(rows, CourseFilter(title));
    var course := if found.Some? then found.value else ZeroCourse;
    if course.base.uuid == "" then None else Some(course)
  }

  /** `s` is the student `First` returns for the email: a match with the least key. */
  predicate LeastStudent(students: seq<StudentRow>, email: string, s: StudentRow) {
    s in students && s.email == email &&
    forall i :: 0 <= i < |students| && students[i].email == email ==> KeyLessEq(s.base.uuid, students[i].base.uuid)
  }

  /** `c` is the course `First` returns for the title: a match with the least key. */
  predicate LeastCourse(courses: seq<CourseRow>, title: string, c: CourseRow) {
    c in courses && c.title == title &&
    forall j :: 0 <= j < |courses| && courses[j].title == title ==> KeyLessEq(c.base.uuid, courses[j].base.uuid)
  }

  /** What a successful assignment resolves: the student returned and the link stored. */
  datatype Assignment = Assignment(student: StudentRow, link: StudentCourse)

  /**
   * `AssignCourseToStudent`: `First` student by email, then `First` course by title,
   * then an insert into the link table, whose composite primary key rejects a
   * repeated pair.
   */
  function Assign(students: seq<StudentRow>, courses: seq<CourseRow>, links: set<StudentCourse>,
                  email: string, title: string): (r: Result<Assignment, Error>)
    ensures (forall i :: 0 <= i < |students| ==> students[i].email != email) ==> r == Failure(RecordNotFound)
    ensures (forall j :: 0 <= j < |courses| ==> courses[j].title != title) ==> r == Failure(RecordNotFound)
    ensures r == Failure(RecordNotFound) ==>
              (forall i :: 0 <= i < |students| ==> students[i].email != email) ||
              (forall j :: 0 <= j < |courses| ==> courses[j].title != title)
    ensures r.Success? ==>
              LeastStudent(students, email, r.value.student) && r.value.link !in links &&
              r.value.link.studentUuid == r.value.student.base.uuid &&
              exists c :: LeastCourse(courses, title, c) && r.value.link.courseUuid == c.base.uuid
    ensures r.Failure? && r.error != RecordNotFound ==>
              r.error == CannotCreateStudentCourse(UniqueViolation(StudentCoursesPrimaryKey)) &&
              exists s, c :: LeastStudent(students, email, s) && LeastCourse(courses, title, c) &&
                             StudentCourse(s.base.uuid, c.base.uuid) in links
  {
    match LeastKeyMatch(students, EmailIs(email), StudentUuid)
    case None => Failure(RecordNotFound)
    case Some(student) =>
      match LeastKeyMatch(courses, TitleIs(title), CourseUuid)
      case None => Failure(RecordNotFound)
      case Some(course) =>
        var link := StudentCourse(student.base.uuid, course.base.uuid);
        if link in links then Failure(CannotCreateStudentCourse(UniqueViolation(StudentCoursesPrimaryKey)))
        else Success(Assignment(student, link))
  }

  /** A successful assignment keeps every link resolvable. */
  lemma AssignKeepsLinksResolved(students: seq<StudentRow>, courses: seq<CourseRow>, links: set<StudentCourse>,
                                 email: string, title: string)
    requires LinksResolve(students, courses, links)
    requires Assign(students, courses, links, email, title).Success?
    ensures LinksResolve(students, courses, links + {Assign(students, courses, links, email, title).value.link})
  {
  }

  /** Repeating a successful assignment fails on the link's key and stores nothing. */
  lemma AssignTwiceFails(students: seq<StudentRow>, courses: seq<CourseRow>, links: set<StudentCourse>,
                         email: string, title: string)
    requires Assign(students, courses, links, email, title).Success?
    ensures var a := Assign(students, courses, links, email, title).value;
            Assign(students, courses, links + {a.link}, email, title) ==
              Failure(CannotCreateStudentCourse(UniqueViolation(StudentCoursesPrimaryKey)))
  {
  }

  /**
   * Two students share an email; the one with the greater key is stored first and
   * is already linked to the course. The assignment still succeeds: it resolves the
   * student with the lesser key, whatever the storage order.
   */
  lemma AssignPicksLeastKey(low: Uuid, high: Uuid, course: Uuid, now: Time)
    requires KeyLessEq(low, high) && low != high
    ensures var record := StudentRow(ZeroBase, "Ada", "Lovelace", "e@x.io");
            var first := NewStudentRow(record, high, now);
            var second := NewStudentRow(record, low, now);
            var c := NewCourseRow(CourseRow(ZeroBase, "Algorithms", 20, "d", "i", "c"), course, now);
            Assign([first, second], [c], {StudentCourse(high, course)}, "e@x.io", "Algorithms") ==
              Success(Assignment(second, StudentCourse(low, course)))
  {
    var record := StudentRow(ZeroBase, "Ada", "Lovelace", "e@x.io");
    var first := NewStudentRow(record, high, now);
    var second := NewStudentRow(record, low, now);
    var found := LeastKeyMatch([first, second], EmailIs("e@x.io"), StudentUuid);
    assert EmailIs("e@x.io")(second) && [first, second][1] == second;
    if found.value == first {
      KeyLessEqAntisymmetric(low, high);
    }
  }

  /**
   * A created student is found again by its email. The row found has that email,
   * but it is the stored row of the new student only when no earlier student shares
   * the email: the email column has no unique index in this service.
   */
  lemma {:induction false} CreatedStudentIsFound(rows: seq<StudentRow>, record: StudentRow, id: Uuid, now: Time)
    requires Keyed(rows, StudentUuid)
    requires record.email != ""
    requires InsertStudent(rows, NewStudentRow(record, id, now)).Success?
    ensures var after := InsertStudent(rows, NewStudentRow(record, id, now)).value;
            Keyed(after, StudentUuid) &&
            FindStudent(after, record.email).Some? && FindStudent(after, record.email).value.email == record.email
    ensures var row := NewStudentRow(record, id, now);
            (forall i :: 0 <= i < |rows| ==> rows[i].email != record.email) ==>
              FindStudent(InsertStudent(rows, row).value, record.email) == StoredStudent(row)
  {
    var row := NewStudentRow(record, id, now);
    InsertStudentKeepsKeys(rows, row);
    var stored := StoredStudent(row).value;
    assert (rows + [stored])[|rows|] == stored;
    FirstMatchAppend(rows, stored, StudentFilter(record.email));
  }

  /**
   * Two students with one email are both stored, and a lookup by that email returns
   * the first of them.
   */
  lemma SharedEmailAccepted(first: Uuid, second: Uuid, now: Time)
    requires first != second
    ensures var record := StudentRow(ZeroBase, "Ada", "Lovelace", "ada@x.io");
            var one := NewStudentRow(record, first, now);
            var two := NewStudentRow(record, second, now);
            InsertStudent([], one) == Success([one]) &&
            InsertStudent([one], two) == Success([one, two]) &&
            Keyed([one, two], StudentUuid) &&
            FindStudent([one, two], "ada@x.io") == Some(one)
  {
    var record := StudentRow(ZeroBase, "Ada", "Lovelace", "ada@x.io");
    var one := NewStudentRow(record, first, now);
    var two := NewStudentRow(record, second, now);
    assert [] + [one] == [one];
    assert [one] + [two] == [one, two];
  }

  /**
   * A student and a course are created, the course is assigned to the student once,
   * and the same assignment a second time fails on the link's key.
   */
  lemma AssignScenario(u1: Uuid, c1: Uuid, now: Time)
    ensures var ada := NewStudentRow(StudentRow(ZeroBase, "Ada", "Lovelace", "ada@x.io"), u1, now);
            var algorithms := NewCourseRow(CourseRow(ZeroBase, "Algorithms", 20, "d", "i", "c"), c1, now);
            InsertStudent([], ada) == Success([ada]) &&
            InsertCourse([], algorithms) == Success([algorithms]) &&
            Assign([ada], [algorithms], {}, "ada@x.io", "Algorithms") ==
              Success(Assignment(ada, StudentCourse(u1, c1))) &&
            Assign([ada], [algorithms], {StudentCourse(u1, c1)}, "ada@x.io", "Algorithms") ==
              Failure(CannotCreateStudentCourse(UniqueViolation(StudentCoursesPrimaryKey)))
  {
    var ada := NewStudentRow(StudentRow(ZeroBase, "Ada", "Lovelace", "ada@x.io"), u1, now);
    var algorithms := NewCourseRow(CourseRow(ZeroBase, "Algorithms", 20, "d", "i", "c"), c1, now);
    assert [] + [ada] == [ada];
    assert [] + [algorithms] == [algorithms];
  }

  /** The database: its three tables. */
  class Database {
    var students: seq<StudentRow>
    var courses: seq<CourseRow>
    var links: set<StudentCourse>

    ghost predicate Valid()
      reads this
    {
      Keyed(students, StudentUuid) && Keyed(courses, CourseUuid) && LinksResolve(students, courses, links)
    }

    /** An empty, migrated database. */
    constructor ()
      ensures Valid() && students == [] && courses == [] && links == {}
    {
      students, courses, links := [], [], {};
    }
  }

  /** A repository handle: a connection to the database `db`. */
  class PostgresDB {
    const db: Database

    /** Opens a handle on the database. */
    constructor (db: Database)
      ensures this.db == db
    {
      this.db := db;
    }

    /** Inserts the record; returns the same record, or no record and an error. */
    method CreateStudent(student: Student, id: Uuid, now: Time) returns (r: Student?, err: Option<Error>)
      requires db.Valid()
      modifies db, student.base
      ensures db.Valid()
      ensures student.base.uuid == id && student.base.createdAt.Some? && student.base.updatedAt.Some?
      ensures StudentCreated(old(db.students), old(student.Row()), id, now, db.students, student.Row(), r != null, err)
      ensures r != null ==> r == student
      ensures db.courses == old(db.courses) && db.links == old(db.links)
    {
      student.base.BeforeCreate(id);
      student.base.FillDefaults(now);
      var row := student.Row();
      var inserted := InsertStudent(db.students, row);
      if inserted.Failure? {
        return null, Some(CannotCreateStudent(inserted.error));
      }
      InsertStudentKeepsKeys(db.students, row);
      AppendKeepsLinks(db.students, db.courses, db.links, [StoredStudent(row).value], []);
      assert db.courses + [] == db.courses;
      db.students := inserted.value;
      r, err := student, None;
    }

    /** Inserts the record; returns the same record, or no record and an error. */
    method CreateCourse(course: Course, id: Uuid, now: Time) returns (r: Course?, err: Option<Error>)
      requires db.Valid()
      modifies db, course.base
      ensures db.Valid()
      ensures course.base.uuid == id && course.base.createdAt.Some? && course.base.updatedAt.Some?
      ensures CourseCreated(old(db.courses), old(course.Row()), id, now, db.courses, course.Row(), r != null, err)
      ensures r != null ==> r == course
      ensures db.students == old(db.students) && db.links == old(db.links)
    {
      course.base.BeforeCreate(id);
      course.base.FillDefaults(now);
      var row := course.Row();
      var inserted := InsertCourse(db.courses, row);
      if inserted.Failure? {
        return null, Some(CannotCreateCourse(inserted.error));
      }
      InsertCourseKeepsKeys(db.courses, row);
      AppendKeepsLinks(db.students, db.courses, db.links, [], [row]);
      assert db.students + [] == db.students;
      db.courses := inserted.value;
      r, err := course, None;
    }

    /** A new record loaded from the course found by title, or null when there is none. */
    method GetCourse(title: string) returns (r: Course?)
      requires db.Valid()
      ensures r == null <==> FindCourse(db.courses, title).None?
      ensures r != null ==> fresh(r) && fresh(r.base) && FindCourse(db.courses, title) == Some(r.Row()) && r.students == []
    {
      var found := FindCourse(db.courses, title);
      if found.None? {
        return null;
      }
      r := new Course.FromRow(found.value);
    }

    /**
     * Links the student found by email to the course found by title. Returns a new
     * record loaded from the student row; its courses are not reloaded.
     */
    method AssignCourseToStudent(email: string, courseTitle: string) returns (r: Student?, err: Option<Error>)
      requires db.Valid()
      modifies db
      ensures db.Valid()
      ensures db.students == old(db.students) && db.courses == old(db.courses)
      ensures match Assign(old(db.students), old(db.courses), old(db.links), email, courseTitle)
              case Success(a) =>
                db.links == old(db.links) + {a.link} && |db.links| == |old(db.links)| + 1 && err == None &&
                r != null && fresh(r) && fresh(r.base) && r.Row() == a.student && r.courses == []
              case Failure(e) => db.links == old(db.links) && r == null && err == Some(e)
    {
      var student := LeastKeyMatch(db.students, EmailIs(email), StudentUuid);
      if student.None? {
        return null, Some(RecordNotFound);
      }
      var course := LeastKeyMatch(db.courses, TitleIs(courseTitle), CourseUuid);
      if course.None? {
        return null, Some(RecordNotFound);
      }
      var link := StudentCourse(student.value.base.uuid, course.value.base.uuid);
      if link in db.links {
        return null, Some(CannotCreateStudentCourse(UniqueViolation(StudentCoursesPrimaryKey)));
      }
      AssignKeepsLinksResolved(db.students, db.courses, db.links, email, courseTitle);
      db.links := db.links + {link};
      r := new Student.FromRow(student.value);
      err := None;
    }

    /** A new record loaded from the student found by email, or null when there is none. */
    method GetStudent(email: string) returns (r: Student?)
      requires db.Valid()
      ensures r == null <==> FindStudent(db.students, email).None?
      ensures r != null ==> fresh(r) && fresh(r.base) && FindStudent(db.students, email) == Some(r.Row()) && r.courses == []
    {
      var found := FindStudent(db.students, email);
      if found.None? {
        return null;
      }
      r := new Student.FromRow(found.value);
    }
  }
}
