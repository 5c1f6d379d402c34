/**
 * The courses service's use-case layer: field guards in a fixed order, then one
 * call to the repository, whose result and error are returned unchanged.
 */
module CoursesUsecase {
  import opened Wrappers
  import opened Entity
  import opened Validation
  import opened CoursesDomain
  import opened CoursesStore

  const DescriptionEmpty := "course's description can not be empty"
  const InstructorEmpty := "course's instructor can not be empty"
  const PriceZero := "course's price can not be zero"
  const TitleEmpty := "course's title can not be empty"
  const CategoryEmpty := "course's category can not be empty"
  const StudentEmailEmpty := "student's email can not be empty"
  const CourseTitleNil := "course title can not be empty"

  /** The guards on a new course, in the order they are checked. */
  function CourseGuards(c: CourseRow): seq<Guard> {
    [Guard(c.description == "", DescriptionEmpty), Guard(c.instructor == "", InstructorEmpty),
     Guard(c.price == 0, PriceZero), Guard(c.title == "", TitleEmpty), Guard(c.category == "", CategoryEmpty)]
  }

  /** Validation of a new course: description, instructor, price, title, category. */
  function CheckCourse(c: CourseRow): (r: Option<string>)
    ensures r == FirstFailure(CourseGuards(c))
    ensures r.None? <==>
              c.description != "" && c.instructor != "" && c.price > 0 && c.title != "" && c.category != ""
  {
    FirstFailureCons(Guard(c.description == "", DescriptionEmpty), CourseGuards(c)[1..]);
    FirstFailureCons(Guard(c.instructor == "", InstructorEmpty), CourseGuards(c)[2..]);
    FirstFailureCons(Guard(c.price == 0, PriceZero), CourseGuards(c)[3..]);
    FirstFailureCons(Guard(c.title == "", TitleEmpty), CourseGuards(c)[4..]);
    FirstFailureCons(Guard(c.category == "", CategoryEmpty), []);
    if c.description == "" then Some(DescriptionEmpty)
    else if c.instructor == "" then Some(InstructorEmpty)
    else if c.price == 0 then Some(PriceZero)
    else if c.title == "" then Some(TitleEmpty)
    else if c.category == "" then Some(CategoryEmpty)
    else None
  }

  /** Validation of an assignment request: the email first, then the course title. */
  function CheckAssign(email: string, courseTitle: string): (r: Option<string>)
    ensures r == FirstFailure([Guard(email == "", StudentEmailEmpty), Guard(courseTitle == "", TitleEmpty)])
    ensures r.None? <==> email != "" && courseTitle != ""
    ensures email == "" ==> r == Some(StudentEmailEmpty)
  {
    FirstFailureCons(Guard(email == "", StudentEmailEmpty), [Guard(courseTitle == "", TitleEmpty)]);
    FirstFailureCons(Guard(courseTitle == "", TitleEmpty), []);
    if email == "" then Some(StudentEmailEmpty)
    else if courseTitle == "" then Some(TitleEmpty)
    else None
  }

  /**
   * The courses service's business logic over its two repositories: it writes
   * through `create` and reads through `get`.
   */
  class Usecase {
    const create: PostgresDB
    const get: PostgresDB

    /** Construction panics unless both repositories are set. */
    constructor (create: PostgresDB?, get: PostgresDB?)
      requires create != null
      requires get != null
      ensures this.create == create && this.get == get
    {
      this.create := create;
      this.get := get;
    }

    method CreateStudent(student: Student, id: Uuid, now: Time) returns (r: Student?, err: Option<Error>)
      requires create.db.Valid()
      modifies create.db, student.base
      ensures create.db.Valid()
      ensures match CheckStudent(old(student.email), old(student.firstName), old(student.lastName))
              case Some(message) =>
                r == null && err == Some(Invalid(message)) && unchanged(create.db) && unchanged(student.base)
              case None =>
                StudentCreated(old(create.db.students), old(student.Row()), id, now,
                               create.db.students, student.Row(), r != null, err) &&
                (r != null ==> r == student) &&
                create.db.courses == old(create.db.courses) && create.db.links == old(create.db.links)
    {
      var invalid := CheckStudent(student.email, student.firstName, student.lastName);
      if invalid.Some? {
        return null, Some(Invalid(invalid.value));
      }
      r, err := create.CreateStudent(student, id, now);
    }

    method CreateCourse(course: Course, id: Uuid, now: Time) returns (r: Course?, err: Option<Error>)
      requires create.db.Valid()
      modifies create.db, course.base
      ensures create.db.Valid()
      ensures match CheckCourse(old(course.Row()))
              case Some(message) =>
                r == null && err == Some(Invalid(message)) && unchanged(create.db) && unchanged(course.base)
              case None =>
                CourseCreated(old(create.db.courses), old(course.Row()), id, now,
                              create.db.courses, course.Row(), r != null, err) &&
                (r != null ==> r == course) &&
                create.db.students == old(create.db.students) && create.db.links == old(create.db.links)
    {
      var invalid := CheckCourse(course.Row());
      if invalid.Some? {
        return null, Some(Invalid(invalid.value));
      }
      r, err := create.CreateCourse(course, id, now);
    }

    method AssignCourseToStudent(email: string, courseTitle: string) returns (r: Student?, err: Option<Error>)
      requires create.db.Valid()
      modifies create.db
      ensures create.db.Valid()
      ensures create.db.students == old(create.db.students) && create.db.courses == old(create.db.courses)
      ensures match CheckAssign(email, courseTitle)
              case Some(message) => r == null && err == Some(Invalid(message)) && create.db.links == old(create.db.links)
              case None =>
                match Assign(old(create.db.students), old(create.db.courses), old(create.db.links), email, courseTitle)
                case Success(a) =>
                  create.db.links == old(create.db.links) + {a.link} && err == None &&
                  r != null && fresh(r) && r.Row() == a.student && r.courses == []
                case Failure(e) => create.db.links == old(create.db.links) && r == null && err == Some(e)
    {
      var invalid := CheckAssign(email, courseTitle);
      if invalid.Some? {
        return null, Some(Invalid(invalid.value));
      }
      r, err := create.AssignCourseToStudent(email, courseTitle);
    }

    /** Only a missing key is rejected; an empty one goes to the repository. */
    method GetStudent(email: Option<string>) returns (r: Student?, err: Option<Error>)
      requires get.db.Valid()
      ensures email.None? ==> r == null && err == Some(Invalid(EmailEmpty))
      ensures email.Some? ==>
                err == None && (r == null <==> FindStudent(get.db.students, email.value).None?) &&
                (r != null ==> fresh(r) && FindStudent(get.db.students, email.value) == Some(r.Row()) && r.courses == [])
    {
      if email.None? {
        return null, Some(Invalid(EmailEmpty));
      }
      r := get.GetStudent(email.value);
      err := None;
    }

    /** Only a missing key is rejected; an empty one goes to the repository. */
    method GetCourse(title: Option<string>) returns (r: Course?, err: Option<Error>)
      requires get.db.Valid()
      ensures title.None? ==> r == null && err == Some(Invalid(CourseTitleNil))
      ensures title.Some? ==>
                err == None && (r == null <==> FindCourse(get.db.courses, title.value).None?) &&
                (r != null ==> fresh(r) && FindCourse(get.db.courses, title.value) == Some(r.Row()) && r.students == [])
    {
      if title.None? {
        return null, Some(Invalid(CourseTitleNil));
      }
      r := get.GetCourse(title.value);
      err := None;
    }
  }

  /** The service's wiring: two handles opened on the one database, then the use case over them. */
  method Wire(db: Database) returns (u: Usecase)
    ensures fresh(u) && u.create.db == db && u.get.db == db && u.create != u.get
  {
    var create := new PostgresDB(db);
    var get := new PostgresDB(db);
    u := new Usecase(create, get);
  }

  /**
   * When both handles open one database, a student created through the use case
   * is then found through it by the same email. The row found is the one stored for
   * the new student when no student held that email before.
   */
  method RoundTrip(u: Usecase, student: Student, id: Uuid, now: Time) returns (created: Student?, found: Student?)
    requires u.create.db == u.get.db && u.create.db.Valid()
    modifies u.create.db, student.base
    ensures created != null ==> created == student && found != null && found.email == created.email
    ensures created != null && (forall i :: 0 <= i < |old(u.create.db.students)| ==> old(u.create.db.students)[i].email != created.email) ==>
              StoredStudent(created.Row()) == Some(found.Row())
  {
    ghost var before := u.create.db.students;
    ghost var record := student.Row();
    var err;
    created, err := u.CreateStudent(student, id, now);
    if created == null {
      return created, null;
    }
    CreatedStudentIsFound(before, record, id, now);
    found, err := u.GetStudent(Some(student.email));
  }
}
