/**
 * Entities of the courses service: students, courses and the link table between
 * them. Records are objects because the store fills their identity and timestamps
 * in place; a table row is the value of a record's columns.
 */
module CoursesDomain {
  import opened Wrappers
  import opened Entity

  /** Go's `uint` on a 64-bit platform: a price is never negative. */
  type Price = x: int | 0 <= x < 0x1_0000_0000_0000_0000

  /** The columns of a student row. The email column carries no unique index here. */
  datatype StudentRow = StudentRow(base: BaseRow, firstName: string, lastName: string, email: string)

  /** The columns of a course row. The title column carries no unique index. */
  datatype CourseRow = CourseRow(base: BaseRow, title: string, price: Price, description: string,
                                 instructor: string, category: string)

  /** A row of the link table; the pair of UUIDs is its composite primary key. */
  datatype StudentCourse = StudentCourse(studentUuid: string, courseUuid: string)

  /** The uniqueness constraints the database enforces in this service. */
  datatype Constraint = StudentsPrimaryKey | CoursesPrimaryKey | StudentCoursesPrimaryKey

  /**
   * A failed insert: a uniqueness constraint refused the row, or a name does not
   * fit its `varchar(255)` column.
   */
  datatype DbError = UniqueViolation(constraint: Constraint) | ValueTooLong

  /** The errors the service's core returns. */
  datatype Error =
    | Invalid(message: string)                      // a use-case guard failed
    | CannotCreateStudent(cause: DbError)
    | CannotCreateCourse(cause: DbError)
    | RecordNotFound                                // the ORM's error for an empty `First`
    | CannotCreateStudentCourse(cause: DbError)

  class Student {
    const base: AbstractBase
    var firstName: string
    var lastName: string
    var email: string
    /** The many-to-many association; it is filled only when explicitly preloaded. */
    var courses: seq<Course>

    /** A record holding the given columns and no associated courses. */
    constructor FromRow(row: StudentRow)
      ensures Row() == row && courses == [] && fresh(base)
    {
      base := new AbstractBase(row.base);
      firstName, lastName, email := row.firstName, row.lastName, row.email;
      courses := [];
    }

    function Row(): StudentRow
      reads this, base
    {
      StudentRow(base.Row(), firstName, lastName, email)
    }
  }

  class Course {
    const base: AbstractBase
    var title: string
    var price: Price
    var description: string
    var instructor: string
    var category: string
    /** The many-to-many association; it is filled only when explicitly preloaded. */
    var students: seq<Student>

    /** A record holding the given columns and no associated students. */
    constructor FromRow(row: CourseRow)
      ensures Row() == row && students == [] && fresh(base)
    {
      base := new AbstractBase(row.base);
      title, price, description := row.title, row.price, row.description;
      instructor, category := row.instructor, row.category;
      students := [];
    }

    function Row(): CourseRow
      reads this, base
    {
      CourseRow(base.Row(), title, price, description, instructor, category)
    }
  }
}
