/** Entities of the users service: a student whose email is unique among students. */
module UsersDomain {
  import opened Wrappers
  import opened Entity

  /** The columns of a student row. */
  datatype StudentRow = StudentRow(base: BaseRow, firstName: string, lastName: string, email: string)

  /** The uniqueness constraints the database enforces in this service. */
  datatype Constraint = StudentsPrimaryKey | StudentsEmailIndex

  /**
   * A failed insert: a uniqueness constraint refused the row, or a name does not
   * fit its `varchar(255)` column.
   */
  datatype DbError = UniqueViolation(constraint: Constraint) | ValueTooLong

  /** The errors the service's core returns. */
  datatype Error =
    | Invalid(message: string)                      // a use-case guard failed
    | CannotCreateStudent(cause: DbError)

  class Student {
    const base: AbstractBase
    var firstName: string
    var lastName: string
    var email: string

    /** A record holding the given columns. */
    constructor FromRow(row: StudentRow)
      ensures Row() == row && fresh(base)
    {
      base := new AbstractBase(row.base);
      firstName, lastName, email := row.firstName, row.lastName, row.email;
    }

    function Row(): StudentRow
      reads this, base
    {
      StudentRow(base.Row(), firstName, lastName, email)
    }
  }
}
