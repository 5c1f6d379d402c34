/**
 * The users service's store: a database with one students table, which has a
 * primary key on the UUID and a unique index on the email; a `PostgresDB` is one
 * handle on it, and several handles may open the same database.
 */
module UsersStore {
  import opened Wrappers
  import opened Entity
  import opened Tables
  import opened UsersDomain

  /**
   * The struct condition `Student{Email: email}`: the ORM drops zero-valued fields
   * from a struct condition, so an empty email constrains nothing.
   */
  function StudentFilter(email: string): StudentRow -> bool {
    (s: StudentRow) => email == "" || s.email == email
  }

  /** The length of the `varchar` name columns. */
  const NameLength := 255

  /** The zero-valued record a query result is scanned into. */
  const ZeroStudent := StudentRow(ZeroBase, "", "", "")

  /** The primary key of a student row. */
  function StudentUuid(s: StudentRow): string { s.base.uuid }

  predicate HasEmail(rows: seq<StudentRow>, email: string) {
    exists i :: 0 <= i < |rows| && rows[i].email == email
  }

  /**
   * The table's constraints: every row has a non-empty primary key, no two rows
   * share a key, and no two share an email.
   */
  predicate Indexed(rows: seq<StudentRow>) {
    Keyed(rows, StudentUuid) &&
    forall i, j :: 0 <= i < j < |rows| ==> rows[i].email != rows[j].email
  }

  /** The row a successful create stores for a student record. */
  function NewStudentRow(record: StudentRow, id: Uuid, now: Time): StudentRow {
    record.(base := Created(record.base, id, now))
  }

  /**
   * The student row the table holds for the given columns: both names pass through
   * their `varchar(255)` columns; None when one of them does not fit.
   */
  function StoredStudent(row: StudentRow): (r: Option<StudentRow>)
    ensures r.None? <==> Varchar(row.firstName, NameLength).None? || Varchar(row.lastName, NameLength).None?
    ensures r.Some? ==> r.value.base == row.base && r.value.email == row.email &&
                        r.value.firstName <= row.firstName && |r.value.firstName| <= NameLength &&
                        r.value.lastName <= row.lastName && |r.value.lastName| <= NameLength
    ensures r.Some? ==> r.value.firstName == Varchar(row.firstName, NameLength).value &&
                        r.value.lastName == Varchar(row.lastName, NameLength).value
    ensures |row.firstName| <= NameLength && |row.lastName| <= NameLength ==> r == Some(row)
  {
    match Varchar(row.firstName, NameLength)
    case None => None
    case Some(first) =>
      match Varchar(row.lastName, NameLength)
      case None => None
      case Some(last) => Some(row.(firstName := first, lastName := last))
  }

  /**
   * An insert into the students table: a name that does not fit is refused first,
   * then a clash on the primary key, then a clash on the email index.
   */
  function InsertStudent(rows: seq<StudentRow>, row: StudentRow): Result<seq<StudentRow>, DbError> {
    match StoredStudent(row)
    case None => Failure(ValueTooLong)
    case Some(stored) =>
      if HasKey(rows, StudentUuid, stored.base.uuid) then Failure(UniqueViolation(StudentsPrimaryKey))
      else if HasEmail(rows, stored.email) then Failure(UniqueViolation(StudentsEmailIndex))
      else Success(rows + [stored])
  }

  /**
   * An insert keeps keys and emails unique; it succeeds exactly when the names fit
   * and both the key and the email are new, and then appends the stored row.
   */
  lemma InsertKeepsKeys(rows: seq<StudentRow>, row: StudentRow)
    requires Indexed(rows) && row.base.uuid != ""
    ensures InsertStudent(rows, row).Success? <==>
              StoredStudent(row).Some? && !HasKey(rows, StudentUuid, row.base.uuid) && !HasEmail(rows, row.email)
    ensures InsertStudent(rows, row).Success? ==>
              InsertStudent(rows, row).value == rows + [StoredStudent(row).value] &&
              Indexed(InsertStudent(rows, row).value)
  {
    if InsertStudent(rows, row).Success? {
      AppendKeyed(rows, StoredStudent(row).value, StudentUuid);
    }
  }

  /** A name longer than its column, with more than spaces past the limit, is refused. */
  lemma LongNameRejected(rows: seq<StudentRow>, row: StudentRow)
    requires |row.lastName| > NameLength && row.lastName[NameLength] != ' '
    ensures InsertStudent(rows, row) == Failure(ValueTooLong)
  {
  }

  /** A second student with a stored email is rejected, whatever identity it gets. */
  lemma DuplicateEmailRejected(rows: seq<StudentRow>, record: StudentRow, id: Uuid, now: Time)
    requires Indexed(rows)
    requires HasEmail(rows, record.email)
    ensures InsertStudent(rows, NewStudentRow(record, id, now)).Failure?
  {
  }

  /**
   * The outcome of creating a student from `record`: on success the table gains
   * exactly the stored row; on failure the table is unchanged. Either way the record
   * holds the new identity, the defaults and the timestamps, set before the insert.
   */
  predicate StudentCreated(before: seq<StudentRow>, record: StudentRow, id: Uuid, now: Time,
                           after: seq<StudentRow>, recordAfter: StudentRow, ok: bool, err: Option<Error>)
  {
    var row := NewStudentRow(record, id, now);
    recordAfter == row &&
    match InsertStudent(before, row)
    case Success(rows) => ok && err == None && after == rows
    case Failure(e) => !ok && err == Some(CannotCreateStudent(e)) && after == before
  }

  /**
   * `GetStudent`'s lookup: scan into a zero record with the struct condition, and
   * report "absent" when the record's identity is still empty.
   */
  function FindStudent(rows: seq<StudentRow>, email: string): (r: Option<StudentRow>)
    requires Indexed(rows)
    ensures r.Some? ==> r.value in rows
    ensures email != "" ==> (r.None? <==> !HasEmail(rows, email))
    ensures email != "" && r.Some? ==> r.value.email == email
  {
    var found := FirstMatch(rows, StudentFilter(email));
    var student := if found.Some? then found.value else ZeroStudent;
    if student.base.uuid == "" then None else Some(student)
  }

  /** With unique emails, the stored row of a created student is the one found by its email. */
  lemma {:induction false} CreateThenGet(rows: seq<StudentRow>, record: StudentRow, id: Uuid, now: Time)
    requires Indexed(rows)
    requires record.email != ""
    requires InsertStudent(rows, NewStudentRow(record, id, now)).Success?
    ensures var row := NewStudentRow(record, id, now);
            var after := InsertStudent(rows, row).value;
            Indexed(after) && FindStudent(after, record.email) == StoredStudent(row)
  {
    var row := NewStudentRow(record, id, now);
    InsertKeepsKeys(rows, row);
    var stored := StoredStudent(row).value;
    FirstMatchAppend(rows, stored, StudentFilter(record.email));
    assert FirstMatch(rows, StudentFilter(record.email)).None?;
  }

  /** The database: its students table. */
  class Database {
    var students: seq<StudentRow>

    ghost predicate Valid()
      reads this
    {
      Indexed(students)
    }

    /** An empty, migrated database. */
    constructor ()
      ensures Valid() && students == []
    {
      students := [];
    }
  }

  /** A repository handle: a connection to the database `db`. */
  class PostgresDB {
    const db: Database

    /** Opens a handle on the database. */
    constructor (db: Database)
      ensures this.db == db
    {
      this.db := db;
    }

    /** Inserts the record; returns the same record, or no record and an error. */
    method CreateStudent(student: Student, id: Uuid, now: Time) returns (r: Student?, err: Option<Error>)
      requires db.Valid()
      modifies db, student.base
      ensures db.Valid()
      ensures student.base.uuid == id && student.base.createdAt.Some? && student.base.updatedAt.Some?
      ensures StudentCreated(old(db.students), old(student.Row()), id, now, db.students, student.Row(), r != null, err)
      ensures r != null ==> r == student
    {
      student.base.BeforeCreate(id);
      student.base.FillDefaults(now);
      var row := student.Row();
      var inserted := InsertStudent(db.students, row);
      if inserted.Failure? {
        return null, Some(CannotCreateStudent(inserted.error));
      }
      InsertKeepsKeys(db.students, row);
      db.students := inserted.value;
      r, err := student, None;
    }

    /** A new record loaded from the student found by email, or null when there is none. */
    method GetStudent(email: string) returns (r: Student?)
      requires db.Valid()
      ensures r == null <==> FindStudent(db.students, email).None?
      ensures r != null ==> fresh(r) && fresh(r.base) && FindStudent(db.students, email) == Some(r.Row())
    {
      var found := FindStudent(db.students, email);
      if found.None? {
        return null;
      }
      r := new Student.FromRow(found.value);
    }
  }
}
