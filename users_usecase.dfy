/**
 * The users service's use-case layer: field guards in a fixed order, then one call
 * to the repository, whose result and error are returned unchanged.
 */
module UsersUsecase {
  import opened Wrappers
  import opened Entity
  import opened Validation
  import opened UsersDomain
  import opened UsersStore

  /**
   * The users service's business logic over its two repositories: it writes
   * through `create` and reads through `get`.
   */
  class Usecase {
    const create: PostgresDB
    const get: PostgresDB

    /** Construction panics unless both repositories are set. */
    constructor (create: PostgresDB?, get: PostgresDB?)
      requires create != null
      requires get != null
      ensures this.create == create && this.get == get
    {
      this.create := create;
      this.get := get;
    }

    method CreateStudent(student: Student, id: Uuid, now: Time) returns (r: Student?, err: Option<Error>)
      requires create.db.Valid()
      modifies create.db, student.base
      ensures create.db.Valid()
      ensures match CheckStudent(old(student.email), old(student.firstName), old(student.lastName))
              case Some(message) =>
                r == null && err == Some(Invalid(message)) && unchanged(create.db) && unchanged(student.base)
              case None =>
                StudentCreated(old(create.db.students), old(student.Row()), id, now,
                               create.db.students, student.Row(), r != null, err) &&
                (r != null ==> r == student)
    {
      var invalid := CheckStudent(student.email, student.firstName, student.lastName);
      if invalid.Some? {
        return null, Some(Invalid(invalid.value));
      }
      r, err := create.CreateStudent(student, id, now);
    }

    /** Only a missing key is rejected; an empty one goes to the repository. */
    method GetStudent(email: Option<string>) returns (r: Student?, err: Option<Error>)
      requires get.db.Valid()
      ensures email.None? ==> r == null && err == Some(Invalid(EmailEmpty))
      ensures email.Some? ==>
                err == None && (r == null <==> FindStudent(get.db.students, email.value).None?) &&
                (r != null ==> fresh(r) && FindStudent(get.db.students, email.value) == Some(r.Row()))
    {
      if email.None? {
        return null, Some(Invalid(EmailEmpty));
      }
      r := get.GetStudent(email.value);
      err := None;
    }
  }

  /** The service's wiring: two handles opened on the one database, then the use case over them. */
  method Wire(db: Database) returns (u: Usecase)
    ensures fresh(u) && u.create.db == db && u.get.db == db && u.create != u.get
  {
    var create := new PostgresDB(db);
    var get := new PostgresDB(db);
    u := new Usecase(create, get);
  }

  /**
   * When both handles open one database, a student created through the use case
   * is then found through it by the same email, as the row the table stored for it.
   */
  method RoundTrip(u: Usecase, student: Student, id: Uuid, now: Time) returns (created: Student?, found: Student?)
    requires u.create.db == u.get.db && u.create.db.Valid()
    modifies u.create.db, student.base
    ensures created != null ==>
              created == student && found != null &&
              found.base.Row() == created.base.Row() && found.email == created.email &&
              StoredStudent(created.Row()) == Some(found.Row())
  {
    ghost var before := u.create.db.students;
    ghost var record := student.Row();
    var err;
    created, err := u.CreateStudent(student, id, now);
    if created == null {
      return created, null;
    }
    UsersStore.CreateThenGet(before, record, id, now);
    found, err := u.GetStudent(Some(student.email));
  }
}
