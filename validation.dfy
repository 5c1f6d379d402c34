/**
 * Guard chains of the use-case layer: each operation tests its input field by field
 * and reports the first test that fails; when all pass it delegates to the store.
 */
module Validation {
  import opened Wrappers

  /** One guard clause: whether it fails on the input, and the message it reports. */
  datatype Guard = Guard(failed: bool, message: string)

  /** The message of the first failing guard, or None when every guard passes. */
  function FirstFailure(guards: seq<Guard>): (r: Option<string>)
    ensures r.None? <==> forall i :: 0 <= i < |guards| ==> !guards[i].failed
    ensures r.Some? ==> exists i :: 0 <= i < |guards| && guards[i].failed && guards[i].message == r.value &&
                                    forall j :: 0 <= j < i ==> !guards[j].failed
  {
    if guards == [] then None
    else if guards[0].failed then Some(guards[0].message)
    else
      var r := FirstFailure(guards[1..]);
      assert forall i :: 1 <= i < |guards| ==> guards[i] == guards[1..][i - 1];
      r
  }

  /** Unfolding one guard off the front of a chain. */
  lemma FirstFailureCons(g: Guard, rest: seq<Guard>)
    ensures FirstFailure([g] + rest) == if g.failed then Some(g.message) else FirstFailure(rest)
  {
  }

  const EmailEmpty := "email can not be empty"
  const FirstNameEmpty := "first name can not be empty"
  const LastNameEmpty := "last name can not be empty"

  /** The guards on a new student, in the order both services check them. */
  function StudentGuards(email: string, firstName: string, lastName: string): seq<Guard> {
    [Guard(email == "", EmailEmpty), Guard(firstName == "", FirstNameEmpty), Guard(lastName == "", LastNameEmpty)]
  }

  /** Validation of a new student: email, then first name, then last name. */
  function CheckStudent(email: string, firstName: string, lastName: string): (r: Option<string>)
    ensures r == FirstFailure(StudentGuards(email, firstName, lastName))
    ensures r.None? <==> email != "" && firstName != "" && lastName != ""
    ensures email == "" ==> r == Some(EmailEmpty)
  {
    FirstFailureCons(Guard(email == "", EmailEmpty), [Guard(firstName == "", FirstNameEmpty), Guard(lastName == "", LastNameEmpty)]);
    FirstFailureCons(Guard(firstName == "", FirstNameEmpty), [Guard(lastName == "", LastNameEmpty)]);
    FirstFailureCons(Guard(lastName == "", LastNameEmpty), []);
    if email == "" then Some(EmailEmpty)
    else if firstName == "" then Some(FirstNameEmpty)
    else if lastName == "" then Some(LastNameEmpty)
    else None
  }
}
