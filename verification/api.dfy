/** The record normalisation the API client applies to every record of the list endpoint.
    The HTTP calls themselves are outside the model; their outcomes are inputs elsewhere. */
module Api {
  import opened Records
  import opened Text

  /** The department index `Math.floor(draw * departments.length)` for a `Math.random()`
      draw, which always lies in [0, 1). */
  function DepartmentIndex(draw: real): (i: nat)
    requires 0.0 <= draw < 1.0
    ensures i < |Departments|
    ensures i as real <= draw * |Departments| as real < i as real + 1.0
  {
    (draw * |Departments| as real).Floor
  }

  /** `processUserData`: keeps every field of the raw record, splits `name` at each single
      space into a first name (the text before the first space) and a last name (the
      remaining parts re-joined with spaces), and picks a department from the fixed list. */
  function ProcessUser(raw: RawUser, draw: real): (u: User)
    requires 0.0 <= draw < 1.0
    ensures u.id == raw.id && u.email == raw.email
    ensures u.rest == raw.rest["name" := raw.name]
    ensures ' ' !in u.firstName
    ensures ' ' in raw.name ==> raw.name == u.firstName + " " + u.lastName
    ensures ' ' !in raw.name ==> u.firstName == raw.name && u.lastName == ""
    ensures u.department in Departments
  {
    var parts := Split(raw.name, ' ');
    SplitParts(raw.name, ' ');
    JoinTailOfSplit(raw.name, ' ');
    User(raw.id, parts[0], Join(parts[1..], ' '), raw.email,
         Departments[DepartmentIndex(draw)], raw.rest["name" := raw.name])
  }

  /** `getUsers` once the response has arrived: every raw record processed, one random
      draw each, order kept. */
  function GetUsers(raws: seq<RawUser>, draws: seq<real>): (users: seq<User>)
    requires |draws| == |raws|
    requires forall i :: 0 <= i < |draws| ==> 0.0 <= draws[i] < 1.0
    ensures |users| == |raws|
    ensures forall i :: 0 <= i < |raws| ==> users[i].id == raws[i].id && users[i].email == raws[i].email
    ensures forall i :: 0 <= i < |raws| ==> users[i].department in Departments
    ensures forall i :: 0 <= i < |raws| ==> users[i].rest == raws[i].rest["name" := raws[i].name]
    ensures forall i :: 0 <= i < |raws| ==> ' ' !in users[i].firstName
    ensures forall i :: 0 <= i < |raws| && ' ' in raws[i].name ==>
      raws[i].name == users[i].firstName + " " + users[i].lastName
    ensures forall i :: 0 <= i < |raws| && ' ' !in raws[i].name ==>
      users[i].firstName == raws[i].name && users[i].lastName == ""
  {
    if raws == [] then [] else [ProcessUser(raws[0], draws[0])] + GetUsers(raws[1..], draws[1..])
  }
}
