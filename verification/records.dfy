/** The data the dashboard handles: user records, the form's values, and the outcome of
    a call to the remote API. */
module Records {

  datatype Option<T> = None | Some(value: T)

  /** The outcome of one request to the remote API. The error object is never inspected:
      every failure (transport, 4xx, 5xx) is the same `Failed`. */
  datatype Result<T> = Ok(value: T) | Failed

  /** A user record as the table shows it. `rest` holds every other field the server sent
      (`name`, `username`, `phone`, ...), by field name; the model never inspects those values. */
  datatype User = User(
    id: int,
    firstName: string,
    lastName: string,
    email: string,
    department: string,
    rest: map<string, string>)

  /** A user record as the remote list endpoint returns it: one `name` instead of two. */
  datatype RawUser = RawUser(id: int, name: string, email: string, rest: map<string, string>)

  /** The four values the user form edits and submits. */
  datatype Form = Form(firstName: string, lastName: string, email: string, department: string)

  /** The fixed department list: the one the list endpoint draws from at random, and the
      options of the form's department selector, in the same order. */
  const Departments: seq<string> := ["Engineering", "Marketing", "Sales", "Human Resources", "Design"]

  /** The department a fresh form starts with and a blank department falls back to. */
  const DefaultDepartment: string := "Engineering"

  /** The ids of a list of records, in list order. */
  function Ids(users: seq<User>): (ids: seq<int>)
    ensures |ids| == |users|
    ensures forall i :: 0 <= i < |users| ==> ids[i] == users[i].id
  {
    if users == [] then [] else [users[0].id] + Ids(users[1..])
  }

  /** No two records of the list share an id. */
  predicate UniqueIds(users: seq<User>)
  {
    forall i, j :: 0 <= i < j < |users| ==> users[i].id != users[j].id
  }
}
