/** The application state: the record list, the loading flag and the load error, and how
    the outcome of each request to the remote API changes them. A request's outcome and
    the delete confirmation are inputs; a failure's alert changes no state. */
module App {
  import opened Records
  import opened Seqs
  import opened Api
  import opened UserForm
  import opened UserTable

  /** The message shown when the initial load fails. */
  const FetchError: string := "Failed to fetch users. Please try again later."

  datatype AppState = AppState(users: seq<User>, loading: bool, error: Option<string>)

  /** Before the first load completes: no records, loading, no error. */
  const InitialApp: AppState := AppState([], true, None)

  /** The table is rendered only once loading has ended without an error. */
  predicate ShowsTable(s: AppState)
  {
    !s.loading && s.error.None?
  }

  /** `fetchUsers`: the processed records and no error on success, the fixed message on
      failure; loading ends either way. */
  function FetchUsers(s: AppState, response: Result<seq<RawUser>>, draws: seq<real>): (r: AppState)
    requires response.Ok? ==> |draws| == |response.value|
    requires response.Ok? ==> forall i :: 0 <= i < |draws| ==> 0.0 <= draws[i] < 1.0
    ensures !r.loading
    ensures ShowsTable(r) <==> response.Ok?
    ensures response.Ok? ==> r.error == None && r.users == GetUsers(response.value, draws)
    ensures response.Ok? ==> |r.users| == |response.value|
    ensures response.Ok? ==> forall i :: 0 <= i < |r.users| ==>
      r.users[i].id == response.value[i].id && r.users[i].department in Departments
    ensures response.Failed? ==> r.users == s.users && r.error == Some(FetchError)
  {
    match response
    case Ok(raws) => AppState(GetUsers(raws, draws), false, None)
    case Failed => s.(loading := false, error := Some(FetchError))
  }

  // ---------------------------------------------------------------------------
  // Create

  /** `handleAddUser`: on success the server's echo, with the form's first name, last name
      and department laid over it, goes in front of the list. */
  function AddUser(users: seq<User>, data: Form, response: Result<User>): (r: seq<User>)
    ensures response.Failed? ==> r == users
    ensures response.Ok? ==> |r| == |users| + 1 && r[1..] == users
    ensures response.Ok? ==>
      var echo := response.value;
      && r[0].id == echo.id && r[0].email == echo.email && r[0].rest == echo.rest
      && r[0].firstName == data.firstName && r[0].lastName == data.lastName
      && r[0].department == data.department
  {
    match response
    case Ok(echo) =>
      [echo.(firstName := data.firstName, lastName := data.lastName, department := data.department)] + users
    case Failed => users
  }

  // ---------------------------------------------------------------------------
  // Update

  /** The record `u` with the whole submitted form spread over it. */
  function Overwrite(u: User, data: Form): User
  {
    u.(firstName := data.firstName, lastName := data.lastName, email := data.email, department := data.department)
  }

  /** `handleUpdateUser`: on success every record with the id takes the submitted values;
      every other record, the order and the length stay as they were. The echo is unused. */
  function UpdateUser(users: seq<User>, id: int, data: Form, response: Result<User>): (r: seq<User>)
    ensures response.Failed? ==> r == users
    ensures |r| == |users|
    ensures forall i :: 0 <= i < |users| && users[i].id != id ==> r[i] == users[i]
    ensures response.Ok? ==> forall i :: 0 <= i < |users| && users[i].id == id ==>
      && r[i].id == id && r[i].rest == users[i].rest
      && r[i].firstName == data.firstName && r[i].lastName == data.lastName
      && r[i].email == data.email && r[i].department == data.department
  {
    match response
    case Ok(_) => seq(|users|, i requires 0 <= i < |users| => if users[i].id == id then Overwrite(users[i], data) else users[i])
    case Failed => users
  }

  // ---------------------------------------------------------------------------
  // Delete

  /** The filter `u => u.id !== id` of a delete. */
  function OtherThan(id: int): User -> bool
  {
    (u: User) => u.id != id
  }

  /** `handleDeleteUser`: only a confirmed and successful request removes anything, and
      then it removes exactly the records with the id. */
  function DeleteUser(users: seq<User>, id: int, confirmed: bool, response: Result<()>): (r: seq<User>)
    ensures !confirmed || response.Failed? ==> r == users
    ensures confirmed && response.Ok? ==>
      && IsSubsequence(r, users)
      && (forall u :: multiset(r)[u] == if u.id == id then 0 else multiset(users)[u])
      && (forall u :: u in r <==> u in users && u.id != id)
  {
    if confirmed && response.Ok? then
      var keep := OtherThan(id);
      FilterIsSubsequence(users, keep);
      FilterMultiset(users, keep);
      FilterMembership(users, keep);
      Filter(users, keep)
    else users
  }

  // ---------------------------------------------------------------------------
  // Properties across operations

  /** Adding a record with a fresh id keeps the ids unique. */
  lemma AddKeepsUniqueIds(users: seq<User>, data: Form, echo: User)
    requires UniqueIds(users)
    requires forall i :: 0 <= i < |users| ==> users[i].id != echo.id
    ensures UniqueIds(AddUser(users, data, Ok(echo)))
  {
    var r := AddUser(users, data, Ok(echo));
    forall i, j | 0 <= i < j < |r| ensures r[i].id != r[j].id {
      assert r[j] == users[j - 1];
      if i > 0 {
        assert r[i] == users[i - 1];
      }
    }
  }

  /** An update changes no id and no position, so unique ids stay unique. */
  lemma UpdateKeepsIds(users: seq<User>, id: int, data: Form, response: Result<User>)
    ensures Ids(UpdateUser(users, id, data, response)) == Ids(users)
    ensures UniqueIds(users) ==> UniqueIds(UpdateUser(users, id, data, response))
  {
    var r := UpdateUser(users, id, data, response);
    assert forall i :: 0 <= i < |users| ==> r[i].id == users[i].id;
  }

  /** Submitting the same edit twice has the effect of submitting it once. */
  lemma UpdateIdempotent(users: seq<User>, id: int, data: Form, echo: User)
    ensures var once := UpdateUser(users, id, data, Ok(echo));
      UpdateUser(once, id, data, Ok(echo)) == once
  {
  }

  /** Deleting twice removes no more than deleting once. */
  lemma DeleteIdempotent(users: seq<User>, id: int)
    ensures var once := DeleteUser(users, id, true, Ok(()));
      DeleteUser(once, id, true, Ok(())) == once
  {
    FilterIdempotent(users, OtherThan(id));
  }

  /** With unique ids, deleting a present id removes exactly one record. */
  lemma DeleteRemovesOne(users: seq<User>, k: int)
    requires UniqueIds(users) && 0 <= k < |users|
    ensures |DeleteUser(users, users[k].id, true, Ok(()))| == |users| - 1
  {
    var id := users[k].id;
    var keep := OtherThan(id);
    assert users == users[..k] + [users[k]] + users[k + 1..];
    FilterAppend(users[..k] + [users[k]], users[k + 1..], keep);
    FilterAppend(users[..k], [users[k]], keep);
    FilterKeepsAll(users[..k], keep);
    FilterKeepsAll(users[k + 1..], keep);
  }

  /** Deleting the id of a record just added restores the list it was added to. */
  lemma AddThenDelete(users: seq<User>, data: Form, echo: User)
    requires forall i :: 0 <= i < |users| ==> users[i].id != echo.id
    ensures DeleteUser(AddUser(users, data, Ok(echo)), echo.id, true, Ok(())) == users
  {
    var added := AddUser(users, data, Ok(echo));
    var keep := OtherThan(echo.id);
    assert added == [added[0]] + users;
    FilterAppend([added[0]], users, keep);
    FilterKeepsAll(users, keep);
  }

  /** Delete keeps unique ids unique. */
  lemma DeleteKeepsUniqueIds(users: seq<User>, id: int, confirmed: bool, response: Result<()>)
    requires UniqueIds(users)
    ensures UniqueIds(DeleteUser(users, id, confirmed, response))
  {
    if confirmed && response.Ok? {
      FilterKeepsUnique(users, OtherThan(id));
    }
  }

  /** A filtered list of records with unique ids has unique ids. */
  lemma {:induction false} FilterKeepsUnique(users: seq<User>, p: User -> bool)
    requires UniqueIds(users)
    ensures UniqueIds(Filter(users, p))
    decreases |users|
  {
    if users != [] {
      var tail := Filter(users[1..], p);
      FilterKeepsUnique(users[1..], p);
      FilterMembership(users[1..], p);
      if p(users[0]) {
        var r := Filter(users, p);
        assert r == [users[0]] + tail;
        forall j | 0 < j < |r| ensures r[0].id != r[j].id {
          assert r[j] == tail[j - 1];
          assert r[j] in users[1..];
        }
        forall i, j | 0 < i < j < |r| ensures r[i].id != r[j].id {
          assert r[i] == tail[i - 1] && r[j] == tail[j - 1];
        }
      }
    }
  }

  // ---------------------------------------------------------------------------
  // From the dialog to the list

  /** The application's reaction to a request from the table. */
  function ApplyRequest(users: seq<User>, request: Request, response: Result<User>): seq<User>
  {
    match request
    case AddRequest(data) => AddUser(users, data, response)
    case UpdateRequest(id, data) => UpdateUser(users, id, data, response)
  }

  /** Opening the dialog on a record and saving it unchanged leaves the list as it was,
      provided the record's department is filled in and no other record shares its id
      (an edit overwrites every record with the id). */
  lemma EditUnchangedIsNoOp(users: seq<User>, k: int, echo: User)
    requires 0 <= k < |users| && users[k].department != ""
    requires forall i :: 0 <= i < |users| && users[i].id == users[k].id ==> users[i] == users[k]
    ensures var form := InitialForm(Some(users[k]));
      var (request, dialog) := HandleFormSubmit(OpenForm(Some(users[k])), form);
      ApplyRequest(users, request, Ok(echo)) == users && dialog == ClosedDialog
  {
    var r := UpdateUser(users, users[k].id, InitialForm(Some(users[k])), Ok(echo));
    assert forall i :: 0 <= i < |users| ==> r[i] == users[i];
  }

  /** Changing only the department in the edit dialog changes only that record's
      department: id, names, email and position stay. */
  lemma EditDepartmentOnly(users: seq<User>, k: int, dept: string, echo: User)
    requires 0 <= k < |users| && UniqueIds(users) && users[k].department != ""
    ensures var form := InitialForm(Some(users[k])).(department := dept);
      var (request, _) := HandleFormSubmit(OpenForm(Some(users[k])), form);
      ApplyRequest(users, request, Ok(echo)) == users[k := users[k].(department := dept)]
  {
  }

  /** Saving a valid form in the add dialog puts exactly one new record first, carrying
      the form's names and department and the server's id. */
  lemma CreateFromDialog(users: seq<User>, form: Form, echo: User)
    requires HandleSubmit(form).submitted == Some(form)
    ensures var (request, _) := HandleFormSubmit(OpenForm(None), form);
      var r := ApplyRequest(users, request, Ok(echo));
      && |r| == |users| + 1 && r[1..] == users
      && r[0].id == echo.id && r[0].firstName == form.firstName && r[0].lastName == form.lastName
      && r[0].department == form.department
      && (echo.email == form.email ==> r[0].email == form.email)
  {
  }
}
