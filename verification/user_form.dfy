/** The add/edit form: its starting values, the validation rules and the submit gate. */
module UserForm {
  import opened Records
  import opened Text

  /** The fields an error message can be attached to. */
  datatype Field = FirstNameField | LastNameField | EmailField | DepartmentField

  const FirstNameRequired: string := "First name is required."
  const LastNameRequired: string := "Last name is required."
  const EmailRequired: string := "Email is required."
  const EmailInvalid: string := "Email is not valid."

  /** The values of a form opened to add a new user. */
  const FreshForm: Form := Form("", "", "", DefaultDepartment)

  // ---------------------------------------------------------------------------
  // The email pattern  \S+@\S+\.\S+  (no anchors)

  /** No character of `w` from index `lo` up to `hi` is in the class `\s`. */
  predicate NoSpaceBetween(w: string, lo: int, hi: int)
    requires 0 <= lo <= hi <= |w|
  {
    forall k :: lo <= k < hi ==> !IsSpace(w[k])
  }

  /** `w` is a whole word of the pattern's language `x@y.z`: an '@' at `p` and a '.' at `q`
      cut `w` into three non-empty pieces `\S+`, free of `\s` characters. */
  ghost predicate InEmailLanguage(w: string)
  {
    exists p, q :: 0 < p && p + 1 < q && q + 1 < |w| && w[p] == '@' && w[q] == '.' &&
      NoSpaceBetween(w, 0, p) && NoSpaceBetween(w, p + 1, q) && NoSpaceBetween(w, q + 1, |w|)
  }

  /** `RegExp.prototype.test` for the unanchored pattern: some contiguous piece of `s`
      is a word of the language. */
  ghost predicate PatternOccurs(s: string)
  {
    exists i, j :: 0 <= i <= j <= |s| && InEmailLanguage(s[i..j])
  }

  /** The shortest possible match around an '@' at `a` and a '.' at `b`: one character
      before the '@', at least one between, one after the '.', none of them `\s`. */
  predicate MatchWindow(s: string, a: int, b: int)
  {
    1 <= a && a + 2 <= b && b + 2 <= |s| && s[a] == '@' && s[b] == '.' &&
    forall k :: a - 1 <= k < b + 2 ==> !IsSpace(s[k])
  }

  /** The pattern test as computed: look for a shortest match. */
  predicate EmailPatternTest(s: string)
  {
    exists a, b | 0 <= a < |s| && 0 <= b < |s| :: MatchWindow(s, a, b)
  }

  /** A shortest match is a word of the language. */
  lemma WindowIsWord(s: string, a: int, b: int)
    requires MatchWindow(s, a, b)
    ensures InEmailLanguage(s[a - 1..b + 2])
  {
    var w := s[a - 1..b + 2];
    var p, q := 1, b - a + 1;
    forall k | 0 <= k < |w| ensures w[k] == s[a - 1 + k] && !IsSpace(w[k]) {
    }
    assert w[p] == '@' && w[q] == '.';
    assert NoSpaceBetween(w, 0, p) && NoSpaceBetween(w, p + 1, q) && NoSpaceBetween(w, q + 1, |w|);
  }

  /** The '@' and '.' that cut the word `s[i..j]` into its pieces mark a shortest match. */
  lemma SplitGivesWindow(s: string, i: int, j: int, p: int, q: int)
    requires 0 <= i <= j <= |s|
    requires 0 < p && p + 1 < q && q + 1 < j - i && s[i..j][p] == '@' && s[i..j][q] == '.'
    requires NoSpaceBetween(s[i..j], 0, p) && NoSpaceBetween(s[i..j], p + 1, q)
    requires NoSpaceBetween(s[i..j], q + 1, j - i)
    ensures MatchWindow(s, i + p, i + q)
  {
    assert s[i + p] == s[i..j][p] && s[i + q] == s[i..j][q];
    forall k | i + p - 1 <= k < i + q + 2 ensures !IsSpace(s[k]) {
      assert s[k] == s[i..j][k - i];
    }
  }

  /** A word of the language found at `s[i..j]` yields a shortest match. */
  lemma WordGivesWindow(s: string, i: int, j: int) returns (a: int, b: int)
    requires 0 <= i <= j <= |s| && InEmailLanguage(s[i..j])
    ensures MatchWindow(s, a, b)
  {
    var w := s[i..j];
    var p, q :| 0 < p && p + 1 < q && q + 1 < |w| && w[p] == '@' && w[q] == '.' &&
      NoSpaceBetween(w, 0, p) && NoSpaceBetween(w, p + 1, q) && NoSpaceBetween(w, q + 1, |w|);
    SplitGivesWindow(s, i, j, p, q);
    a, b := i + p, i + q;
  }

  /** The computed test agrees with the regular-expression semantics on every string. */
  lemma EmailPatternTestCorrect(s: string)
    ensures EmailPatternTest(s) <==> PatternOccurs(s)
  {
    if EmailPatternTest(s) {
      var a, b :| 0 <= a < |s| && 0 <= b < |s| && MatchWindow(s, a, b);
      WindowIsWord(s, a, b);
    }
    if PatternOccurs(s) {
      var i, j :| 0 <= i <= j <= |s| && InEmailLanguage(s[i..j]);
      var a, b := WordGivesWindow(s, i, j);
      assert 0 <= a < |s| && 0 <= b < |s|;
    }
  }

  // ---------------------------------------------------------------------------
  // Validation and submission

  /** `validate`: one message per failing field, department never checked. The name
      checks reject only the empty string (no trimming); a non-empty email is rejected
      exactly when no piece of it matches the pattern. */
  function Validate(f: Form): (errors: map<Field, string>)
    ensures errors.Keys <= {FirstNameField, LastNameField, EmailField}
    ensures FirstNameField in errors <==> f.firstName == ""
    ensures LastNameField in errors <==> f.lastName == ""
    ensures EmailField in errors <==> f.email == "" || !PatternOccurs(f.email)
    ensures FirstNameField in errors ==> errors[FirstNameField] == FirstNameRequired
    ensures LastNameField in errors ==> errors[LastNameField] == LastNameRequired
    ensures EmailField in errors ==> errors[EmailField] == if f.email == "" then EmailRequired else EmailInvalid
  {
    EmailPatternTestCorrect(f.email);
    var first := if f.firstName == "" then map[FirstNameField := FirstNameRequired] else map[];
    var last := if f.lastName == "" then first[LastNameField := LastNameRequired] else first;
    if f.email == "" then last[EmailField := EmailRequired]
    else if !EmailPatternTest(f.email) then last[EmailField := EmailInvalid]
    else last
  }

  /** What pressing "Save" produces: the error map the form shows, and the values
      handed to `onSubmit` when there is nothing to show. */
  datatype Submission = Submission(errors: map<Field, string>, submitted: Option<Form>)

  /** `handleSubmit`: validate, and submit the form's values only when no error was found. */
  function HandleSubmit(f: Form): (s: Submission)
    ensures s.errors == Validate(f)
    ensures s.submitted.Some? <==>
      f.firstName != "" && f.lastName != "" && f.email != "" && PatternOccurs(f.email)
    ensures s.submitted.Some? ==> s.submitted.value == f
  {
    var errors := Validate(f);
    Submission(errors, if |errors| == 0 then Some(f) else None)
  }

  /** The values the form starts with: blank for a new user; for an edit, each field
      copied from the record, a blank department falling back to the default. */
  function InitialForm(editing: Option<User>): (f: Form)
    ensures f.department != ""
    ensures editing.None? ==> f.firstName == "" && f.lastName == "" && f.email == ""
    ensures editing.Some? ==>
      && f.firstName == editing.value.firstName
      && f.lastName == editing.value.lastName
      && f.email == editing.value.email
      && (editing.value.department != "" ==> f.department == editing.value.department)
    ensures f.department ==
      if editing.Some? && editing.value.department != "" then editing.value.department else DefaultDepartment
    ensures (editing.Some? ==> editing.value.department in Departments + [""]) ==> f.department in Departments
  {
    match editing
    case None => FreshForm
    case Some(u) =>
      Form(u.firstName, u.lastName, u.email, if u.department == "" then DefaultDepartment else u.department)
  }

  // ---------------------------------------------------------------------------
  // Worked examples

  /** An empty first name and an email without '@' give exactly two errors. */
  lemma RejectsBlankNameAndBadEmail()
    ensures Validate(Form("", "Lovelace", "bad", "Engineering")).Keys == {FirstNameField, EmailField}
  {
    var s := "bad";
    assert forall a :: 0 <= a < |s| ==> s[a] != '@';
    assert !EmailPatternTest(s);
    EmailPatternTestCorrect(s);
  }

  /** A complete form with a short but well-shaped email passes. */
  lemma AcceptsCompleteForm()
    ensures Validate(Form("Ada", "Lovelace", "a@b.co", "Engineering")) == map[]
  {
    var s := "a@b.co";
    assert MatchWindow(s, 1, 3);
    EmailPatternTestCorrect(s);
  }

  /** Names made only of spaces pass, the pattern may sit inside surrounding text, and
      the department is never looked at. */
  lemma AcceptsSpacesAndEmbeddedEmail()
    ensures Validate(Form(" ", " ", "mail me: x@y.z now", "")) == map[]
  {
    var s := "mail me: x@y.z now";
    assert MatchWindow(s, 10, 12);
    EmailPatternTestCorrect(s);
  }
}
