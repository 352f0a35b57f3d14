# User management dashboard — a Dafny model

This project models the logic of a small React dashboard that lists user records
fetched from a remote JSON API and lets the operator search, sort, page, add, edit
and delete them. The model covers the following, each as pure functions over
immutable data:

- **Loading:** normalising each fetched record (`processUserData`): the name is split
  into first and last name, and a department is drawn at random.
- **The table's view pipeline:**
  - a case-insensitive search over four columns;
  - a stable sort on one column, in either direction;
  - a page slice and a page count.
- **The table's controls:**
  - the sort headers;
  - Previous and Next;
  - the page-size selector and the search box.
- **The add/edit dialog:**
  - the form's starting values;
  - validation, including the email pattern `\S+@\S+\.\S+`;
  - the submit gate.
- **The application state:** how the record list, the loading flag and the error
  change with the outcome of each request.

Modules, one per concern of the program:

- `Seqs`: `Array.prototype.filter` and the subsequence relation.
- `Text`: the string operations the program uses:
  - `toLowerCase` and `includes`;
  - string `<`;
  - the `\s` class;
  - `split`/`join` on a separator.
- `Records`: the user record, the raw API record, the form values, and the department list.
- `Api`: `processUserData` and the mapping of the list response.
- `UserForm`: the form (`UserForm.jsx`).
- `TableSort`: the comparator and the stable sort of the table.
- `UserTable`: the table (`UserTable.jsx`): search, pages, headers, view controls and dialog.
- `App`: the application (`App.jsx`): load outcome, add, update, delete.

Network responses, `Math.random()` draws and the answer to the delete confirmation
are parameters of the functions that use them. A response is `Ok(value)` or `Failed`.
A draw is a real number in [0, 1).

Where the intent behind the code and the code itself differ, the model follows the code:

- The page count is `Math.ceil(n / perPage)` with no minimum. It is 0 when the
  search finds nothing, and the "Next" button is then enabled on page 1 and moves
  to page 0 (`UserTable.NextOnEmptyResultReachesPageZero`).
- Names are split at each single space character, not at arbitrary whitespace.
  `"Ada  Lovelace"` gives the last name `" Lovelace"`.
- The current page is never clamped. A page past the end shows no rows.
- Name validation rejects only the empty string: a name of spaces passes.
- The email check is an unanchored pattern test. Any text that contains a match
  passes, for example `"mail me: x@y.z now"`.
- The id of an added record is whatever the server's echo carries. The list keeps
  unique ids only when that id is fresh, which is the hypothesis of
  `App.AddKeepsUniqueIds`. A delete removes every record with the id
  (`App.DeleteUser`), so two records that share an id are removed together.
- An edit overwrites every record that shares the edited id (`App.UpdateUser`),
  just as a delete removes them all. Opening one of two records with the same id
  and saving it unchanged turns the other into a copy of it.

## Model

| member | source | states |
|---|---|---|
| Text.IncludesIffOccurs | src/components/UserTable.jsx:17-20 | `includes` is true exactly when the needle occurs at some position of the haystack (both directions) |
| Text.LowerIdempotent | src/components/UserTable.jsx:17-20 | lower-casing a lower-cased string changes nothing |
| Text.LessIsLexicographic | src/components/UserTable.jsx:25-26 | string `<` implies: a proper prefix, or a first differing character that is smaller |
| Text.LexicographicIsLess | src/components/UserTable.jsx:25-26 | conversely, a proper prefix or a smaller first difference gives string `<` |
| Text.LessTransitive | src/components/UserTable.jsx:25-26 | string `<` is transitive |
| Text.LessTrichotomy | src/components/UserTable.jsx:25-26 | any two strings are equal or one is `<` the other |
| Text.SplitParts | src/services/api.js:11 | no part of `split(' ')` contains a space; there is more than one part exactly when the name contains a space |
| Text.JoinSplit | src/services/api.js:11-15 | joining the parts of a split with the separator gives back the original string |
| Text.JoinTailOfSplit | src/services/api.js:11-15 | a single part of a split is the whole string; otherwise the first part, the separator and the join of the remaining parts rebuild the string |
| Api.DepartmentIndex | src/services/api.js:16 | `Math.floor(Math.random() * 5)` is a valid index into the department list |
| Api.ProcessUser | src/services/api.js:10-18 | id, email and every other field survive, and `name` is kept; the first name has no space; first name, a space and last name rebuild the name when it had a space, otherwise the first name is the whole name and the last name is empty; the department is one of the five |
| Api.GetUsers | src/services/api.js:20-24 | one processed record per raw record, in order, each with the per-record guarantees of processing |
| UserForm.EmailPatternTestCorrect | src/components/UserForm.jsx:25 | the computed pattern test holds exactly when some substring of the email is a word `x@y.z` with non-empty, whitespace-free pieces |
| UserForm.Validate | src/components/UserForm.jsx:20-28 | an error for a name exactly when it is empty; an email error exactly when the email is empty or contains no match of the pattern; the messages; the department is never checked |
| UserForm.HandleSubmit | src/components/UserForm.jsx:35-38 | the form's values are submitted, unchanged, exactly when both names are non-empty and the email contains a match; the error map is the validation result |
| UserForm.InitialForm | src/components/UserForm.jsx:4-18 | a new form is blank with department "Engineering"; an edit form copies the record's fields, a blank department falling back to "Engineering"; the department is never blank, and it is one of the selector's options when the record's is |
| UserForm.RejectsBlankNameAndBadEmail | src/components/UserForm.jsx:22-25 | the form ("", "Lovelace", "bad") gives exactly the first-name and email errors |
| UserForm.AcceptsCompleteForm | src/components/UserForm.jsx:22-25 | a complete form with `a@b.co` has no errors |
| UserForm.AcceptsSpacesAndEmbeddedEmail | src/components/UserForm.jsx:22-25 | names of one space and an email pattern embedded in other text pass; a blank department is not checked |
| TableSort.KeyTrichotomy | src/components/UserTable.jsx:25-26 | in each column, exactly one of less, greater, equal value holds between two records |
| TableSort.ComparatorConsistent | src/components/UserTable.jsx:24-28 | the comparator is 0 exactly on equal column values, antisymmetric, and transitive |
| TableSort.Sort | src/components/UserTable.jsx:23-29 | the sorted list is a permutation of its input |
| TableSort.SortSorted | src/components/UserTable.jsx:23-29 | no later record compares before an earlier one in the sorted list |
| TableSort.SortedByColumn | src/components/UserTable.jsx:24-28 | sorted ascending means no later value is smaller; descending means no later value is larger |
| TableSort.SortStable | src/components/UserTable.jsx:23-29 | records with equal values in the sort column keep their input order |
| TableSort.SortOfSorted | src/components/UserTable.jsx:23-29 | sorting an already sorted list leaves it as it is |
| UserTable.FilterUsers | src/components/UserTable.jsx:14-22 | an empty term keeps the list; otherwise exactly the matching records with their multiplicities, in list order |
| UserTable.MatchesSearchIff | src/components/UserTable.jsx:16-21 | a record matches exactly when the folded term occurs in its folded first name, last name, email or department |
| UserTable.SearchIgnoresCase | src/components/UserTable.jsx:17-20 | searching for a term and for its lower-case form give the same result |
| UserTable.FilteredAndSortedSpec | src/components/UserTable.jsx:13-31 | the table list is a permutation of the search result, sorted, with ties in search-result order |
| UserTable.TotalPages | src/components/UserTable.jsx:36 | the fewest pages that hold all rows: they hold them, one page fewer would not, and there are none for no rows |
| UserTable.CurrentUsers | src/components/UserTable.jsx:33-35 | at most a page of rows; for page p >= 1 the rows from position (p-1)*size up to p*size, cut at the end; page 0 and pages past the end are empty |
| UserTable.PageCovers | src/components/UserTable.jsx:33-36 | every row of the list appears on page `i / size + 1`, at position `i % size`, and that page is within the page count |
| UserTable.PagesInRange | src/components/UserTable.jsx:33-36 | a page p >= 1 shows rows exactly when p is at most the page count |
| UserTable.RequestSort | src/components/UserTable.jsx:38-42 | the clicked column becomes the sort column; the direction is descending exactly when that column was already sorted ascending |
| UserTable.RequestSortAlternates | src/components/UserTable.jsx:38-42 | repeated clicks on one header alternate the direction, with period two |
| UserTable.PreviousPage | src/components/UserTable.jsx:121 | one page back, never below page 1 |
| UserTable.NextPage | src/components/UserTable.jsx:125 | one page on while below the page count, otherwise the page count itself |
| UserTable.Step | src/components/UserTable.jsx:73-133 | typing a term and choosing a page size return to page 1; a header click re-sorts and keeps the page; Previous moves to `PreviousPage` of the current page (never below 1) and Next to `NextPage` of it (never beyond the page count); each control changes only its own part of the state |
| UserTable.ViewRowsMatch | src/components/UserTable.jsx:13-35 | at most a page of rows is shown, each a record of the list that matches the search |
| UserTable.ViewRowsSorted | src/components/UserTable.jsx:13-36 | the shown rows are in sort order, and the page count is that of the search result |
| UserTable.NextOnEmptyResultReachesPageZero | src/components/UserTable.jsx:125 | with no search result, Next on page 1 moves to page 0, which shows no rows whatever the records |
| UserTable.HandleFormSubmit | src/components/UserTable.jsx:49-63 | an update of the edited record's id when editing, an add otherwise, with the submitted values; the dialog ends closed with no record |
| App.FetchUsers | src/App.jsx:12-27 | loading ends either way; the table is shown exactly when the load succeeded; on success the list becomes exactly the processed records of the response (`Api.GetUsers`) and the error is cleared; on failure the list stays and the fixed message is set |
| App.AddUser | src/App.jsx:29-45 | on success the server's record, with the form's names and department, goes in front of an otherwise unchanged list; on failure nothing changes |
| App.UpdateUser | src/App.jsx:47-54 | same length and order; records with other ids unchanged; records with the id take all four form values and keep id and other fields; a failure changes nothing |
| App.DeleteUser | src/App.jsx:56-65 | only a confirmed, successful request changes the list, and then exactly the records with the id are removed, the rest in order |
| App.AddKeepsUniqueIds | src/App.jsx:41 | adding a record with a fresh id keeps ids unique |
| App.UpdateKeepsIds | src/App.jsx:50 | an update keeps the id sequence, hence unique ids |
| App.UpdateIdempotent | src/App.jsx:50 | applying the same edit twice equals applying it once |
| App.DeleteIdempotent | src/App.jsx:60 | deleting an id twice equals deleting it once |
| App.DeleteRemovesOne | src/App.jsx:60 | with unique ids, deleting a present id shortens the list by exactly one |
| App.DeleteKeepsUniqueIds | src/App.jsx:60 | deleting keeps ids unique |
| App.FilterKeepsUnique | src/App.jsx:60 | any filter of a list with unique ids has unique ids |
| App.AddThenDelete | src/App.jsx:29-65 | deleting the id of a record just added restores the previous list |
| App.EditUnchangedIsNoOp | src/components/UserTable.jsx:49-53 | opening a record whose id no other record shares, with a filled-in department, and saving it unchanged leaves the list as it was and closes the dialog |
| App.EditDepartmentOnly | src/App.jsx:47-54 | changing only the department in the edit dialog changes only that record's department |
| App.CreateFromDialog | src/components/UserTable.jsx:49-53 | saving a valid add form puts exactly one new record first, with the server's id and the form's names and department |

Some members are plain definitions with no contract of their own. The lemmas listed
above state their properties:
- `UserTable.OpenForm` (src/components/UserTable.jsx:55-58) opens the dialog on a record
  or on none. `App.EditUnchangedIsNoOp`, `App.EditDepartmentOnly` and
  `App.CreateFromDialog` cover it, through `UserTable.HandleFormSubmit`.
- `UserTable.View` (src/components/UserTable.jsx:33-36) is the shown rows and the page
  count. `UserTable.ViewRowsMatch` and `UserTable.ViewRowsSorted` cover it.
- `App.ApplyRequest` (src/App.jsx:76-81) routes the table's add and update requests to
  `App.AddUser` and `App.UpdateUser`. The same three dialog lemmas cover it.
- `App.ShowsTable` (src/App.jsx:75) is the render condition. `App.FetchUsers` states it.

## Left out

- HTTP transport (axios) and `async`/`await` are not modelled. Each request's outcome is an input. The bodies sent to the server and the server's simulated persistence are not part of the model.
- `Math.random()` is not modelled. Each draw is a parameter in [0, 1).
- `window.confirm` is a boolean input. `alert` and `console.error` change no state and are omitted.
- The load sets `loading` to true before it starts. Only the state after the response is modelled.
- React rendering, CSS, animations and `getSortIndicator` (an icon choice) are presentation and are not modelled.
- `handleChange` is not modelled. It copies an input's value into one form field.
- Stale closures are not modelled. `handleUpdateUser` and `handleDeleteUser` read the `users` captured at render time, and overlapping requests could lose an update. The model applies each outcome to the current list, in order.
- Text.Lower: folds only ASCII letters. `toLowerCase` also folds other Unicode letters.
- Text.Less: compares by characters (code points). JavaScript compares UTF-16 code units, and the two orders differ only outside the Basic Multilingual Plane.
- Fields other than the five the table uses are kept as strings in a map (`rest`). Their JSON types are not modelled.
- A record in which `name`, `firstName` or another field is missing or not a string is not modelled, nor is the `|| ''` fallback for missing fields. Every field is a string.
- TableSort.Sort: the sort column is never null. The program never sets it to null, so the "unsorted" branch is not modelled.
- The id column is compared numerically. Every other column is compared as a string.
- The `sort` implementation is modelled as a stable insertion sort. ECMAScript 2019 and later require `Array.prototype.sort` to be stable, so the result is determined by the comparator. The steps of the engine's algorithm are not modelled.
