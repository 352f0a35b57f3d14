/** The table's view pipeline (search, sort, page) and its controls: the sort headers,
    the page buttons and size selector, and the add/edit dialog. */
module UserTable {
  import opened Records
  import opened Text
  import opened Seqs
  import opened TableSort

  // ---------------------------------------------------------------------------
  // Search

  /** The lower-cased term is a substring of the lower-cased first name, last name,
      email or department. */
  predicate MatchesSearch(u: User, term: string)
  {
    var t := Lower(term);
    Includes(Lower(u.firstName), t) || Includes(Lower(u.lastName), t) ||
    Includes(Lower(u.email), t) || Includes(Lower(u.department), t)
  }

  /** The search step: an empty term keeps the list; otherwise the matching records,
      in list order. */
  function FilterUsers(users: seq<User>, term: string): (r: seq<User>)
    ensures term == "" ==> r == users
    ensures term != "" ==> forall u :: multiset(r)[u] == if MatchesSearch(u, term) then multiset(users)[u] else 0
    ensures term != "" ==> forall u :: u in r <==> u in users && MatchesSearch(u, term)
    ensures IsSubsequence(r, users)
  {
    if term == "" then
      SubsequenceRefl(users);
      users
    else
      var p := u => MatchesSearch(u, term);
      FilterMultiset(users, p);
      FilterMembership(users, p);
      FilterIsSubsequence(users, p);
      Filter(users, p)
  }

  /** A record matches exactly when the folded term occurs at some position of one of
      its four folded fields. */
  lemma MatchesSearchIff(u: User, term: string)
    ensures MatchesSearch(u, term) <==>
      Occurs(Lower(u.firstName), Lower(term)) || Occurs(Lower(u.lastName), Lower(term)) ||
      Occurs(Lower(u.email), Lower(term)) || Occurs(Lower(u.department), Lower(term))
  {
    var t := Lower(term);
    IncludesIffOccurs(Lower(u.firstName), t);
    IncludesIffOccurs(Lower(u.lastName), t);
    IncludesIffOccurs(Lower(u.email), t);
    IncludesIffOccurs(Lower(u.department), t);
  }

  /** The search ignores letter case in the term. */
  lemma SearchIgnoresCase(users: seq<User>, term: string)
    ensures FilterUsers(users, Lower(term)) == FilterUsers(users, term)
  {
    LowerIdempotent(term);
    if term == "" {
      assert Lower(term) == "";
      return;
    }
    assert |Lower(term)| == |term|;
    FilterCongruent(users, u => MatchesSearch(u, Lower(term)), u => MatchesSearch(u, term));
  }

  /** `filteredAndSortedUsers`: the search result, sorted by the current configuration. */
  function FilteredAndSorted(users: seq<User>, term: string, cfg: SortConfig): seq<User>
  {
    Sort(FilterUsers(users, term), cfg)
  }

  /** The pipeline's result is a permutation of the search result, ordered by the sort
      column in the chosen direction, with equal values in search-result order. */
  lemma FilteredAndSortedSpec(users: seq<User>, term: string, cfg: SortConfig)
    ensures var r := FilteredAndSorted(users, term, cfg);
      && multiset(r) == multiset(FilterUsers(users, term))
      && Sorted(r, cfg)
      && (forall u :: Peers(r, u, cfg.key) == Peers(FilterUsers(users, term), u, cfg.key))
  {
    var f := FilterUsers(users, term);
    SortSorted(f, cfg);
    forall u ensures Peers(Sort(f, cfg), u, cfg.key) == Peers(f, u, cfg.key) {
      SortStable(f, u, cfg);
    }
  }

  // ---------------------------------------------------------------------------
  // Pages

  function Min(a: int, b: int): int { if a <= b then a else b }
  function Max(a: int, b: int): int { if a >= b then a else b }

  /** `s.slice(start, end)`: negative bounds count from the end, every bound is clamped
      to the sequence, and crossed bounds give the empty sequence. */
  function JsSlice<T>(s: seq<T>, start: int, end: int): seq<T>
  {
    var from := if start < 0 then Max(|s| + start, 0) else Min(start, |s|);
    var to := if end < 0 then Max(|s| + end, 0) else Min(end, |s|);
    if from < to then s[from..to] else []
  }

  /** `Math.ceil(count / perPage)`: the fewest pages holding `count` rows, which is 0
      when there are no rows. */
  function TotalPages(count: nat, perPage: int): (r: nat)
    requires perPage > 0
    ensures count <= r * perPage
    ensures r > 0 ==> (r - 1) * perPage < count
    ensures r == 0 <==> count == 0
  {
    var q := (count + perPage - 1) / perPage;
    MulSucc(q - 1, perPage);
    q
  }

  /** `indexOfLastUser`, `currentPage * usersPerPage`: one past the last row of a page. */
  function PageEnd(page: int, perPage: int): (last: int)
    requires perPage > 0
    ensures last == page * perPage
    ensures page >= 1 ==> last >= perPage
    ensures page == 0 ==> last == 0
  {
    if page >= 1 then MulMonotone(1, page, perPage); page * perPage
    else page * perPage
  }

  /** `currentUsers`: the slice from `indexOfFirstUser`, a page before the end, to
      `indexOfLastUser`. */
  function CurrentUsers(list: seq<User>, page: int, perPage: int): (r: seq<User>)
    requires perPage > 0
    ensures |r| <= perPage
    ensures page >= 1 ==>
      r == list[Min(PageEnd(page, perPage) - perPage, |list|)..Min(PageEnd(page, perPage), |list|)]
    ensures page == 0 ==> r == []
    ensures page >= 1 && PageEnd(page, perPage) - perPage >= |list| ==> r == []
  {
    var last := PageEnd(page, perPage);
    JsSlice(list, last - perPage, last)
  }

  /** Multiplying by a positive number keeps the order. */
  lemma MulMonotone(a: int, b: int, n: int)
    requires a <= b && n > 0
    ensures a * n <= b * n
  {
    assert b * n - a * n == (b - a) * n;
  }

  /** A product by a positive number smaller than another has the smaller factor. */
  lemma MulCancel(a: int, b: int, n: int)
    requires n > 0 && a * n < b * n
    ensures a < b
  {
    if b <= a {
      MulMonotone(b, a, n);
    }
  }

  /** One more group of `n` is `n` more. */
  lemma MulSucc(a: int, n: int)
    ensures (a + 1) * n == a * n + n
  {
  }

  /** Row `i` of `count` rows sits at position `i % perPage` of page `i / perPage + 1`,
      which is one of the `totalPages` pages. */
  lemma RowPosition(count: nat, perPage: int, i: int)
    requires perPage > 0 && 0 <= i < count
    ensures var p := i / perPage + 1;
      && 1 <= p <= TotalPages(count, perPage)
      && PageEnd(p, perPage) - perPage + i % perPage == i
  {
    var q, m := i / perPage, i % perPage;
    assert i == q * perPage + m;
    MulSucc(q, perPage);
    MulCancel(q, TotalPages(count, perPage), perPage);
  }

  /** Row `i` of the list is shown on page `i / perPage + 1`, at position `i % perPage`,
      and that page is among the `totalPages` pages. */
  lemma PageCovers(list: seq<User>, perPage: int, i: int)
    requires perPage > 0 && 0 <= i < |list|
    ensures var p := i / perPage + 1;
      && 1 <= p <= TotalPages(|list|, perPage)
      && i % perPage < |CurrentUsers(list, p, perPage)|
      && CurrentUsers(list, p, perPage)[i % perPage] == list[i]
  {
    RowPosition(|list|, perPage, i);
    var p, m := i / perPage + 1, i % perPage;
    var last := PageEnd(p, perPage);
    var rows := CurrentUsers(list, p, perPage);
    assert rows == list[Min(last - perPage, |list|)..Min(last, |list|)];
    assert Min(last - perPage, |list|) == i - m;
    assert rows[m] == list[i];
  }

  /** Pages 1 to `totalPages` are non-empty; any page after the last is empty. */
  lemma PagesInRange(list: seq<User>, perPage: int, page: int)
    requires perPage > 0 && page >= 1
    ensures page <= TotalPages(|list|, perPage) <==> |CurrentUsers(list, page, perPage)| > 0
  {
    var tp := TotalPages(|list|, perPage);
    MulSucc(page - 1, perPage);
    assert PageEnd(page, perPage) - perPage == (page - 1) * perPage;
    if page <= tp {
      MulMonotone(page - 1, tp - 1, perPage);
    } else {
      MulMonotone(tp, page - 1, perPage);
    }
  }

  // ---------------------------------------------------------------------------
  // Sort headers

  /** `requestSort`: a click on the current column while ascending switches to
      descending; any other click sorts that column ascending. */
  function RequestSort(cfg: SortConfig, k: SortKey): (r: SortConfig)
    ensures r.key == k
    ensures r.direction == Descending <==> cfg.key == k && cfg.direction == Ascending
  {
    if cfg.key == k && cfg.direction == Ascending then SortConfig(k, Descending) else SortConfig(k, Ascending)
  }

  /** Repeated clicks on one header alternate the direction. */
  lemma RequestSortAlternates(cfg: SortConfig, k: SortKey)
    ensures RequestSort(RequestSort(cfg, k), k).direction != RequestSort(cfg, k).direction
    ensures RequestSort(RequestSort(RequestSort(cfg, k), k), k) == RequestSort(cfg, k)
  {
  }

  // ---------------------------------------------------------------------------
  // The view state and its controls

  /** The page sizes the selector offers. */
  const PageSizes: set<int> := {10, 25, 50, 100}

  /** The table's search term, sort configuration, page number and page size. */
  datatype ViewState = ViewState(searchTerm: string, sortConfig: SortConfig, currentPage: int, usersPerPage: int)

  const InitialView: ViewState := ViewState("", InitialSort, 1, 10)

  /** What a user can do to the table's view. */
  datatype ViewEvent =
    | SearchTyped(term: string)
    | HeaderClicked(key: SortKey)
    | PreviousClicked
    | NextClicked
    | PageSizeChosen(size: int)

  /** The states the controls can produce: a page size from the selector and a page
      number that is never negative. */
  predicate ValidView(s: ViewState)
  {
    s.usersPerPage in PageSizes && s.currentPage >= 0
  }

  /** `totalPages` for the records the state shows. */
  function PageCount(users: seq<User>, s: ViewState): nat
    requires s.usersPerPage > 0
  {
    TotalPages(|FilterUsers(users, s.searchTerm)|, s.usersPerPage)
  }

  /** The "Previous" button: disabled on page 1, otherwise one page back but never
      below page 1. */
  function PreviousPage(page: int): (r: int)
    ensures r >= 1
    ensures page > 1 ==> r == page - 1
    ensures page <= 1 ==> r == 1
  {
    if page == 1 then page else Max(1, page - 1)
  }

  /** The "Next" button: disabled on page `total`, otherwise one page on but never
      beyond page `total`, which may be 0. */
  function NextPage(page: int, total: nat): (r: int)
    ensures r <= total
    ensures page < total ==> r == page + 1
    ensures page >= total ==> r == total
  {
    if page == total then page else Min(total, page + 1)
  }

  /** One control used. Typing in the search box and choosing a page size go back to
      page 1; a header click re-sorts and keeps the page. */
  function Step(users: seq<User>, s: ViewState, e: ViewEvent): (r: ViewState)
    requires ValidView(s)
    requires e.PageSizeChosen? ==> e.size in PageSizes
    ensures ValidView(r)
    ensures e.SearchTyped? ==> r.searchTerm == e.term && r.currentPage == 1
    ensures e.PageSizeChosen? ==> r.usersPerPage == e.size && r.currentPage == 1
    ensures e.HeaderClicked? ==> r.currentPage == s.currentPage
    ensures e.HeaderClicked? ==> r.sortConfig == RequestSort(s.sortConfig, e.key)
    ensures e.PreviousClicked? ==> r.currentPage == PreviousPage(s.currentPage) >= 1
    ensures e.NextClicked? ==> r.currentPage == NextPage(s.currentPage, PageCount(users, s)) <= PageCount(users, s)
    ensures !e.SearchTyped? ==> r.searchTerm == s.searchTerm
    ensures !e.HeaderClicked? ==> r.sortConfig == s.sortConfig
    ensures !e.PageSizeChosen? ==> r.usersPerPage == s.usersPerPage
  {
    match e
    case SearchTyped(t) => s.(searchTerm := t, currentPage := 1)
    case HeaderClicked(k) => s.(sortConfig := RequestSort(s.sortConfig, k))
    case PreviousClicked => s.(currentPage := PreviousPage(s.currentPage))
    case NextClicked => s.(currentPage := NextPage(s.currentPage, PageCount(users, s)))
    case PageSizeChosen(n) => s.(usersPerPage := n, currentPage := 1)
  }

  /** What the table shows: the rows of the current page and the page count. */
  datatype Page = Page(rows: seq<User>, totalPages: nat)

  function View(users: seq<User>, s: ViewState): Page
    requires s.usersPerPage > 0
  {
    var list := FilteredAndSorted(users, s.searchTerm, s.sortConfig);
    Page(CurrentUsers(list, s.currentPage, s.usersPerPage), TotalPages(|list|, s.usersPerPage))
  }

  /** Every row of a page is a row of the list. */
  lemma PageRowsFromList(list: seq<User>, page: int, perPage: int)
    requires perPage > 0 && page >= 0
    ensures forall u :: u in CurrentUsers(list, page, perPage) ==> u in list
  {
  }

  /** A contiguous piece of a sorted sequence is sorted. */
  lemma SortedSlice(s: seq<User>, lo: int, hi: int, cfg: SortConfig)
    requires Sorted(s, cfg) && 0 <= lo <= hi <= |s|
    ensures Sorted(s[lo..hi], cfg)
  {
    forall i, j | 0 <= i < j < hi - lo ensures Compare(s[lo..hi][i], s[lo..hi][j], cfg) <= 0 {
      assert s[lo..hi][i] == s[lo + i] && s[lo..hi][j] == s[lo + j];
    }
  }

  /** Every shown row is a record of the list that matches the search, and there are at
      most a page's worth of them. */
  lemma ViewRowsMatch(users: seq<User>, s: ViewState)
    requires ValidView(s)
    ensures |View(users, s).rows| <= s.usersPerPage
    ensures forall u :: u in View(users, s).rows ==>
      u in users && (s.searchTerm != "" ==> MatchesSearch(u, s.searchTerm))
  {
    var list := FilteredAndSorted(users, s.searchTerm, s.sortConfig);
    var f := FilterUsers(users, s.searchTerm);
    assert multiset(list) == multiset(f);
    var rows := CurrentUsers(list, s.currentPage, s.usersPerPage);
    PageRowsFromList(list, s.currentPage, s.usersPerPage);
    ViewRowsFromSearch(list, f, rows);
  }

  /** A page of a sorted list is sorted. */
  lemma PageRowsSorted(list: seq<User>, page: int, perPage: int, cfg: SortConfig)
    requires perPage > 0 && page >= 0 && Sorted(list, cfg)
    ensures Sorted(CurrentUsers(list, page, perPage), cfg)
  {
    if page >= 1 {
      var last := PageEnd(page, perPage);
      SortedSlice(list, Min(last - perPage, |list|), Min(last, |list|), cfg);
    }
  }

  /** The shown rows are in sort order, and the page count is that of the search result. */
  lemma ViewRowsSorted(users: seq<User>, s: ViewState)
    requires ValidView(s)
    ensures Sorted(View(users, s).rows, s.sortConfig)
    ensures View(users, s).totalPages == PageCount(users, s)
  {
    var list := FilteredAndSorted(users, s.searchTerm, s.sortConfig);
    SortSorted(FilterUsers(users, s.searchTerm), s.sortConfig);
    PageRowsSorted(list, s.currentPage, s.usersPerPage, s.sortConfig);
  }

  /** Rows drawn from a permutation of the search result are search results. */
  lemma ViewRowsFromSearch(list: seq<User>, f: seq<User>, rows: seq<User>)
    requires multiset(list) == multiset(f)
    requires forall u :: u in rows ==> u in list
    ensures forall u :: u in rows ==> u in f
  {
    forall u | u in rows ensures u in f {
      assert u in multiset(list);
    }
  }

  /** On an empty search result there are no pages, and "Next" is still enabled on
      page 1: it moves to page 0, which shows no rows even once records appear. */
  lemma NextOnEmptyResultReachesPageZero(users: seq<User>, s: ViewState)
    requires ValidView(s) && s.currentPage == 1 && FilterUsers(users, s.searchTerm) == []
    ensures PageCount(users, s) == 0
    ensures Step(users, s, NextClicked).currentPage == 0
    ensures forall more: seq<User> :: View(more, Step(users, s, NextClicked)).rows == []
  {
  }

  // ---------------------------------------------------------------------------
  // The add/edit dialog

  /** Whether the dialog is open, and the record being edited (none when adding). */
  datatype Dialog = Dialog(isOpen: bool, editing: Option<User>)

  const ClosedDialog: Dialog := Dialog(false, None)

  /** `openForm`: open the dialog to add (no record) or to edit the given record. */
  function OpenForm(user: Option<User>): Dialog
  {
    Dialog(true, user)
  }

  /** What the table asks of the application when the form is submitted. */
  datatype Request = AddRequest(data: Form) | UpdateRequest(id: int, data: Form)

  /** `handleFormSubmit`: an update of the edited record's id with the whole submitted
      form, or an add when no record is being edited; the dialog closes either way. */
  function HandleFormSubmit(d: Dialog, data: Form): (r: (Request, Dialog))
    ensures r.1 == ClosedDialog
    ensures r.0.data == data
    ensures r.0.UpdateRequest? <==> d.editing.Some?
    ensures r.0.UpdateRequest? ==> r.0.id == d.editing.value.id
  {
    var request := if d.editing.Some? then UpdateRequest(d.editing.value.id, data) else AddRequest(data);
    (request, ClosedDialog)
  }
}
