/** The client logic of the loan screen (`src/app/dashboard/emprestimos/page.tsx`):
    lateness, the status and text filters, the column sort and its toggle,
    the guarded loan form and the debounced searches. */
module LoansPage {
  import opened Base
  import opened Text
  import opened Seqs
  import opened Records
  import LoanActions
  import Store

  /** A row of the active-loan list: the loan with its book and student, as
      the `include` of `getActiveLoans` delivers it. */
  datatype LoanRow = LoanRow(loan: Loan, book: Book, student: Student)

  /** The sortable columns. */
  datatype SortField = BookTitle | StudentName | LoanDate | ReturnDueDate

  datatype Direction = Asc | Desc

  datatype StatusFilter = All | Late | OnTime

  /** `isLoanLate`: today is strictly after the due date. */
  predicate IsLoanLate(row: LoanRow, now: int)
  {
    now > row.loan.returnDueDate
  }

  /** `valA <= valB` for the chosen column: strings compare by code, dates by
      their time value. */
  predicate KeyLe(field: SortField, a: LoanRow, b: LoanRow)
  {
    match field
    case BookTitle => StrLe(a.book.title, b.book.title)
    case StudentName => StrLe(a.student.name, b.student.name)
    case LoanDate => a.loan.loanDate <= b.loan.loanDate
    case ReturnDueDate => a.loan.returnDueDate <= b.loan.returnDueDate
  }

  /** The comparator of `sortLoans`: `a` may come before `b`. */
  predicate Precedes(field: SortField, dir: Direction, a: LoanRow, b: LoanRow)
  {
    if dir == Asc then KeyLe(field, a, b) else KeyLe(field, b, a)
  }

  lemma PrecedesPreorder(field: SortField, dir: Direction)
    ensures TotalPreorder((a, b) => Precedes(field, dir, a, b))
  {
    forall a, b ensures KeyLe(field, a, b) || KeyLe(field, b, a) {
      match field
      case BookTitle => StrLeTotal(a.book.title, b.book.title);
      case StudentName => StrLeTotal(a.student.name, b.student.name);
      case LoanDate =>
      case ReturnDueDate =>
    }
    forall a, b, c | KeyLe(field, a, b) && KeyLe(field, b, c) ensures KeyLe(field, a, c) {
      match field
      case BookTitle => StrLeTransitive(a.book.title, b.book.title, c.book.title);
      case StudentName => StrLeTransitive(a.student.name, b.student.name, c.student.name);
      case LoanDate =>
      case ReturnDueDate =>
    }
  }

  /** `sortLoans`: a sorted copy. It holds the same rows as the input, and the
      chosen key never decreases (`Asc`) or never increases (`Desc`). */
  function SortLoans(rows: seq<LoanRow>, field: SortField, dir: Direction): (r: seq<LoanRow>)
    ensures multiset(r) == multiset(rows)
    ensures forall i, j :: 0 <= i < j < |r| ==>
      (dir == Asc ==> KeyLe(field, r[i], r[j])) && (dir == Desc ==> KeyLe(field, r[j], r[i]))
  {
    PrecedesPreorder(field, dir);
    var r := SortBy(rows, (a, b) => Precedes(field, dir, a, b));
    assert forall i, j :: 0 <= i < j < |r| ==> Precedes(field, dir, r[i], r[j]);
    r
  }

  /** What the status filter lets through. */
  predicate StatusHolds(status: StatusFilter, row: LoanRow, now: int)
  {
    match status
    case All => true
    case Late => IsLoanLate(row, now)
    case OnTime => !IsLoanLate(row, now)
  }

  /** The status step of `getFilteredAndSortedLoans`. */
  function ByStatus(rows: seq<LoanRow>, status: StatusFilter, now: int): (r: seq<LoanRow>)
    ensures status == All ==> r == rows
    ensures forall x :: x in r <==> x in rows && StatusHolds(status, x, now)
    ensures multiset(r) <= multiset(rows)
    ensures forall x :: multiset(r)[x] == if StatusHolds(status, x, now) then multiset(rows)[x] else 0
  {
    FilterCount(rows, x => StatusHolds(status, x, now));
    if status == All then rows else Filter(rows, x => StatusHolds(status, x, now))
  }

  /** "Late" and "on time" split the list: each row is in exactly one of the
      two filtered lists, as often as in the list itself. */
  lemma LateAndOnTimePartition(rows: seq<LoanRow>, now: int)
    ensures multiset(ByStatus(rows, Late, now)) + multiset(ByStatus(rows, OnTime, now)) == multiset(rows)
    ensures forall x :: x in ByStatus(rows, Late, now) ==> x !in ByStatus(rows, OnTime, now)
  {
    FilterPartition(rows, x => StatusHolds(Late, x, now), x => StatusHolds(OnTime, x, now));
  }

  /** The text test: the lower-cased term occurs in the lower-cased title,
      author, ISBN, student name or enrollment. */
  predicate MatchesTerm(row: LoanRow, term: string)
  {
    || ContainsInsensitive(row.book.title, term)
    || ContainsInsensitive(row.book.author, term)
    || ContainsInsensitive(row.book.isbn, term)
    || ContainsInsensitive(row.student.name, term)
    || ContainsInsensitive(row.student.enrollment, term)
  }

  /** The text step of `getFilteredAndSortedLoans`; an empty term is falsy
      and skips it. */
  function ByText(rows: seq<LoanRow>, filterText: string): (r: seq<LoanRow>)
    ensures filterText == "" ==> r == rows
    ensures forall x :: x in r <==> x in rows && MatchesTerm(x, filterText)
    ensures multiset(r) <= multiset(rows)
    ensures forall x :: multiset(r)[x] == if MatchesTerm(x, filterText) then multiset(rows)[x] else 0
  {
    if filterText == "" then
      EmptyTermMatches(rows);
      assert forall x :: x !in rows ==> multiset(rows)[x] == 0;
      rows
    else
      FilterCount(rows, x => MatchesTerm(x, filterText));
      Filter(rows, x => MatchesTerm(x, filterText))
  }

  /** The empty term occurs in every field, so skipping the filter for it
      keeps what filtering would. */
  lemma EmptyTermMatches(rows: seq<LoanRow>)
    ensures forall x :: x in rows ==> MatchesTerm(x, "")
  {
    forall x | x in rows ensures MatchesTerm(x, "") {
      ContainsEmpty(Lower(x.book.title));
    }
  }

  /** `getFilteredAndSortedLoans`: the rows of the list that pass both
      filters, each as often as in the list at most, in the chosen order. */
  function FilterAndSort(activeLoans: seq<LoanRow>, status: StatusFilter, filterText: string,
                         field: SortField, dir: Direction, now: int): (r: seq<LoanRow>)
    ensures forall x :: x in r <==> x in activeLoans && StatusHolds(status, x, now) && MatchesTerm(x, filterText)
    ensures multiset(r) <= multiset(activeLoans)
    ensures forall x :: multiset(r)[x] ==
                        if StatusHolds(status, x, now) && MatchesTerm(x, filterText) then multiset(activeLoans)[x] else 0
    ensures forall i, j :: 0 <= i < j < |r| ==>
      (dir == Asc ==> KeyLe(field, r[i], r[j])) && (dir == Desc ==> KeyLe(field, r[j], r[i]))
  {
    var byStatus := ByStatus(activeLoans, status, now);
    var byText := ByText(byStatus, filterText);
    var r := SortLoans(byText, field, dir);
    assert forall x :: x in r <==> x in multiset(byText);
    r
  }

  function Flip(d: Direction): Direction
  {
    if d == Asc then Desc else Asc
  }

  /** The sort state after a click on a column header (`handleSort`). */
  function NextSort(field: SortField, dir: Direction, clicked: SortField): (r: (SortField, Direction))
    ensures r.0 == clicked
    ensures clicked == field ==> r.1 != dir
    ensures clicked != field ==> r.1 == Asc
  {
    if field == clicked then (field, Flip(dir)) else (clicked, Asc)
  }

  /** Clicking the same header twice restores the direction; clicking a new
      header and then it again gives descending order. */
  lemma SortToggle(field: SortField, dir: Direction, clicked: SortField)
    ensures var s := NextSort(field, dir, clicked); NextSort(s.0, s.1, clicked) == (if clicked == field then (field, dir) else (clicked, Desc))
  {
  }

  /** The outcomes of submitting the loan form. */
  datatype LoanFormOutcome = MissingBook | MissingStudent | MissingDate | Submitted(result: Result<Loan>)

  /** Book and student searches run only for a debounced query whose
      `length` is two or more, counted in UTF-16 code units. */
  predicate ShouldSearch(query: string)
  {
    Utf16Length(query) >= 2
  }

  /** Every query of two characters or more searches, none of zero characters
      does, and a single character searches exactly when it lies beyond the
      Basic Multilingual Plane (an emoji is two code units). */
  lemma ShouldSearchByLength(query: string)
    ensures |query| >= 2 ==> ShouldSearch(query)
    ensures query == "" ==> !ShouldSearch(query)
    ensures |query| == 1 ==> (ShouldSearch(query) <==> query[0] as int > 0xFFFF)
  {
    if |query| == 1 {
      assert query[1..] == "";
    }
  }

  /** The state of the loan screen. */
  class LoansView {
    var activeLoans: seq<LoanRow>
    var filterText: string
    var statusFilter: StatusFilter
    var sortField: SortField
    var sortDirection: Direction
    var bookQuery: string
    var studentQuery: string
    var bookResults: seq<Book>
    var studentResults: seq<Student>
    var selectedBook: Option<Book>
    var selectedStudent: Option<Student>
    var returnDate: Option<int>

    /** The initial state: nothing selected, a return date one week ahead,
        no filter, sorted by due date ascending. */
    constructor(now: int)
      ensures activeLoans == [] && filterText == "" && statusFilter == All
      ensures sortField == ReturnDueDate && sortDirection == Asc
      ensures bookQuery == "" && studentQuery == "" && bookResults == [] && studentResults == []
      ensures selectedBook == None && selectedStudent == None && returnDate == Some(AddDays(now, 7))
    {
      activeLoans, filterText, statusFilter := [], "", All;
      sortField, sortDirection := ReturnDueDate, Asc;
      bookQuery, studentQuery, bookResults, studentResults := "", "", [], [];
      selectedBook, selectedStudent, returnDate := None, None, Some(AddDays(now, 7));
    }

    /** The rows the table shows. */
    function Displayed(now: int): seq<LoanRow>
      reads this
    {
      FilterAndSort(activeLoans, statusFilter, filterText, sortField, sortDirection, now)
    }

    method HandleSort(clicked: SortField)
      modifies this
      ensures (sortField, sortDirection) == NextSort(old(sortField), old(sortDirection), clicked)
      ensures activeLoans == old(activeLoans) && filterText == old(filterText) && statusFilter == old(statusFilter)
      ensures bookQuery == old(bookQuery) && studentQuery == old(studentQuery)
      ensures bookResults == old(bookResults) && studentResults == old(studentResults)
      ensures selectedBook == old(selectedBook) && selectedStudent == old(selectedStudent)
      ensures returnDate == old(returnDate)
    {
      if sortField == clicked {
        sortDirection := if sortDirection == Asc then Desc else Asc;
      } else {
        sortField := clicked;
        sortDirection := Asc;
      }
    }

    /** The book search effect: runs `searchBooks` only for a query of two or
        more characters; otherwise the previous results stay. */
    method FetchBooks(lib: Store.Library, debouncedQuery: string)
      modifies this
      ensures ShouldSearch(debouncedQuery) ==> bookResults == LoanActions.SearchBooks(lib.State(), debouncedQuery)
      ensures !ShouldSearch(debouncedQuery) ==> bookResults == old(bookResults)
      ensures studentResults == old(studentResults) && activeLoans == old(activeLoans)
      ensures selectedBook == old(selectedBook) && selectedStudent == old(selectedStudent)
      ensures bookQuery == old(bookQuery) && studentQuery == old(studentQuery) && returnDate == old(returnDate)
      ensures filterText == old(filterText) && statusFilter == old(statusFilter)
      ensures sortField == old(sortField) && sortDirection == old(sortDirection)
    {
      if ShouldSearch(debouncedQuery) {
        bookResults := LoanActions.SearchBooks(lib.State(), debouncedQuery);
      }
    }

    /** The student search effect, with the same length guard. */
    method FetchStudents(lib: Store.Library, debouncedQuery: string)
      modifies this
      ensures ShouldSearch(debouncedQuery) ==> studentResults == LoanActions.SearchStudents(lib.State(), debouncedQuery)
      ensures !ShouldSearch(debouncedQuery) ==> studentResults == old(studentResults)
      ensures bookResults == old(bookResults) && activeLoans == old(activeLoans)
      ensures selectedBook == old(selectedBook) && selectedStudent == old(selectedStudent)
      ensures bookQuery == old(bookQuery) && studentQuery == old(studentQuery) && returnDate == old(returnDate)
      ensures filterText == old(filterText) && statusFilter == old(statusFilter)
      ensures sortField == old(sortField) && sortDirection == old(sortDirection)
    {
      if ShouldSearch(debouncedQuery) {
        studentResults := LoanActions.SearchStudents(lib.State(), debouncedQuery);
      }
    }

    /** The form reset after a successful loan: nothing selected, empty
        search boxes and a return date one week from now. */
    method ResetLoanForm(now: int)
      modifies this
      ensures selectedBook == None && selectedStudent == None && returnDate == Some(AddDays(now, 7))
      ensures bookQuery == "" && studentQuery == ""
      ensures activeLoans == old(activeLoans) && filterText == old(filterText) && statusFilter == old(statusFilter)
      ensures sortField == old(sortField) && sortDirection == old(sortDirection)
      ensures bookResults == old(bookResults) && studentResults == old(studentResults)
    {
      selectedBook := None;
      selectedStudent := None;
      returnDate := Some(AddDays(now, 7));
      bookQuery := "";
      studentQuery := "";
    }

    /** `handleCreateLoan`: the book, the student and the return date are
        checked in that order, and `createLoan` is called only when all three
        are set. On success the form is reset, with a new date one week from
        now. */
    method HandleCreateLoan(lib: Store.Library, now: int) returns (out: LoanFormOutcome)
      requires lib.Valid()
      modifies this, lib
      ensures lib.Valid()
      ensures out == MissingBook <==> old(selectedBook).None?
      ensures out == MissingStudent <==> old(selectedBook).Some? && old(selectedStudent).None?
      ensures out == MissingDate <==> old(selectedBook).Some? && old(selectedStudent).Some? && old(returnDate).None?
      ensures !out.Submitted? ==> lib.State() == old(lib.State())
      ensures !out.Submitted? ==>
        selectedBook == old(selectedBook) && selectedStudent == old(selectedStudent) && returnDate == old(returnDate)
        && bookQuery == old(bookQuery) && studentQuery == old(studentQuery)
      ensures out.Submitted? ==>
        var s := LoanActions.CreateLoan(old(lib.State()), old(selectedBook).value.id,
                                        old(selectedStudent).value.id, old(returnDate).value, now);
        lib.State() == s.db && out.result == s.result
      ensures out.Submitted? && out.result.Ok? ==>
        && selectedBook == None && selectedStudent == None && returnDate == Some(AddDays(now, 7))
        && bookQuery == "" && studentQuery == ""
      ensures out.Submitted? && out.result.Err? ==>
        selectedBook == old(selectedBook) && selectedStudent == old(selectedStudent) && returnDate == old(returnDate)
        && bookQuery == old(bookQuery) && studentQuery == old(studentQuery)
      ensures activeLoans == old(activeLoans) && filterText == old(filterText) && statusFilter == old(statusFilter)
      ensures sortField == old(sortField) && sortDirection == old(sortDirection)
      ensures bookResults == old(bookResults) && studentResults == old(studentResults)
    {
      if selectedBook.None? {
        return MissingBook;
      }
      if selectedStudent.None? {
        return MissingStudent;
      }
      if returnDate.None? {
        return MissingDate;
      }
      var result := lib.CreateLoan(selectedBook.value.id, selectedStudent.value.id, returnDate.value, now);
      if result.Ok? {
        ResetLoanForm(now);
      }
      return Submitted(result);
    }
  }
}
