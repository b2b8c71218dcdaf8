/** The client logic of the public catalogue (`src/app/catalogo/page.tsx`):
    the window of page buttons, the page-change guard, the reset to page 1
    on a new search, and the guarded reservation form. */
module CatalogPage {
  import opened Base
  import opened Text
  import opened Records
  import ReservationActions
  import Store

  /** At most this many page buttons are shown. */
  const WindowSize: int := 5

  /** The number on button `i` (the branches inside `Array.from`): the first
      pages, the last pages, or the pages around the current one. */
  function PageNumber(totalPages: int, currentPage: int, i: int): int
  {
    if totalPages <= WindowSize then i + 1
    else if currentPage <= 3 then i + 1
    else if currentPage >= totalPages - 2 then totalPages - WindowSize + 1 + i
    else currentPage - 2 + i
  }

  /** The page buttons of `renderPagination`. There are `min(totalPages, 5)`
      of them, numbered consecutively upwards, all within `1..totalPages`,
      and the current page is among them whenever it is a real page. */
  function PageWindow(totalPages: int, currentPage: int): (w: seq<int>)
    ensures |w| == Max(0, Min(totalPages, WindowSize))
    ensures forall i :: 0 <= i < |w| ==> 1 <= w[i] <= totalPages
    ensures forall i :: 0 < i < |w| ==> w[i] == w[i - 1] + 1
    ensures 1 <= currentPage <= totalPages ==> currentPage in w
  {
    var w := seq(Max(0, Min(totalPages, WindowSize)), i => PageNumber(totalPages, currentPage, i));
    var k := currentPage - PageNumber(totalPages, currentPage, 0);
    assert 1 <= currentPage <= totalPages ==> 0 <= k < |w| && w[k] == currentPage;
    w
  }

  /** `renderPagination`: nothing for a single page (or none), otherwise the
      window of buttons. */
  function RenderPagination(totalPages: int, currentPage: int): (r: Option<seq<int>>)
    ensures r.None? <==> totalPages <= 1
    ensures r.Some? ==> |r.value| >= 2 && r.value == PageWindow(totalPages, currentPage)
  {
    if totalPages <= 1 then None else Some(PageWindow(totalPages, currentPage))
  }

  /** Away from both ends the current page sits in the middle of the window. */
  lemma WindowCentred(totalPages: int, currentPage: int)
    requires totalPages > WindowSize && 3 < currentPage < totalPages - 2
    ensures PageWindow(totalPages, currentPage)[2] == currentPage
    ensures PageWindow(totalPages, currentPage)[0] == currentPage - 2
  {
  }

  /** The outcomes of submitting the reservation form. */
  datatype ReservationOutcome =
    | BlankEnrollment
    | MissingDate
    | NoBookSelected
    | Submitted(result: Result<Order>)

  /** The state of the catalogue screen. */
  class CatalogView {
    var searchQuery: string
    var debouncedQuery: string
    var currentPage: int
    var totalPages: int
    var selectedBook: Option<Book>
    var modalOpen: bool
    var studentEnrollment: string
    var returnDate: Option<int>
    var isSubmitting: bool

    /** The current page is a real page. */
    predicate PageInRange()
      reads this
    {
      1 <= currentPage <= totalPages
    }

    /** The initial state: page 1 of 1, no search, no open form. */
    constructor(now: int)
      ensures searchQuery == "" && debouncedQuery == "" && currentPage == 1 && totalPages == 1
      ensures selectedBook == None && !modalOpen && studentEnrollment == ""
      ensures returnDate == Some(AddDays(now, 7)) && !isSubmitting
      ensures PageInRange()
    {
      searchQuery, debouncedQuery, currentPage, totalPages := "", "", 1, 1;
      selectedBook, modalOpen, studentEnrollment := None, false, "";
      returnDate, isSubmitting := Some(AddDays(now, 7)), false;
    }

    /** The debounce timer firing: the typed query becomes the active one and
        the listing goes back to page 1. */
    method DebounceFired()
      modifies this
      ensures debouncedQuery == old(searchQuery) && currentPage == 1
      ensures searchQuery == old(searchQuery) && totalPages == old(totalPages)
      ensures selectedBook == old(selectedBook) && modalOpen == old(modalOpen)
      ensures studentEnrollment == old(studentEnrollment) && returnDate == old(returnDate)
      ensures isSubmitting == old(isSubmitting)
      ensures totalPages >= 1 ==> PageInRange()
    {
      debouncedQuery := searchQuery;
      currentPage := 1;
    }

    /** `handlePageChange`: a target below 1, beyond the last page or equal
        to the current page is ignored; any other becomes the current page. */
    method HandlePageChange(page: int)
      modifies this
      ensures page < 1 || page > old(totalPages) || page == old(currentPage) ==> currentPage == old(currentPage)
      ensures 1 <= page <= old(totalPages) ==> currentPage == page
      ensures old(PageInRange()) ==> PageInRange()
      ensures currentPage != old(currentPage) ==> PageInRange()
      ensures searchQuery == old(searchQuery) && debouncedQuery == old(debouncedQuery) && totalPages == old(totalPages)
      ensures selectedBook == old(selectedBook) && modalOpen == old(modalOpen)
      ensures studentEnrollment == old(studentEnrollment) && returnDate == old(returnDate)
      ensures isSubmitting == old(isSubmitting)
    {
      if page < 1 || page > totalPages || page == currentPage {
        return;
      }
      currentPage := page;
    }

    /** `openReservationModal`: the form opens for the book with an empty
        enrollment and a return date one week from now. */
    method OpenReservationModal(book: Book, now: int)
      modifies this
      ensures selectedBook == Some(book) && modalOpen
      ensures studentEnrollment == "" && returnDate == Some(AddDays(now, 7))
      ensures searchQuery == old(searchQuery) && debouncedQuery == old(debouncedQuery)
      ensures currentPage == old(currentPage) && totalPages == old(totalPages)
      ensures isSubmitting == old(isSubmitting)
    {
      selectedBook := Some(book);
      modalOpen := true;
      studentEnrollment := "";
      returnDate := Some(AddDays(now, 7));
    }

    /** Closing the form after a successful request; the submit flag drops
        whatever the outcome (the `finally`). */
    method FinishSubmit(success: bool)
      modifies this
      ensures !isSubmitting
      ensures modalOpen == (old(modalOpen) && !success)
      ensures searchQuery == old(searchQuery) && debouncedQuery == old(debouncedQuery)
      ensures currentPage == old(currentPage) && totalPages == old(totalPages)
      ensures selectedBook == old(selectedBook) && studentEnrollment == old(studentEnrollment)
      ensures returnDate == old(returnDate)
    {
      if success {
        modalOpen := false;
      }
      isSubmitting := false;
    }

    /** `handleSubmitReservation`. A blank enrollment (after trimming) and a
        missing date are refused first; with no book chosen the request
        cannot be built. Only then is `createBookReservation` called, with
        the enrollment as typed (untrimmed). */
    method HandleSubmitReservation(lib: Store.Library, now: int) returns (out: ReservationOutcome)
      requires lib.Valid()
      modifies this, lib
      ensures lib.Valid()
      ensures out == BlankEnrollment <==> IsBlank(old(studentEnrollment))
      ensures out == MissingDate <==> !IsBlank(old(studentEnrollment)) && old(returnDate).None?
      ensures out == NoBookSelected <==>
        !IsBlank(old(studentEnrollment)) && old(returnDate).Some? && old(selectedBook).None?
      ensures !out.Submitted? ==> lib.State() == old(lib.State())
      ensures !out.Submitted? ==> modalOpen == old(modalOpen)
      ensures out.Submitted? ==>
        var s := ReservationActions.CreateBookReservation(old(lib.State()), old(selectedBook).value.id,
                                                          old(studentEnrollment), old(returnDate).value, now);
        lib.State() == s.db && out.result == s.result
      ensures out.Submitted? ==> !isSubmitting && modalOpen == (old(modalOpen) && out.result.Err?)
      ensures out.NoBookSelected? ==> !isSubmitting
      ensures out.BlankEnrollment? || out.MissingDate? ==> isSubmitting == old(isSubmitting)
      ensures searchQuery == old(searchQuery) && debouncedQuery == old(debouncedQuery)
      ensures currentPage == old(currentPage) && totalPages == old(totalPages)
      ensures selectedBook == old(selectedBook) && studentEnrollment == old(studentEnrollment)
      ensures returnDate == old(returnDate)
    {
      TrimEmptyIffBlank(studentEnrollment);
      if Trim(studentEnrollment) == "" {
        return BlankEnrollment;
      }
      if returnDate.None? {
        return MissingDate;
      }
      isSubmitting := true;
      if selectedBook.None? {
        FinishSubmit(false);
        return NoBookSelected;
      }
      var result := lib.CreateBookReservation(selectedBook.value.id, studentEnrollment, returnDate.value, now);
      FinishSubmit(result.Ok?);
      return Submitted(result);
    }
  }
}
