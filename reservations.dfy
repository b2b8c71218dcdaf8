/** The reservation actions of `src/app/actions/reservation.ts`: a public
    request for a book (an order), the list of pending orders, and the
    administrator's approval or rejection of one. */
module ReservationActions {
  import opened Base
  import opened Seqs
  import opened Records
  import opened Criteria
  import opened StudentActions

  /** An order for this book by this student is pending. */
  predicate HasPendingOrder(db: Db, bookId: Id, studentId: Id)
  {
    exists k :: k in db.orders && db.orders[k].bookId == bookId && db.orders[k].studentId == studentId
  }

  /** `createBookReservation`. The checks run in this order: the book exists,
      it has `available > 0`, a student has the enrollment, and that student
      has no pending order for the book. Only then is the order written, with
      `orderDate` = now; no book and no loan changes. */
  function CreateBookReservation(db: Db, bookId: Id, enrollment: string, returnDueDate: int, now: int): (s: Step<Order>)
    ensures s.result.Err? ==> s.db == db
    ensures s.result == Err(BookNotFound) <==> bookId !in db.books
    ensures s.result == Err(BookUnavailable) <==> bookId in db.books && db.books[bookId].available <= 0
    ensures s.result == Err(StudentNotFound) <==>
      bookId in db.books && db.books[bookId].available > 0 && GetStudentByEnrollment(db, enrollment).None?
    ensures s.result == Err(DuplicateRequest) <==>
      && bookId in db.books && db.books[bookId].available > 0
      && GetStudentByEnrollment(db, enrollment).Some?
      && HasPendingOrder(db, bookId, GetStudentByEnrollment(db, enrollment).value.id)
    ensures s.result.Err? ==> s.result.error in {BookNotFound, BookUnavailable, StudentNotFound, DuplicateRequest}
    ensures s.result.Ok? ==>
      var o := s.result.value;
      var student := GetStudentByEnrollment(db, enrollment);
      && student.Some? && student.value.enrollment == enrollment
      && o == Order(db.nextId, bookId, student.value.id, returnDueDate, now)
      && (KeysBelow(db.orders, db.nextId) ==> o.id !in db.orders)
      && s.db == db.(orders := db.orders[o.id := o], nextId := db.nextId + 1)
  {
    if bookId !in db.books then Step(db, Err(BookNotFound))
    else if db.books[bookId].available <= 0 then Step(db, Err(BookUnavailable))
    else
      match GetStudentByEnrollment(db, enrollment)
      case None => Step(db, Err(StudentNotFound))
      case Some(student) =>
        if HasPendingOrder(db, bookId, student.id) then Step(db, Err(DuplicateRequest))
        else
          var o := Order(db.nextId, bookId, student.id, returnDueDate, now);
          Step(db.(orders := db.orders[o.id := o], nextId := db.nextId + 1), Ok(o))
  }

  /** `getPendingBookReservations`: every order, latest first. */
  function GetPendingBookReservations(db: Db): (r: seq<Order>)
    ensures SortedBy(r, ByOrderDateDesc)
    ensures forall o :: o in r ==> o in db.orders.Values
    ensures KeysBelow(db.orders, db.nextId) ==> forall o :: o in db.orders.Values ==> o in r
    ensures IdsAreKeys(db) ==> forall i, j :: 0 <= i < j < |r| ==> r[i].id != r[j].id
  {
    ByOrderDateDescPreorder();
    RowsMembers(db.orders, db.nextId);
    var r := SortBy(Rows(db.orders, db.nextId), ByOrderDateDesc);
    QueryIdsDistinct(db.orders, db.nextId, r, (o: Order) => o.id);
    r
  }

  /** `approveReservation`. A missing order is refused; so is a book with
      `available <= 0`. An order whose book is gone fails when its `available`
      is read, before any write. Otherwise a loan is written (loan date now,
      the order's book, student and due date), the book's `available` (not
      its `quantity`) goes down by one, and the order is deleted. */
  function ApproveReservation(db: Db, id: Id, now: int): (s: Step<Loan>)
    ensures s.result.Err? ==> s.db == db
    ensures s.result == Err(OrderNotFound) <==> id !in db.orders
    ensures s.result == Err(StoreFailure) <==> id in db.orders && db.orders[id].bookId !in db.books
    ensures s.result == Err(BookUnavailable) <==>
      id in db.orders && db.orders[id].bookId in db.books && db.books[db.orders[id].bookId].available <= 0
    ensures s.result.Ok? ==>
      var o := db.orders[id];
      var l := s.result.value;
      && l == Loan(db.nextId, o.bookId, o.studentId, now, o.returnDueDate, false, None)
      && (KeysBelow(db.loans, db.nextId) ==> l.id !in db.loans)
      && s.db.loans == db.loans[l.id := l]
      && s.db.books == db.books[o.bookId := db.books[o.bookId].(available := db.books[o.bookId].available - 1)]
      && s.db.orders == db.orders - {id}
      && s.db.students == db.students && s.db.classes == db.classes && s.db.nextId == db.nextId + 1
  {
    if id !in db.orders then Step(db, Err(OrderNotFound))
    else
      var o := db.orders[id];
      if o.bookId !in db.books then Step(db, Err(StoreFailure))
      else if db.books[o.bookId].available <= 0 then Step(db, Err(BookUnavailable))
      else
        var loan := Loan(db.nextId, o.bookId, o.studentId, now, o.returnDueDate, false, None);
        var afterLoan := db.(loans := db.loans[loan.id := loan], nextId := db.nextId + 1);
        var book := afterLoan.books[o.bookId];
        var afterBook := afterLoan.(books := afterLoan.books[o.bookId := book.(available := book.available - 1)]);
        Step(afterBook.(orders := afterBook.orders - {id}), Ok(loan))
  }

  /** `rejectReservation`: a missing order is refused; otherwise exactly that
      order is deleted and nothing else changes. */
  function RejectReservation(db: Db, id: Id): (s: Step<()>)
    ensures s.result.Err? <==> id !in db.orders
    ensures s.result.Err? ==> s.result.error == OrderNotFound && s.db == db
    ensures s.result.Ok? ==> s.db == db.(orders := db.orders - {id})
  {
    if id !in db.orders then Step(db, Err(OrderNotFound))
    else Step(db.(orders := db.orders - {id}), Ok(()))
  }

  /** A new order never duplicates a pending (book, student) pair. */
  lemma CreateBookReservationPreservesValid(db: Db, bookId: Id, enrollment: string, returnDueDate: int, now: int)
    requires Valid(db)
    ensures Valid(CreateBookReservation(db, bookId, enrollment, returnDueDate, now).db)
  {
    var s := CreateBookReservation(db, bookId, enrollment, returnDueDate, now);
    if s.result.Ok? {
      var o := s.result.value;
      assert !HasPendingOrder(db, bookId, o.studentId);
      assert forall k :: k in db.orders ==> !(db.orders[k].bookId == o.bookId && db.orders[k].studentId == o.studentId);
      assert OneOrderPerPair(s.db.orders);
    }
  }

  lemma ApproveReservationPreservesValid(db: Db, id: Id, now: int)
    requires Valid(db)
    ensures Valid(ApproveReservation(db, id, now).db)
  {
    var s := ApproveReservation(db, id, now);
    if s.result.Ok? {
      IsbnsKept(db.books, s.db.books);
    }
  }

  lemma RejectReservationPreservesValid(db: Db, id: Id)
    requires Valid(db)
    ensures Valid(RejectReservation(db, id).db)
  {
  }

  /** Two orders for the last available copy, approved one after the other:
      the first wins, the second is refused with `BookUnavailable`, and the
      book ends with `available` 0. */
  lemma SecondApprovalOfLastCopyFails(db: Db, first: Id, second: Id, now: int, later: int)
    requires first in db.orders && second in db.orders && first != second
    requires db.orders[first].bookId == db.orders[second].bookId
    requires db.orders[first].bookId in db.books && db.books[db.orders[first].bookId].available == 1
    ensures
      var b := db.orders[first].bookId;
      var one := ApproveReservation(db, first, now);
      var two := ApproveReservation(one.db, second, later);
      && one.result.Ok?
      && two.result == Err(BookUnavailable)
      && two.db.books[b].available == 0
  {
  }

  /** Placing an order takes no copy: a book's counters after the order are
      those before. */
  lemma ReservationLeavesCounters(db: Db, bookId: Id, enrollment: string, returnDueDate: int, now: int)
    ensures CreateBookReservation(db, bookId, enrollment, returnDueDate, now).db.books == db.books
    ensures CreateBookReservation(db, bookId, enrollment, returnDueDate, now).db.loans == db.loans
  {
  }
}
