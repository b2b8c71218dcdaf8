/** The loan actions of `src/app/actions/loan.ts`: creating, returning and
    cancelling a loan, and the loan, book and student queries of the loan
    screen. Each action is a function from the store before to the store after
    and the action's result. */
module LoanActions {
  import opened Base
  import opened Text
  import opened Seqs
  import opened Records
  import opened Criteria

  /** `createLoan`. The guard is `!book || !book.available`, so only a missing
      book or an `available` of exactly 0 is refused. The new loan is written
      first; then the book's `quantity` (not its `available`) goes down by one. */
  function CreateLoan(db: Db, bookId: Id, studentId: Id, returnDueDate: int, now: int): (s: Step<Loan>)
    ensures s.result.Err? <==> bookId !in db.books || db.books[bookId].available == 0
    ensures s.result.Err? ==> s.result.error == BookUnavailable && s.db == db
    ensures s.result.Ok? ==>
      var l := s.result.value;
      && l.bookId == bookId && l.studentId == studentId && l.returnDueDate == returnDueDate
      && l.loanDate == now && !l.returned && l.actualReturnDate == None
      && (KeysBelow(db.loans, db.nextId) ==> l.id !in db.loans)
      && s.db.loans == db.loans[l.id := l]
      && s.db.books.Keys == db.books.Keys
      && s.db.books[bookId] == db.books[bookId].(quantity := db.books[bookId].quantity - 1)
      && (forall k :: k in db.books && k != bookId ==> s.db.books[k] == db.books[k])
      && s.db.students == db.students && s.db.orders == db.orders && s.db.classes == db.classes
      && s.db.nextId == db.nextId + 1
  {
    if bookId !in db.books || db.books[bookId].available == 0 then
      Step(db, Err(BookUnavailable))
    else
      var loan := Loan(db.nextId, bookId, studentId, now, returnDueDate, false, None);
      var afterCreate := db.(loans := db.loans[loan.id := loan], nextId := db.nextId + 1);
      var book := afterCreate.books[bookId];
      Step(afterCreate.(books := afterCreate.books[bookId := book.(quantity := book.quantity - 1)]), Ok(loan))
  }

  /** `returnLoan`. A missing or already returned loan is refused with no
      change. Otherwise the loan is marked returned at `now` and then the
      book's `quantity` goes up by one; should the book be gone, that second
      write fails after the first one was made. */
  function ReturnLoan(db: Db, id: Id, now: int): (s: Step<Loan>)
    ensures s.result == Err(LoanNotFound) <==> id !in db.loans
    ensures s.result == Err(AlreadyReturned) <==> id in db.loans && db.loans[id].returned
    ensures s.result.Ok? <==> id in db.loans && !db.loans[id].returned && db.loans[id].bookId in db.books
    ensures (id !in db.loans || db.loans[id].returned) ==> s.db == db
    ensures s.result.Ok? ==>
      var l := s.result.value;
      var b := db.loans[id].bookId;
      && l == db.loans[id].(returned := true, actualReturnDate := Some(now))
      && s.db.loans == db.loans[id := l]
      && s.db.books.Keys == db.books.Keys
      && s.db.books[b] == db.books[b].(quantity := db.books[b].quantity + 1)
      && (forall k :: k in db.books && k != b ==> s.db.books[k] == db.books[k])
      && s.db.students == db.students && s.db.orders == db.orders && s.db.classes == db.classes
      && s.db.nextId == db.nextId
    ensures s.result == Err(StoreFailure) ==>
      s.db == db.(loans := db.loans[id := db.loans[id].(returned := true, actualReturnDate := Some(now))])
  {
    if id !in db.loans then Step(db, Err(LoanNotFound))
    else if db.loans[id].returned then Step(db, Err(AlreadyReturned))
    else
      var updated := db.loans[id].(returned := true, actualReturnDate := Some(now));
      var afterUpdate := db.(loans := db.loans[id := updated]);
      if updated.bookId !in afterUpdate.books then Step(afterUpdate, Err(StoreFailure))
      else
        var book := afterUpdate.books[updated.bookId];
        Step(afterUpdate.(books := afterUpdate.books[updated.bookId := book.(quantity := book.quantity + 1)]), Ok(updated))
  }

  /** `cancelLoan`. Only a missing loan is refused; a returned loan can be
      cancelled too. The loan is deleted, then the book's `quantity` goes up by
      one; should the book be gone, that second write fails after the delete. */
  function CancelLoan(db: Db, id: Id): (s: Step<()>)
    ensures s.result == Err(LoanNotFound) <==> id !in db.loans
    ensures id !in db.loans ==> s.db == db
    ensures s.result.Ok? <==> id in db.loans && db.loans[id].bookId in db.books
    ensures id in db.loans ==> s.db.loans == db.loans - {id} && s.db.orders == db.orders
    ensures s.result.Ok? ==>
      var b := db.loans[id].bookId;
      && s.db.books.Keys == db.books.Keys
      && s.db.books[b] == db.books[b].(quantity := db.books[b].quantity + 1)
      && (forall k :: k in db.books && k != b ==> s.db.books[k] == db.books[k])
      && s.db.students == db.students && s.db.classes == db.classes && s.db.nextId == db.nextId
    ensures s.result == Err(StoreFailure) ==> s.db == db.(loans := db.loans - {id})
  {
    if id !in db.loans then Step(db, Err(LoanNotFound))
    else
      var loan := db.loans[id];
      var afterDelete := db.(loans := db.loans - {id});
      if loan.bookId !in afterDelete.books then Step(afterDelete, Err(StoreFailure))
      else
        var book := afterDelete.books[loan.bookId];
        Step(afterDelete.(books := afterDelete.books[loan.bookId := book.(quantity := book.quantity + 1)]), Ok(()))
  }

  lemma CreateLoanPreservesValid(db: Db, bookId: Id, studentId: Id, returnDueDate: int, now: int)
    requires Valid(db)
    ensures Valid(CreateLoan(db, bookId, studentId, returnDueDate, now).db)
  {
    var s := CreateLoan(db, bookId, studentId, returnDueDate, now);
    if s.result.Ok? {
      IsbnsKept(db.books, s.db.books);
    }
  }

  lemma ReturnLoanPreservesValid(db: Db, id: Id, now: int)
    requires Valid(db)
    ensures Valid(ReturnLoan(db, id, now).db)
  {
    var s := ReturnLoan(db, id, now);
    if s.result.Ok? {
      IsbnsKept(db.books, s.db.books);
    }
  }

  lemma CancelLoanPreservesValid(db: Db, id: Id)
    requires Valid(db)
    ensures Valid(CancelLoan(db, id).db)
  {
    var s := CancelLoan(db, id);
    if s.result.Ok? {
      IsbnsKept(db.books, s.db.books);
    }
  }

  /** In a consistent store `returnLoan` never stops half way: an active loan's
      book exists, so the action either succeeds or changes nothing. */
  lemma ReturnLoanAllOrNothing(db: Db, id: Id, now: int)
    requires Valid(db)
    ensures ReturnLoan(db, id, now).result.Err? ==> ReturnLoan(db, id, now).db == db
    ensures ReturnLoan(db, id, now).result.Ok? <==> id in db.loans && !db.loans[id].returned
  {
  }

  /** `cancelLoan` does not look at `returned`: cancelling a returned loan
      whose book still exists succeeds and again adds one to `quantity`. */
  lemma CancelReturnedLoan(db: Db, id: Id, now: int)
    requires Valid(db) && ReturnLoan(db, id, now).result.Ok?
    ensures
      var afterReturn := ReturnLoan(db, id, now).db;
      var b := db.loans[id].bookId;
      && CancelLoan(afterReturn, id).result.Ok?
      && CancelLoan(afterReturn, id).db.books[b].quantity == db.books[b].quantity + 2
  {
  }

  /** Creating a loan and cancelling it again gives back the books and the
      loans as they were; only the id counter has moved on. */
  lemma CreateThenCancel(db: Db, bookId: Id, studentId: Id, returnDueDate: int, now: int)
    requires Valid(db)
    requires CreateLoan(db, bookId, studentId, returnDueDate, now).result.Ok?
    ensures
      var created := CreateLoan(db, bookId, studentId, returnDueDate, now);
      var cancelled := CancelLoan(created.db, created.result.value.id);
      && cancelled.result == Ok(())
      && cancelled.db == db.(nextId := db.nextId + 1)
  {
    var created := CreateLoan(db, bookId, studentId, returnDueDate, now);
    var l := created.result.value;
    var cancelled := CancelLoan(created.db, l.id);
    assert l.id !in db.loans;
    assert cancelled.db.loans == db.loans;
    assert cancelled.db.books[bookId] == db.books[bookId];
    assert cancelled.db.books == db.books;
  }

  /** Returning twice: the second call is refused with `AlreadyReturned` and
      changes nothing, so `quantity` rises exactly once. */
  lemma ReturnTwice(db: Db, id: Id, now: int, later: int)
    requires ReturnLoan(db, id, now).result.Ok?
    ensures
      var first := ReturnLoan(db, id, now);
      var b := db.loans[id].bookId;
      && ReturnLoan(first.db, id, later) == Step(first.db, Err(AlreadyReturned))
      && ReturnLoan(first.db, id, later).db.books[b].quantity == db.books[b].quantity + 1
  {
  }

  /** `k` loans of the same book in a row, each one created with the next id. */
  function LendRepeatedly(db: Db, bookId: Id, studentId: Id, returnDueDate: int, now: int, k: nat): Db
    decreases k
  {
    if k == 0 then db
    else LendRepeatedly(CreateLoan(db, bookId, studentId, returnDueDate, now).db, bookId, studentId, returnDueDate, now, k - 1)
  }

  /** As written, `createLoan` checks `available` but lowers `quantity`, so a
      book with any copy available can be lent any number of times: after `k`
      loans every one of them succeeded, `available` is untouched and
      `quantity` has dropped by `k`. */
  lemma {:induction false} OverLending(db: Db, bookId: Id, studentId: Id, returnDueDate: int, now: int, k: nat)
    requires bookId in db.books && db.books[bookId].available != 0
    ensures
      var after := LendRepeatedly(db, bookId, studentId, returnDueDate, now, k);
      && bookId in after.books
      && after.books[bookId].available == db.books[bookId].available
      && after.books[bookId].quantity == db.books[bookId].quantity - k
      && after.nextId == db.nextId + k
    decreases k
  {
    if k > 0 {
      var next := CreateLoan(db, bookId, studentId, returnDueDate, now);
      assert next.result.Ok?;
      OverLending(next.db, bookId, studentId, returnDueDate, now, k - 1);
    }
  }

  predicate IsActive(l: Loan) { !l.returned }

  /** `getActiveLoans`: the loans not yet returned, latest loan first. */
  function GetActiveLoans(db: Db): (r: seq<Loan>)
    ensures SortedBy(r, ByLoanDateDesc)
    ensures forall l :: l in r ==> l in db.loans.Values && !l.returned
    ensures KeysBelow(db.loans, db.nextId) ==> forall l :: l in db.loans.Values && !l.returned ==> l in r
    ensures IdsAreKeys(db) ==> forall i, j :: 0 <= i < j < |r| ==> r[i].id != r[j].id
  {
    ByLoanDateDescPreorder();
    RowsMembers(db.loans, db.nextId);
    var r := SortBy(Filter(Rows(db.loans, db.nextId), IsActive), ByLoanDateDesc);
    QueryIdsDistinct(db.loans, db.nextId, r, (l: Loan) => l.id);
    r
  }

  /** `getAllLoans`: every loan, latest loan first. */
  function GetAllLoans(db: Db): (r: seq<Loan>)
    ensures SortedBy(r, ByLoanDateDesc)
    ensures forall l :: l in r ==> l in db.loans.Values
    ensures KeysBelow(db.loans, db.nextId) ==> forall l :: l in db.loans.Values ==> l in r
    ensures IdsAreKeys(db) ==> forall i, j :: 0 <= i < j < |r| ==> r[i].id != r[j].id
  {
    ByLoanDateDescPreorder();
    RowsMembers(db.loans, db.nextId);
    var r := SortBy(Rows(db.loans, db.nextId), ByLoanDateDesc);
    QueryIdsDistinct(db.loans, db.nextId, r, (l: Loan) => l.id);
    r
  }

  /** The most rows a search returns (`take: 20`). */
  const SearchLimit: nat := 20

  /** What `searchBooks` looks for: a book with `quantity > 0` (not
      `available`) whose text matches the query. */
  predicate IsBookHit(b: Book, query: string)
  {
    b.quantity > 0 && BookMatchesText(b, query)
  }

  /** `searchBooks`: at most 20 matching books by title; a matching book is left
      out only when 20 books that come no later by title were returned. */
  function SearchBooks(db: Db, query: string): (r: seq<Book>)
    ensures |r| <= SearchLimit
    ensures SortedBy(r, ByTitle)
    ensures forall b :: b in r ==> b in db.books.Values && IsBookHit(b, query)
    ensures KeysBelow(db.books, db.nextId) ==>
      forall b :: b in db.books.Values && IsBookHit(b, query) && b !in r ==>
        |r| == SearchLimit && forall c :: c in r ==> ByTitle(c, b)
    ensures IdsAreKeys(db) ==> forall i, j :: 0 <= i < j < |r| ==> r[i].id != r[j].id
  {
    ByTitlePreorder();
    RowsMembers(db.books, db.nextId);
    var r := TopBy(Filter(Rows(db.books, db.nextId), b => IsBookHit(b, query)), ByTitle, SearchLimit);
    QueryIdsDistinct(db.books, db.nextId, r, (b: Book) => b.id);
    r
  }

  /** `searchStudents`: at most 20 matching students by name. */
  function SearchStudents(db: Db, query: string): (r: seq<Student>)
    ensures |r| <= SearchLimit
    ensures SortedBy(r, ByName)
    ensures forall s :: s in r ==> s in db.students.Values && StudentMatchesText(s, query)
    ensures KeysBelow(db.students, db.nextId) ==>
      forall s :: s in db.students.Values && StudentMatchesText(s, query) && s !in r ==>
        |r| == SearchLimit && forall t :: t in r ==> ByName(t, s)
    ensures IdsAreKeys(db) ==> forall i, j :: 0 <= i < j < |r| ==> r[i].id != r[j].id
  {
    ByNamePreorder();
    RowsMembers(db.students, db.nextId);
    var r := TopBy(Filter(Rows(db.students, db.nextId), s => StudentMatchesText(s, query)), ByName, SearchLimit);
    QueryIdsDistinct(db.students, db.nextId, r, (s: Student) => s.id);
    r
  }
}
