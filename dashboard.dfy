/** The dashboard figures of `src/app/actions/dashboard.ts`, as functions of
    the store, and how the loan and reservation actions move them. */
module Dashboard {
  import opened Base
  import opened Seqs
  import opened Records
  import opened Criteria
  import opened LoanActions
  import opened ReservationActions

  /** A book of the "most lent" list with its `_count` of loans. */
  datatype PopularBook = PopularBook(book: Book, loanCount: nat)

  datatype Stats = Stats(
    totalBooks: int,
    availableBooks: nat,
    loanedBooks: int,
    totalStudents: nat,
    studentsWithActiveLoans: nat,
    activeLoans: nat,
    lateLoans: nat,
    totalLoans: nat,
    loansThisMonth: nat,
    recentLoans: seq<Loan>,
    popularBooks: seq<PopularBook>)

  /** How many rows the dashboard lists (`take: 5`). */
  const ListLimit: nat := 5

  /** `_sum: { quantity: true }` over a list of books. */
  function SumQuantities(books: seq<Book>): int
  {
    if books == [] then 0 else SumQuantities(books[..|books| - 1]) + books[|books| - 1].quantity
  }

  /** `totalBooks`: the sum of `quantity` over all books; `|| 0` turns the
      `null` sum of an empty table into 0. */
  function TotalBooks(db: Db): (r: int)
    ensures db.books == map[] ==> r == 0
  {
    RowsMembers(db.books, db.nextId);
    var rows := Rows(db.books, db.nextId);
    if rows == [] then 0
    else
      assert db.books != map[] by { assert rows[0] in rows; }
      SumQuantities(rows)
  }

  /** `availableBooks`: the books (records, not copies) with `available > 0`. */
  function AvailableBooks(db: Db): (r: nat)
    ensures r <= |db.books|
  {
    var ids := set k | k in db.books && db.books[k].available > 0;
    assert ids <= db.books.Keys;
    SubsetCard(ids, db.books.Keys);
    |ids|
  }

  /** The ids of the loans not yet returned. */
  function ActiveLoanIds(db: Db): set<Id>
  {
    set k | k in db.loans && !db.loans[k].returned
  }

  /** The ids of the active loans due before `now`. */
  function LateLoanIds(db: Db, now: int): set<Id>
  {
    set k | k in db.loans && !db.loans[k].returned && db.loans[k].returnDueDate < now
  }

  /** The students that have a loan not yet returned (`loans: { some: ... }`). */
  function StudentsWithActiveLoans(db: Db): (r: set<Id>)
    ensures r <= db.students.Keys
  {
    set k | k in db.students && exists j :: j in db.loans && db.loans[j].studentId == k && !db.loans[j].returned
  }

  /** The loans whose date lies in `[monthStart, monthEnd]`, both ends included. */
  function LoansBetween(db: Db, monthStart: int, monthEnd: int): set<Id>
  {
    set k | k in db.loans && monthStart <= db.loans[k].loanDate <= monthEnd
  }

  /** How many loans, returned or not, name the book. */
  function LoanCount(db: Db, bookId: Id): nat
  {
    |set k | k in db.loans && db.loans[k].bookId == bookId|
  }

  /** `orderBy: { loans: { _count: 'desc' } }`. */
  function ByLoanCountDesc(a: PopularBook, b: PopularBook): bool { a.loanCount >= b.loanCount }

  lemma ByLoanCountDescPreorder()
    ensures TotalPreorder(ByLoanCountDesc)
  {
  }

  /** Every book with its loan count, in id order. */
  function BooksWithCounts(db: Db): (r: seq<PopularBook>)
    ensures forall p :: p in r ==> p.book in db.books.Values && p.loanCount == LoanCount(db, p.book.id)
    ensures KeysBelow(db.books, db.nextId) ==>
      forall b :: b in db.books.Values ==> PopularBook(b, LoanCount(db, b.id)) in r
    ensures IdsAreKeys(db) ==> forall i, j :: 0 <= i < j < |r| ==> r[i].book.id != r[j].book.id
  {
    RowsMembers(db.books, db.nextId);
    var rows := Rows(db.books, db.nextId);
    var r := seq(|rows|, i requires 0 <= i < |rows| => PopularBook(rows[i], LoanCount(db, rows[i].id)));
    assert forall i :: 0 <= i < |rows| ==> r[i].book == rows[i];
    forall b | KeysBelow(db.books, db.nextId) && b in db.books.Values
      ensures PopularBook(b, LoanCount(db, b.id)) in r
    {
      var i :| 0 <= i < |rows| && rows[i] == b;
      assert r[i] == PopularBook(b, LoanCount(db, b.id));
    }
    BooksWithCountsIds(db, rows, r);
    r
  }

  lemma BooksWithCountsIds(db: Db, rows: seq<Book>, r: seq<PopularBook>)
    requires rows == Rows(db.books, db.nextId)
    requires |r| == |rows| && forall i :: 0 <= i < |rows| ==> r[i].book == rows[i]
    ensures IdsAreKeys(db) ==> forall i, j :: 0 <= i < j < |r| ==> r[i].book.id != r[j].book.id
  {
    QueryIdsDistinct(db.books, db.nextId, rows, (b: Book) => b.id);
  }

  lemma PopularIdsDistinct(db: Db, popular: seq<PopularBook>)
    requires multiset(popular) <= multiset(BooksWithCounts(db))
    ensures IdsAreKeys(db) ==> forall i, j :: 0 <= i < j < |popular| ==> popular[i].book.id != popular[j].book.id
  {
    if IdsAreKeys(db) {
      SubMultisetKeysDistinct(popular, BooksWithCounts(db), (p: PopularBook) => p.book.id);
    }
  }

  /** `recentLoans`: the five latest loans. */
  function RecentLoans(db: Db): (r: seq<Loan>)
    ensures |r| <= ListLimit && SortedBy(r, ByLoanDateDesc)
    ensures forall l :: l in r ==> l in db.loans.Values
    ensures KeysBelow(db.loans, db.nextId) ==>
      forall l :: l in db.loans.Values && l !in r ==>
        |r| == ListLimit && forall m :: m in r ==> m.loanDate >= l.loanDate
    ensures IdsAreKeys(db) ==> forall i, j :: 0 <= i < j < |r| ==> r[i].id != r[j].id
  {
    ByLoanDateDescPreorder();
    RowsMembers(db.loans, db.nextId);
    var r := TopBy(Rows(db.loans, db.nextId), ByLoanDateDesc, ListLimit);
    QueryIdsDistinct(db.loans, db.nextId, r, (l: Loan) => l.id);
    r
  }

  /** `popularBooks`: the five books with the most loans. */
  function PopularBooks(db: Db): (r: seq<PopularBook>)
    ensures |r| <= ListLimit && SortedBy(r, ByLoanCountDesc)
    ensures forall p :: p in r ==> p.book in db.books.Values && p.loanCount == LoanCount(db, p.book.id)
    ensures KeysBelow(db.books, db.nextId) ==>
      forall b :: b in db.books.Values && PopularBook(b, LoanCount(db, b.id)) !in r ==>
        |r| == ListLimit && forall p :: p in r ==> p.loanCount >= LoanCount(db, b.id)
    ensures IdsAreKeys(db) ==> forall i, j :: 0 <= i < j < |r| ==> r[i].book.id != r[j].book.id
  {
    ByLoanCountDescPreorder();
    var r := TopBy(BooksWithCounts(db), ByLoanCountDesc, ListLimit);
    PopularIdsDistinct(db, r);
    r
  }

  /** `getDashboardStats`, with the clock and the month bounds as parameters. */
  function GetDashboardStats(db: Db, now: int, monthStart: int, monthEnd: int): (r: Stats)
    ensures r.totalBooks == TotalBooks(db) && r.availableBooks == AvailableBooks(db)
    ensures r.loanedBooks == r.totalBooks - r.availableBooks
    ensures r.availableBooks <= |db.books|
    ensures r.studentsWithActiveLoans == |StudentsWithActiveLoans(db)|
    ensures r.activeLoans == |ActiveLoanIds(db)| && r.lateLoans == |LateLoanIds(db, now)|
    ensures r.loansThisMonth == |LoansBetween(db, monthStart, monthEnd)|
    ensures r.recentLoans == RecentLoans(db) && r.popularBooks == PopularBooks(db)
    ensures r.totalStudents == |db.students| && r.studentsWithActiveLoans <= r.totalStudents
    ensures r.totalLoans == |db.loans|
    ensures r.lateLoans <= r.activeLoans <= r.totalLoans
    ensures r.loansThisMonth <= r.totalLoans
    ensures |r.recentLoans| <= ListLimit && SortedBy(r.recentLoans, ByLoanDateDesc)
    ensures forall l :: l in r.recentLoans ==> l in db.loans.Values
    ensures KeysBelow(db.loans, db.nextId) ==>
      forall l :: l in db.loans.Values && l !in r.recentLoans ==>
        |r.recentLoans| == ListLimit && forall m :: m in r.recentLoans ==> m.loanDate >= l.loanDate
    ensures |r.popularBooks| <= ListLimit && SortedBy(r.popularBooks, ByLoanCountDesc)
    ensures forall p :: p in r.popularBooks ==>
      p.book in db.books.Values && p.loanCount == LoanCount(db, p.book.id)
    ensures KeysBelow(db.books, db.nextId) ==>
      forall b :: b in db.books.Values && PopularBook(b, LoanCount(db, b.id)) !in r.popularBooks ==>
        |r.popularBooks| == ListLimit && forall p :: p in r.popularBooks ==> p.loanCount >= LoanCount(db, b.id)
    ensures IdsAreKeys(db) ==>
      (forall i, j :: 0 <= i < j < |r.recentLoans| ==> r.recentLoans[i].id != r.recentLoans[j].id)
      && forall i, j :: 0 <= i < j < |r.popularBooks| ==> r.popularBooks[i].book.id != r.popularBooks[j].book.id
  {
    var total := TotalBooks(db);
    var available := AvailableBooks(db);
    var active := ActiveLoanIds(db);
    var late := LateLoanIds(db, now);
    var month := LoansBetween(db, monthStart, monthEnd);
    SubsetCard(StudentsWithActiveLoans(db), db.students.Keys);
    SubsetCard(late, active);
    SubsetCard(active, db.loans.Keys);
    SubsetCard(month, db.loans.Keys);
    Stats(
      total, available, total - available,
      |db.students|, |StudentsWithActiveLoans(db)|,
      |active|, |late|, |db.loans|, |month|,
      RecentLoans(db), PopularBooks(db))
  }

  lemma SubsetCard<T>(a: set<T>, b: set<T>)
    requires a <= b
    ensures |a| <= |b|
  {
    if a != {} {
      var x :| x in a;
      SubsetCard(a - {x}, b - {x});
    }
  }

  /** Replacing one book in a list changes the sum by the change of its
      quantity. */
  lemma {:induction false} SumUpdate(books: seq<Book>, i: nat, b: Book)
    requires i < |books|
    ensures SumQuantities(books[i := b]) == SumQuantities(books) - books[i].quantity + b.quantity
    decreases |books|
  {
    var n := |books| - 1;
    assert books[i := b][..n] == if i == n then books[..n] else books[..n][i := b];
    if i < n {
      SumUpdate(books[..n], i, b);
    }
  }

  /** The total only depends on the books, and on the counter through the
      rows it covers. */
  lemma TotalBooksAfterBookChange(db: Db, db': Db, k: Id, b: Book)
    requires KeysBelow(db.books, db.nextId) && k in db.books
    requires db'.books == db.books[k := b] && db'.nextId >= db.nextId
    ensures TotalBooks(db') == TotalBooks(db) - db.books[k].quantity + b.quantity
  {
    RowsUpdate(db.books, db.nextId, k, b);
    var i :| 0 <= i < |Rows(db.books, db.nextId)| && Rows(db.books, db.nextId)[i] == db.books[k]
             && Rows(db.books[k := b], db.nextId) == Rows(db.books, db.nextId)[i := b];
    RowsSame(db'.books, db.books[k := b], db'.nextId);
    RowsBeyond(db'.books, db.nextId, db'.nextId);
    SumUpdate(Rows(db.books, db.nextId), i, b);
  }

  /** Rows past every key add nothing. */
  lemma {:induction false} RowsBeyond<V>(m: map<Id, V>, n: nat, n': nat)
    requires KeysBelow(m, n) && n <= n'
    ensures Rows(m, n') == Rows(m, n)
    decreases n' - n
  {
    if n' > n {
      RowsBeyond(m, n, n' - 1);
    }
  }

  /** A loan takes one from `totalBooks`, as written, since it lowers
      `quantity`. */
  lemma CreateLoanLowersTotalBooks(db: Db, bookId: Id, studentId: Id, returnDueDate: int, now: int)
    requires Valid(db) && CreateLoan(db, bookId, studentId, returnDueDate, now).result.Ok?
    ensures TotalBooks(CreateLoan(db, bookId, studentId, returnDueDate, now).db) == TotalBooks(db) - 1
  {
    var after := CreateLoan(db, bookId, studentId, returnDueDate, now).db;
    TotalBooksAfterBookChange(db, after, bookId, after.books[bookId]);
  }

  /** A return gives one back to `totalBooks`. */
  lemma ReturnLoanRaisesTotalBooks(db: Db, id: Id, now: int)
    requires Valid(db) && ReturnLoan(db, id, now).result.Ok?
    ensures TotalBooks(ReturnLoan(db, id, now).db) == TotalBooks(db) + 1
  {
    var after := ReturnLoan(db, id, now).db;
    var b := db.loans[id].bookId;
    TotalBooksAfterBookChange(db, after, b, after.books[b]);
  }

  /** An approval leaves `totalBooks` as it is, since it lowers `available`
      rather than `quantity`. */
  lemma ApprovalKeepsTotalBooks(db: Db, id: Id, now: int)
    requires Valid(db) && ApproveReservation(db, id, now).result.Ok?
    ensures TotalBooks(ApproveReservation(db, id, now).db) == TotalBooks(db)
  {
    var after := ApproveReservation(db, id, now).db;
    var b := db.orders[id].bookId;
    TotalBooksAfterBookChange(db, after, b, after.books[b]);
  }

  /** Writing a fresh, unreturned loan adds one active loan and one loan. */
  lemma AddActiveLoan(db: Db, db': Db, l: Loan)
    requires l.id !in db.loans && !l.returned && db'.loans == db.loans[l.id := l]
    ensures ActiveLoanIds(db') == ActiveLoanIds(db) + {l.id}
    ensures |ActiveLoanIds(db')| == |ActiveLoanIds(db)| + 1
    ensures |db'.loans| == |db.loans| + 1
  {
    ActiveAfterAdd(db, db', l);
    assert l.id !in ActiveLoanIds(db);
    assert db'.loans.Keys == db.loans.Keys + {l.id};
  }

  lemma ActiveAfterAdd(db: Db, db': Db, l: Loan)
    requires !l.returned && db'.loans == db.loans[l.id := l]
    ensures ActiveLoanIds(db') == ActiveLoanIds(db) + {l.id}
  {
    forall k ensures k in ActiveLoanIds(db') <==> k in ActiveLoanIds(db) + {l.id} {
      if k == l.id {
        assert k in db'.loans && !db'.loans[k].returned;
      }
    }
  }

  /** A new loan is one more active loan and one more loan. */
  lemma CreateLoanCounts(db: Db, bookId: Id, studentId: Id, returnDueDate: int, now: int)
    requires Valid(db) && CreateLoan(db, bookId, studentId, returnDueDate, now).result.Ok?
    ensures
      var s := CreateLoan(db, bookId, studentId, returnDueDate, now);
      && ActiveLoanIds(s.db) == ActiveLoanIds(db) + {s.result.value.id}
      && |ActiveLoanIds(s.db)| == |ActiveLoanIds(db)| + 1
      && |s.db.loans| == |db.loans| + 1
  {
    var s := CreateLoan(db, bookId, studentId, returnDueDate, now);
    AddActiveLoan(db, s.db, s.result.value);
  }

  /** An approval, too, is one more active loan and one more loan, and one
      order fewer. */
  lemma ApproveReservationCounts(db: Db, id: Id, now: int)
    requires Valid(db) && ApproveReservation(db, id, now).result.Ok?
    ensures
      var s := ApproveReservation(db, id, now);
      && |ActiveLoanIds(s.db)| == |ActiveLoanIds(db)| + 1
      && |s.db.loans| == |db.loans| + 1
      && |s.db.orders| == |db.orders| - 1
  {
    var s := ApproveReservation(db, id, now);
    AddActiveLoan(db, s.db, s.result.value);
    assert s.db.orders.Keys == db.orders.Keys - {id};
  }

  /** A return is one active loan fewer and the same number of loans. */
  lemma ReturnLoanCounts(db: Db, id: Id, now: int)
    requires ReturnLoan(db, id, now).result.Ok?
    ensures
      var s := ReturnLoan(db, id, now);
      && ActiveLoanIds(s.db) == ActiveLoanIds(db) - {id}
      && |ActiveLoanIds(s.db)| == |ActiveLoanIds(db)| - 1
      && |s.db.loans| == |db.loans|
  {
    var s := ReturnLoan(db, id, now);
    assert ActiveLoanIds(s.db) == ActiveLoanIds(db) - {id};
    assert id in ActiveLoanIds(db);
    assert s.db.loans.Keys == db.loans.Keys;
  }

  /** A cancellation is one loan fewer, whatever its state. */
  lemma CancelLoanCounts(db: Db, id: Id)
    requires id in db.loans
    ensures |CancelLoan(db, id).db.loans| == |db.loans| - 1
  {
    var s := CancelLoan(db, id);
    assert s.db.loans.Keys == db.loans.Keys - {id};
  }
}
