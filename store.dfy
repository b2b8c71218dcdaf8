/** The library store as the server actions use it: one object whose tables
    the actions update step by step, as the awaited `create`, `update` and
    `delete` calls of the source do. Each method is proved to leave the store
    and return the result that the matching action function prescribes, and
    to keep the store consistent. */
module Store {
  import opened Base
  import opened Records
  import LoanActions
  import ReservationActions
  import BookActions
  import StudentActions

  class Library {
    var books: map<Id, Book>
    var students: map<Id, Student>
    var loans: map<Id, Loan>
    var orders: map<Id, Order>
    var classes: map<Id, SchoolClass>
    var nextId: Id
    /** The schema default for `available` on a new book. */
    const initialAvailable: int

    /** The tables as one value. */
    function State(): Db
      reads this
    {
      Db(books, students, loans, orders, classes, nextId)
    }

    predicate Valid()
      reads this
    {
      Records.Valid(State())
    }

    /** A store holding only the seeded classes. */
    constructor(seeded: map<Id, SchoolClass>, firstId: Id, initialAvailable: int)
      requires KeysBelow(seeded, firstId) && forall k :: k in seeded ==> seeded[k].id == k
      ensures Valid()
      ensures State() == Db(map[], map[], map[], map[], seeded, firstId)
      ensures this.initialAvailable == initialAvailable
    {
      books, students, loans, orders := map[], map[], map[], map[];
      classes, nextId := seeded, firstId;
      this.initialAvailable := initialAvailable;
    }

    method CreateLoan(bookId: Id, studentId: Id, returnDueDate: int, now: int) returns (r: Result<Loan>)
      requires Valid()
      modifies this
      ensures Valid()
      ensures State() == LoanActions.CreateLoan(old(State()), bookId, studentId, returnDueDate, now).db
      ensures r == LoanActions.CreateLoan(old(State()), bookId, studentId, returnDueDate, now).result
    {
      ghost var s := LoanActions.CreateLoan(State(), bookId, studentId, returnDueDate, now);
      LoanActions.CreateLoanPreservesValid(State(), bookId, studentId, returnDueDate, now);
      if bookId !in books || books[bookId].available == 0 {
        return Err(BookUnavailable);
      }
      var loan := Loan(nextId, bookId, studentId, now, returnDueDate, false, None);
      loans := loans[loan.id := loan];
      nextId := nextId + 1;
      var book := books[bookId];
      books := books[bookId := book.(quantity := book.quantity - 1)];
      assert State() == s.db;
      return Ok(loan);
    }

    method ReturnLoan(id: Id, now: int) returns (r: Result<Loan>)
      requires Valid()
      modifies this
      ensures Valid()
      ensures State() == LoanActions.ReturnLoan(old(State()), id, now).db
      ensures r == LoanActions.ReturnLoan(old(State()), id, now).result
    {
      ghost var s := LoanActions.ReturnLoan(State(), id, now);
      LoanActions.ReturnLoanPreservesValid(State(), id, now);
      if id !in loans {
        return Err(LoanNotFound);
      }
      var loan := loans[id];
      if loan.returned {
        return Err(AlreadyReturned);
      }
      var updated := loan.(returned := true, actualReturnDate := Some(now));
      loans := loans[id := updated];
      if updated.bookId !in books {
        return Err(StoreFailure);
      }
      var book := books[updated.bookId];
      books := books[updated.bookId := book.(quantity := book.quantity + 1)];
      assert State() == s.db;
      return Ok(updated);
    }

    method CancelLoan(id: Id) returns (r: Result<()>)
      requires Valid()
      modifies this
      ensures Valid()
      ensures State() == LoanActions.CancelLoan(old(State()), id).db
      ensures r == LoanActions.CancelLoan(old(State()), id).result
    {
      ghost var s := LoanActions.CancelLoan(State(), id);
      LoanActions.CancelLoanPreservesValid(State(), id);
      if id !in loans {
        return Err(LoanNotFound);
      }
      var loan := loans[id];
      loans := loans - {id};
      if loan.bookId !in books {
        return Err(StoreFailure);
      }
      var book := books[loan.bookId];
      books := books[loan.bookId := book.(quantity := book.quantity + 1)];
      assert State() == s.db;
      return Ok(());
    }

    method CreateBookReservation(bookId: Id, enrollment: string, returnDueDate: int, now: int) returns (r: Result<Order>)
      requires Valid()
      modifies this
      ensures Valid()
      ensures State() == ReservationActions.CreateBookReservation(old(State()), bookId, enrollment, returnDueDate, now).db
      ensures r == ReservationActions.CreateBookReservation(old(State()), bookId, enrollment, returnDueDate, now).result
    {
      ghost var s := ReservationActions.CreateBookReservation(State(), bookId, enrollment, returnDueDate, now);
      ReservationActions.CreateBookReservationPreservesValid(State(), bookId, enrollment, returnDueDate, now);
      if bookId !in books {
        return Err(BookNotFound);
      }
      if books[bookId].available <= 0 {
        return Err(BookUnavailable);
      }
      var student := StudentActions.GetStudentByEnrollment(State(), enrollment);
      if student.None? {
        return Err(StudentNotFound);
      }
      if ReservationActions.HasPendingOrder(State(), bookId, student.value.id) {
        return Err(DuplicateRequest);
      }
      var order := Order(nextId, bookId, student.value.id, returnDueDate, now);
      orders := orders[order.id := order];
      nextId := nextId + 1;
      assert State() == s.db;
      return Ok(order);
    }

    method ApproveReservation(id: Id, now: int) returns (r: Result<Loan>)
      requires Valid()
      modifies this
      ensures Valid()
      ensures State() == ReservationActions.ApproveReservation(old(State()), id, now).db
      ensures r == ReservationActions.ApproveReservation(old(State()), id, now).result
    {
      ghost var s := ReservationActions.ApproveReservation(State(), id, now);
      ReservationActions.ApproveReservationPreservesValid(State(), id, now);
      if id !in orders {
        return Err(OrderNotFound);
      }
      var order := orders[id];
      if order.bookId !in books {
        return Err(StoreFailure);
      }
      if books[order.bookId].available <= 0 {
        return Err(BookUnavailable);
      }
      var loan := Loan(nextId, order.bookId, order.studentId, now, order.returnDueDate, false, None);
      loans := loans[loan.id := loan];
      nextId := nextId + 1;
      var book := books[order.bookId];
      books := books[order.bookId := book.(available := book.available - 1)];
      orders := orders - {id};
      assert State() == s.db;
      return Ok(loan);
    }

    method RejectReservation(id: Id) returns (r: Result<()>)
      requires Valid()
      modifies this
      ensures Valid()
      ensures State() == ReservationActions.RejectReservation(old(State()), id).db
      ensures r == ReservationActions.RejectReservation(old(State()), id).result
    {
      ghost var s := ReservationActions.RejectReservation(State(), id);
      ReservationActions.RejectReservationPreservesValid(State(), id);
      if id !in orders {
        return Err(OrderNotFound);
      }
      orders := orders - {id};
      assert State() == s.db;
      return Ok(());
    }

    method CreateBook(isbn: string, title: string, author: string, year: string, quantity: Option<int>) returns (r: Result<Book>)
      requires Valid()
      modifies this
      ensures Valid()
      ensures State() == BookActions.CreateBook(old(State()), isbn, title, author, year, quantity, initialAvailable).db
      ensures r == BookActions.CreateBook(old(State()), isbn, title, author, year, quantity, initialAvailable).result
    {
      ghost var s := BookActions.CreateBook(State(), isbn, title, author, year, quantity, initialAvailable);
      BookActions.CreateBookPreservesValid(State(), isbn, title, author, year, quantity, initialAvailable);
      if exists k :: k in books && books[k].isbn == isbn {
        return Err(StoreFailure);
      }
      var book := Book(nextId, isbn, title, author, year, BookActions.TruthyOr(quantity, 1), initialAvailable);
      books := books[book.id := book];
      nextId := nextId + 1;
      assert State() == s.db;
      return Ok(book);
    }

    method UpdateBook(id: Id, title: string, author: string, year: string, quantity: Option<int>) returns (r: Result<Book>)
      requires Valid()
      modifies this
      ensures Valid()
      ensures State() == BookActions.UpdateBook(old(State()), id, title, author, year, quantity).db
      ensures r == BookActions.UpdateBook(old(State()), id, title, author, year, quantity).result
    {
      ghost var s := BookActions.UpdateBook(State(), id, title, author, year, quantity);
      BookActions.UpdateBookPreservesValid(State(), id, title, author, year, quantity);
      if id !in books {
        return Err(StoreFailure);
      }
      var book := books[id];
      book := book.(title := title, author := author, year := year, quantity := BookActions.TruthyOr(quantity, book.quantity));
      books := books[id := book];
      assert State() == s.db;
      return Ok(book);
    }

    method DeleteBook(id: Id) returns (r: Result<()>)
      requires Valid()
      modifies this
      ensures Valid()
      ensures State() == BookActions.DeleteBook(old(State()), id).db
      ensures r == BookActions.DeleteBook(old(State()), id).result
    {
      ghost var s := BookActions.DeleteBook(State(), id);
      BookActions.DeleteBookPreservesValid(State(), id);
      if |ActiveLoansOfBook(State(), id)| > 0 {
        return Err(BookHasActiveLoans);
      }
      if id !in books {
        return Err(StoreFailure);
      }
      books := books - {id};
      assert State() == s.db;
      return Ok(());
    }

    method CreateStudent(enrollment: string, name: string, phone: Option<string>, classId: Option<Id>) returns (r: Result<Student>)
      requires Valid()
      modifies this
      ensures Valid()
      ensures State() == StudentActions.CreateStudent(old(State()), enrollment, name, phone, classId).db
      ensures r == StudentActions.CreateStudent(old(State()), enrollment, name, phone, classId).result
    {
      ghost var s := StudentActions.CreateStudent(State(), enrollment, name, phone, classId);
      StudentActions.CreateStudentPreservesValid(State(), enrollment, name, phone, classId);
      if exists k :: k in students && students[k].enrollment == enrollment {
        return Err(StoreFailure);
      }
      var student := Student(nextId, enrollment, name, phone, classId);
      students := students[student.id := student];
      nextId := nextId + 1;
      assert State() == s.db;
      return Ok(student);
    }

    method UpdateStudent(id: Id, name: string, phone: Option<string>, classId: Patch<Option<Id>>) returns (r: Result<Student>)
      requires Valid()
      modifies this
      ensures Valid()
      ensures State() == StudentActions.UpdateStudent(old(State()), id, name, phone, classId).db
      ensures r == StudentActions.UpdateStudent(old(State()), id, name, phone, classId).result
    {
      ghost var s := StudentActions.UpdateStudent(State(), id, name, phone, classId);
      StudentActions.UpdateStudentPreservesValid(State(), id, name, phone, classId);
      if id !in students {
        return Err(StoreFailure);
      }
      var student := students[id];
      student := student.(name := name, phone := phone, classId := Patched(classId, student.classId));
      students := students[id := student];
      assert State() == s.db;
      return Ok(student);
    }

    method DeleteStudent(id: Id) returns (r: Result<()>)
      requires Valid()
      modifies this
      ensures Valid()
      ensures State() == StudentActions.DeleteStudent(old(State()), id).db
      ensures r == StudentActions.DeleteStudent(old(State()), id).result
    {
      ghost var s := StudentActions.DeleteStudent(State(), id);
      StudentActions.DeleteStudentPreservesValid(State(), id);
      if |ActiveLoansOfStudent(State(), id)| > 0 {
        return Err(StudentHasActiveLoans);
      }
      if id !in students {
        return Err(StoreFailure);
      }
      students := students - {id};
      assert State() == s.db;
      return Ok(());
    }
  }
}
