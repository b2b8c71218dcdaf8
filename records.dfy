/** The library's records, the store that holds them, and the outcome every
    server action returns. */
module Records {
  import opened Base
  import opened Seqs

  /** Record identities. The store hands out fresh ones from a counter. */
  type Id = nat

  datatype Book = Book(
    id: Id, isbn: string, title: string, author: string, year: string,
    quantity: int, available: int)

  datatype Student = Student(
    id: Id, enrollment: string, name: string, phone: Option<string>, classId: Option<Id>)

  datatype Loan = Loan(
    id: Id, bookId: Id, studentId: Id, loanDate: int, returnDueDate: int,
    returned: bool, actualReturnDate: Option<int>)

  /** A pending reservation request (the `orderLoan` table). */
  datatype Order = Order(id: Id, bookId: Id, studentId: Id, returnDueDate: int, orderDate: int)

  /** A school class (the `class` table); the store only reads it. */
  datatype SchoolClass = SchoolClass(id: Id, name: string, year: string)

  /** The whole database: one map per table, keyed by record id, and the next
      id the store will hand out. */
  datatype Db = Db(
    books: map<Id, Book>,
    students: map<Id, Student>,
    loans: map<Id, Loan>,
    orders: map<Id, Order>,
    classes: map<Id, SchoolClass>,
    nextId: Id)

  /** The failures the actions report, one per message in the source. */
  datatype Error =
    | BookUnavailable        // "Livro não está disponível para empréstimo", "Este livro não está mais disponível ..."
    | BookNotFound           // "Livro não encontrado"
    | StudentNotFound        // "Aluno não encontrado com este número de matrícula"
    | DuplicateRequest       // "Já existe uma solicitação pendente para este livro"
    | LoanNotFound           // "Empréstimo não encontrado"
    | AlreadyReturned        // "Este livro já foi devolvido"
    | OrderNotFound          // "Solicitação de reserva não encontrada"
    | BookHasActiveLoans     // "Cannot delete book with active loans"
    | StudentHasActiveLoans  // "Cannot delete student with active loans"
    | StoreFailure           // the generic message of a `catch` block: the store refused a write

  /** `{ success: true, data }` or `{ success: false, error }`. */
  datatype Result<T> = Ok(value: T) | Err(error: Error)

  /** The store after an action, and what the action returned. */
  datatype Step<T> = Step(db: Db, result: Result<T>)

  /** The rows of a table in id order, as a query sees them. */
  function Rows<V>(m: map<Id, V>, n: nat): (r: seq<V>)
    decreases n
  {
    if n == 0 then []
    else Rows(m, n - 1) + (if n - 1 in m then [m[n - 1]] else [])
  }

  lemma {:induction false} RowsSound<V>(m: map<Id, V>, n: nat)
    ensures forall v :: v in Rows(m, n) ==> v in m.Values
    decreases n
  {
    if n > 0 {
      RowsSound(m, n - 1);
    }
  }

  lemma {:induction false} RowsComplete<V>(m: map<Id, V>, n: nat)
    ensures forall k :: k in m && k < n ==> m[k] in Rows(m, n)
    decreases n
  {
    if n > 0 {
      RowsComplete(m, n - 1);
    }
  }

  /** Reading a whole table: exactly the values of the map, once every key is
      below the id counter. */
  lemma RowsAreValues<V>(m: map<Id, V>, n: nat)
    requires KeysBelow(m, n)
    ensures forall v :: v in Rows(m, n) <==> v in m.Values
  {
    RowsSound(m, n);
    RowsComplete(m, n);
  }

  /** The membership half of `RowsAreValues` that needs no assumption, and the
      other half under the id bound. */
  lemma RowsMembers<V>(m: map<Id, V>, n: nat)
    ensures forall v :: v in Rows(m, n) ==> v in m.Values
    ensures KeysBelow(m, n) ==> forall v :: v in m.Values ==> v in Rows(m, n)
  {
    RowsSound(m, n);
    RowsComplete(m, n);
  }

  /** Every row of a table read comes from a key below the bound. */
  lemma {:induction false} RowsFromKeys<V>(m: map<Id, V>, n: nat)
    ensures forall v :: v in Rows(m, n) ==> exists k :: k in m && k < n && m[k] == v
    decreases n
  {
    if n > 0 {
      RowsFromKeys(m, n - 1);
    }
  }

  /** A table whose rows all differ is read with no row twice. */
  lemma {:induction false} RowsNoDuplicates<V>(m: map<Id, V>, n: nat)
    requires forall j, k :: j in m && k in m && m[j] == m[k] ==> j == k
    ensures NoDuplicates(Rows(m, n))
    decreases n
  {
    if n > 0 {
      RowsNoDuplicates(m, n - 1);
      if n - 1 in m {
        RowsFromKeys(m, n - 1);
        AppendNoDuplicates(Rows(m, n - 1), m[n - 1]);
      }
    }
  }

  /** A query over a table whose records carry their key as id (`idOf`)
      returns no id twice, whatever filtering, ordering and `take` it applies,
      so long as it keeps no row more often than the table read does. */
  lemma QueryIdsDistinct<V>(m: map<Id, V>, n: nat, r: seq<V>, idOf: V -> Id)
    requires multiset(r) <= multiset(Rows(m, n))
    ensures (forall k :: k in m ==> idOf(m[k]) == k) ==>
      forall i, j :: 0 <= i < j < |r| ==> idOf(r[i]) != idOf(r[j])
  {
    if forall k :: k in m ==> idOf(m[k]) == k {
      RowsNoDuplicates(m, n);
      SubMultisetNoDuplicates(r, Rows(m, n));
      RowsSound(m, n);
      forall i, j | 0 <= i < j < |r| ensures idOf(r[i]) != idOf(r[j]) {
        assert r[i] in multiset(r) && r[j] in multiset(r);
        assert r[i] in Rows(m, n) && r[j] in Rows(m, n);
        var a :| a in m && m[a] == r[i];
        var b :| b in m && m[b] == r[j];
      }
    }
  }

  /** The keys below `n` whose row satisfies `p`. */
  function KeysWhere<V>(m: map<Id, V>, n: nat, p: V -> bool): set<Id>
  {
    set k | k in m && k < n && p(m[k])
  }

  /** Counting the rows of a query that satisfy `p` (a `count` with a `where`)
      gives the number of keys whose row satisfies `p`. */
  lemma {:induction false} CountRows<V(!new)>(m: map<Id, V>, n: nat, p: V -> bool)
    ensures |Filter(Rows(m, n), p)| == |KeysWhere(m, n, p)|
    decreases n
  {
    if n > 0 {
      CountRows(m, n - 1, p);
      assert |Filter(Rows(m, n - 1), p)| == |KeysWhere(m, n - 1, p)|;
      FilterRowsStep(m, n, p);
      KeysWhereStep(m, n, p);
    } else {
      assert KeysWhere(m, n, p) == {};
    }
  }

  lemma FilterRowsStep<V(!new)>(m: map<Id, V>, n: nat, p: V -> bool)
    requires n > 0
    ensures |Filter(Rows(m, n), p)| == |Filter(Rows(m, n - 1), p)| + (if n - 1 in m && p(m[n - 1]) then 1 else 0)
  {
    var tail := if n - 1 in m then [m[n - 1]] else [];
    assert Rows(m, n) == Rows(m, n - 1) + tail;
    FilterAppend(Rows(m, n - 1), tail, p);
    FilterSingleton(tail, p);
  }

  lemma FilterSingleton<V(!new)>(s: seq<V>, p: V -> bool)
    requires |s| <= 1
    ensures |Filter(s, p)| == if s != [] && p(s[0]) then 1 else 0
  {
    if s != [] {
      assert s[1..] == [];
    }
  }

  lemma KeysWhereStep<V>(m: map<Id, V>, n: nat, p: V -> bool)
    requires n > 0
    ensures |KeysWhere(m, n, p)| == |KeysWhere(m, n - 1, p)| + (if n - 1 in m && p(m[n - 1]) then 1 else 0)
  {
    if n - 1 in m && p(m[n - 1]) {
      assert KeysWhere(m, n, p) == KeysWhere(m, n - 1, p) + {n - 1};
    } else {
      assert KeysWhere(m, n, p) == KeysWhere(m, n - 1, p);
    }
  }

  /** Rows of a table in which one row is replaced: the same sequence with
      that row replaced. */
  lemma {:induction false} RowsUpdate<V>(m: map<Id, V>, n: nat, k: Id, v: V)
    requires k in m && k < n
    ensures |Rows(m[k := v], n)| == |Rows(m, n)|
    ensures exists i :: 0 <= i < |Rows(m, n)| && Rows(m, n)[i] == m[k]
                        && Rows(m[k := v], n) == Rows(m, n)[i := v]
    decreases n
  {
    if n - 1 == k {
      RowsSame(m, m[k := v], n - 1);
      var i := |Rows(m, n - 1)|;
      assert Rows(m, n)[i] == m[k];
      assert Rows(m[k := v], n) == Rows(m, n)[i := v];
    } else {
      RowsUpdate(m, n - 1, k, v);
      var i :| 0 <= i < |Rows(m, n - 1)| && Rows(m, n - 1)[i] == m[k]
               && Rows(m[k := v], n - 1) == Rows(m, n - 1)[i := v];
      assert Rows(m, n)[i] == m[k];
      assert Rows(m[k := v], n) == Rows(m, n)[i := v];
    }
  }

  /** Rows below `n` depend only on the keys below `n`. */
  lemma {:induction false} RowsSame<V>(m: map<Id, V>, m': map<Id, V>, n: nat)
    requires forall k :: k < n ==> (k in m <==> k in m') && (k in m ==> m[k] == m'[k])
    ensures Rows(m, n) == Rows(m', n)
    decreases n
  {
    if n > 0 {
      RowsSame(m, m', n - 1);
    }
  }

  /** Rows of a table after adding a row with a fresh id at the counter. */
  lemma RowsAppend<V>(m: map<Id, V>, n: nat, v: V)
    requires KeysBelow(m, n)
    ensures Rows(m[n := v], n + 1) == Rows(m, n) + [v]
  {
    RowsSame(m, m[n := v], n);
  }

  predicate KeysBelow<V>(m: map<Id, V>, n: nat)
  {
    forall k :: k in m ==> k < n
  }

  /** The store's consistency conditions that every action preserves:
      ids are keys and lie below the counter, `isbn` and `enrollment` are unique
      columns, at most one pending order exists per (book, student) pair, and
      every active (unreturned) loan names an existing book. */
  predicate Valid(db: Db)
  {
    && IdsBelowCounter(db)
    && IdsAreKeys(db)
    && UniqueIsbn(db.books)
    && UniqueEnrollment(db.students)
    && OneOrderPerPair(db.orders)
    && ActiveLoansHaveBooks(db)
  }

  predicate IdsBelowCounter(db: Db)
  {
    && KeysBelow(db.books, db.nextId)
    && KeysBelow(db.students, db.nextId)
    && KeysBelow(db.loans, db.nextId)
    && KeysBelow(db.orders, db.nextId)
    && KeysBelow(db.classes, db.nextId)
  }

  predicate IdsAreKeys(db: Db)
  {
    && (forall k :: k in db.books ==> db.books[k].id == k)
    && (forall k :: k in db.students ==> db.students[k].id == k)
    && (forall k :: k in db.loans ==> db.loans[k].id == k)
    && (forall k :: k in db.orders ==> db.orders[k].id == k)
    && (forall k :: k in db.classes ==> db.classes[k].id == k)
  }

  predicate UniqueIsbn(books: map<Id, Book>)
  {
    forall j, k :: j in books && k in books && books[j].isbn == books[k].isbn ==> j == k
  }

  predicate UniqueEnrollment(students: map<Id, Student>)
  {
    forall j, k :: j in students && k in students && students[j].enrollment == students[k].enrollment ==> j == k
  }

  /** Two orders with the same book and the same student are the same order. */
  predicate OneOrderPerPair(orders: map<Id, Order>)
  {
    forall j, k ::
      (j in orders && k in orders && orders[j].bookId == orders[k].bookId
       && orders[j].studentId == orders[k].studentId) ==> j == k
  }

  /** Uniqueness of `isbn` survives any change that drops rows or keeps each
      row's `isbn`. */
  lemma IsbnsKept(before: map<Id, Book>, after: map<Id, Book>)
    requires UniqueIsbn(before)
    requires after.Keys <= before.Keys
    requires forall k :: k in after ==> after[k].isbn == before[k].isbn
    ensures UniqueIsbn(after)
  {
  }

  /** Uniqueness of `enrollment`, likewise. */
  lemma EnrollmentsKept(before: map<Id, Student>, after: map<Id, Student>)
    requires UniqueEnrollment(before)
    requires after.Keys <= before.Keys
    requires forall k :: k in after ==> after[k].enrollment == before[k].enrollment
    ensures UniqueEnrollment(after)
  {
  }

  predicate ActiveLoansHaveBooks(db: Db)
  {
    forall k :: k in db.loans && !db.loans[k].returned ==> db.loans[k].bookId in db.books
  }

  /** The empty store is consistent, so a consistent store exists. */
  lemma EmptyIsValid()
    ensures Valid(Db(map[], map[], map[], map[], map[], 0))
  {
  }

  /** Ids of the loans on `bookId` that are not returned (the `count` with
      `where: { bookId, returned: false }`). */
  function ActiveLoansOfBook(db: Db, bookId: Id): set<Id>
  {
    set k | k in db.loans && db.loans[k].bookId == bookId && !db.loans[k].returned
  }

  /** Ids of the loans of `studentId` that are not returned. */
  function ActiveLoansOfStudent(db: Db, studentId: Id): set<Id>
  {
    set k | k in db.loans && db.loans[k].studentId == studentId && !db.loans[k].returned
  }

  lemma ActiveLoansOfBookEmpty(db: Db, bookId: Id)
    ensures |ActiveLoansOfBook(db, bookId)| > 0 <==>
            exists k :: k in db.loans && db.loans[k].bookId == bookId && !db.loans[k].returned
  {
    var s := ActiveLoansOfBook(db, bookId);
    if exists k :: k in db.loans && db.loans[k].bookId == bookId && !db.loans[k].returned {
      var k :| k in db.loans && db.loans[k].bookId == bookId && !db.loans[k].returned;
      assert k in s;
    }
  }

  lemma ActiveLoansOfStudentEmpty(db: Db, studentId: Id)
    ensures |ActiveLoansOfStudent(db, studentId)| > 0 <==>
            exists k :: k in db.loans && db.loans[k].studentId == studentId && !db.loans[k].returned
  {
    var s := ActiveLoansOfStudent(db, studentId);
    if exists k :: k in db.loans && db.loans[k].studentId == studentId && !db.loans[k].returned {
      var k :| k in db.loans && db.loans[k].studentId == studentId && !db.loans[k].returned;
      assert k in s;
    }
  }
}
