/** The book actions of `src/app/actions/book.ts`: the catalogue listing,
    create, update, guarded delete and the lookup by ISBN. */
module BookActions {
  import opened Base
  import opened Seqs
  import opened Records
  import opened Criteria

  /** `getBooks`: every book, by title. */
  function GetBooks(db: Db): (r: seq<Book>)
    ensures SortedBy(r, ByTitle)
    ensures forall b :: b in r ==> b in db.books.Values
    ensures KeysBelow(db.books, db.nextId) ==> forall b :: b in db.books.Values ==> b in r
    ensures IdsAreKeys(db) ==> forall i, j :: 0 <= i < j < |r| ==> r[i].id != r[j].id
  {
    ByTitlePreorder();
    RowsMembers(db.books, db.nextId);
    var r := SortBy(Rows(db.books, db.nextId), ByTitle);
    QueryIdsDistinct(db.books, db.nextId, r, (b: Book) => b.id);
    r
  }

  /** `getBookByIsbn` (`findUnique` on the unique `isbn`). */
  function GetBookByIsbn(db: Db, isbn: string): (r: Option<Book>)
    ensures r.Some? ==> r.value in db.books.Values && r.value.isbn == isbn
    ensures KeysBelow(db.books, db.nextId) ==>
      (r.None? <==> forall b :: b in db.books.Values ==> b.isbn != isbn)
  {
    RowsMembers(db.books, db.nextId);
    Find(Rows(db.books, db.nextId), (b: Book) => b.isbn == isbn)
  }

  /** In a consistent store the lookup finds the one book holding that ISBN. */
  lemma IsbnLookupFindsOwner(db: Db, k: Id)
    requires Valid(db) && k in db.books
    ensures GetBookByIsbn(db, db.books[k].isbn) == Some(db.books[k])
  {
    assert db.books[k] in db.books.Values;
    var r := GetBookByIsbn(db, db.books[k].isbn);
    var j :| j in db.books && db.books[j] == r.value;
  }

  /** `data.quantity ? parseInt(...) : fallback`: an absent quantity or 0 is
      falsy and gives the fallback. */
  function TruthyOr(quantity: Option<int>, fallback: int): (r: int)
    ensures quantity.Some? && quantity.value != 0 ==> r == quantity.value
    ensures quantity.None? || quantity.value == 0 ==> r == fallback
    ensures fallback != 0 ==> r != 0
  {
    if quantity.Some? && quantity.value != 0 then quantity.value else fallback
  }

  /** `createBook`. The stored quantity is the given one when truthy, otherwise
      1; `available` is the schema's default, passed in as
      `initialAvailable`. `isbn` is a unique column, so a clash makes the store
      refuse the write. */
  function CreateBook(db: Db, isbn: string, title: string, author: string, year: string,
                      quantity: Option<int>, initialAvailable: int): (s: Step<Book>)
    ensures s.result.Err? <==> exists k :: k in db.books && db.books[k].isbn == isbn
    ensures s.result.Err? ==> s.result.error == StoreFailure && s.db == db
    ensures s.result.Ok? ==>
      var b := s.result.value;
      && b.id == db.nextId && b.isbn == isbn && b.title == title && b.author == author && b.year == year
      && b.quantity == (if quantity.Some? && quantity.value != 0 then quantity.value else 1)
      && b.available == initialAvailable
      && (KeysBelow(db.books, db.nextId) ==> b.id !in db.books)
      && s.db == db.(books := db.books[b.id := b], nextId := db.nextId + 1)
  {
    if exists k :: k in db.books && db.books[k].isbn == isbn then Step(db, Err(StoreFailure))
    else
      var b := Book(db.nextId, isbn, title, author, year, TruthyOr(quantity, 1), initialAvailable);
      Step(db.(books := db.books[b.id := b], nextId := db.nextId + 1), Ok(b))
  }

  /** `updateBook`. Title, author and year are overwritten; `quantity` only
      when the given value is truthy; `available` and `isbn` never. */
  function UpdateBook(db: Db, id: Id, title: string, author: string, year: string, quantity: Option<int>): (s: Step<Book>)
    ensures s.result.Err? <==> id !in db.books
    ensures s.result.Err? ==> s.result.error == StoreFailure && s.db == db
    ensures s.result.Ok? ==>
      var b := s.result.value;
      var before := db.books[id];
      && b.id == before.id && b.isbn == before.isbn && b.available == before.available
      && b.title == title && b.author == author && b.year == year
      && (quantity.Some? && quantity.value != 0 ==> b.quantity == quantity.value)
      && (quantity.None? || quantity.value == 0 ==> b.quantity == before.quantity)
      && s.db == db.(books := db.books[id := b])
  {
    if id !in db.books then Step(db, Err(StoreFailure))
    else
      var before := db.books[id];
      var b := before.(title := title, author := author, year := year, quantity := TruthyOr(quantity, before.quantity));
      Step(db.(books := db.books[id := b]), Ok(b))
  }

  /** `deleteBook`. Any unreturned loan of the book blocks the delete;
      returned loans do not. Otherwise the row goes, or the store refuses when
      there is none. */
  function DeleteBook(db: Db, id: Id): (s: Step<()>)
    ensures s.result == Err(BookHasActiveLoans) <==>
      exists k :: k in db.loans && db.loans[k].bookId == id && !db.loans[k].returned
    ensures s.result.Err? ==> s.db == db
    ensures s.result.Ok? <==> id in db.books && |ActiveLoansOfBook(db, id)| == 0
    ensures s.result.Ok? ==> s.db == db.(books := db.books - {id})
  {
    ActiveLoansOfBookEmpty(db, id);
    if |ActiveLoansOfBook(db, id)| > 0 then Step(db, Err(BookHasActiveLoans))
    else if id !in db.books then Step(db, Err(StoreFailure))
    else Step(db.(books := db.books - {id}), Ok(()))
  }

  lemma CreateBookPreservesValid(db: Db, isbn: string, title: string, author: string, year: string,
                                 quantity: Option<int>, initialAvailable: int)
    requires Valid(db)
    ensures Valid(CreateBook(db, isbn, title, author, year, quantity, initialAvailable).db)
  {
  }

  lemma UpdateBookPreservesValid(db: Db, id: Id, title: string, author: string, year: string, quantity: Option<int>)
    requires Valid(db)
    ensures Valid(UpdateBook(db, id, title, author, year, quantity).db)
  {
    var s := UpdateBook(db, id, title, author, year, quantity);
    if s.result.Ok? {
      IsbnsKept(db.books, s.db.books);
    }
  }

  /** Deleting a book keeps every active loan pointing at a book, because the
      delete is refused while the book has one. */
  lemma DeleteBookPreservesValid(db: Db, id: Id)
    requires Valid(db)
    ensures Valid(DeleteBook(db, id).db)
  {
    var s := DeleteBook(db, id);
    if s.result.Ok? {
      IsbnsKept(db.books, s.db.books);
      ActiveLoansOfBookEmpty(db, id);
    }
  }

  /** A book whose loans are all returned passes the active-loan check of
      `deleteBook`. In this model its loans then stay behind, still naming it;
      that follows only from leaving the database's foreign keys out (a real
      database would refuse or cascade the delete), not from the action. */
  lemma DeleteBookWithReturnedLoans(db: Db, id: Id, k: Id)
    requires id in db.books && k in db.loans && db.loans[k].bookId == id
    requires forall j :: j in db.loans && db.loans[j].bookId == id ==> db.loans[j].returned
    ensures DeleteBook(db, id).result.Ok?
    ensures k in DeleteBook(db, id).db.loans && DeleteBook(db, id).db.loans[k].bookId !in DeleteBook(db, id).db.books
  {
    ActiveLoansOfBookEmpty(db, id);
  }
}
