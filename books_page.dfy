/** The client logic of the book management screen
    (`src/app/dashboard/livros/page.tsx`): the form checks and the local list
    updates after a create, an update or a delete. */
module BooksPage {
  import opened Base
  import opened Records
  import opened ListUpdates
  import BookActions
  import Store

  /** The form's fields; `id` is meaningful in edit mode only. `quantity`
      holds `parseInt` of the number input: `None` stands for `NaN`, which an
      empty or non-numeric input gives. */
  datatype BookForm = BookForm(id: Id, isbn: string, title: string, author: string, year: string, quantity: Option<int>)

  function BookId(b: Book): Id { b.id }

  /** The first check of `handleCreateOrUpdateBook`: a required field is
      empty. */
  predicate MissingField(f: BookForm)
  {
    f.isbn == "" || f.title == "" || f.author == "" || f.year == ""
  }

  /** The second check, `formBook.quantity <= 0`: `NaN <= 0` is false, so
      only a number below 1 is refused. */
  predicate BadQuantityValue(q: Option<int>)
  {
    q.Some? && q.value <= 0
  }

  datatype BookFormOutcome =
    | MissingFields
    | BadQuantity
    | DuplicateIsbn
    | Saved(result: Result<Book>)

  /** The state of the book screen. */
  class BooksView {
    var books: seq<Book>
    var form: BookForm
    var isEditMode: bool
    var modalOpen: bool

    /** The list after a successful update: the entry with the edited id is
        replaced, the others keep their values and places. */
    method ShowUpdated(id: Id, b: Book)
      modifies this
      ensures books == ReplaceById(old(books), id, b, BookId)
      ensures !modalOpen && form == old(form) && isEditMode == old(isEditMode)
    {
      books := ReplaceById(books, id, b, BookId);
      modalOpen := false;
    }

    /** The list after a successful create: the new book at the end. */
    method ShowCreated(b: Book)
      modifies this
      ensures books == Append(old(books), b)
      ensures !modalOpen && form == old(form) && isEditMode == old(isEditMode)
    {
      books := Append(books, b);
      modalOpen := false;
    }

    /** `handleCreateOrUpdateBook`. Empty required fields and a quantity
        below 1 are refused before any action runs. In edit mode the book is
        updated with the form's values; otherwise an ISBN already present
        is refused, and the book is created. */
    method HandleCreateOrUpdateBook(lib: Store.Library) returns (out: BookFormOutcome)
      requires lib.Valid()
      modifies this, lib
      ensures lib.Valid()
      ensures out == MissingFields <==> MissingField(old(form))
      ensures out == BadQuantity <==> !MissingField(old(form)) && BadQuantityValue(old(form).quantity)
      ensures out == DuplicateIsbn <==>
        && !MissingField(old(form)) && !BadQuantityValue(old(form).quantity) && !old(isEditMode)
        && BookActions.GetBookByIsbn(old(lib.State()), old(form).isbn).Some?
      ensures !out.Saved? ==> lib.State() == old(lib.State()) && books == old(books) && modalOpen == old(modalOpen)
      ensures out.Saved? && old(isEditMode) ==>
        var f := old(form);
        var s := BookActions.UpdateBook(old(lib.State()), f.id, f.title, f.author, f.year, f.quantity);
        lib.State() == s.db && out.result == s.result
      ensures out.Saved? && !old(isEditMode) ==>
        var f := old(form);
        var s := BookActions.CreateBook(old(lib.State()), f.isbn, f.title, f.author, f.year, f.quantity, lib.initialAvailable);
        lib.State() == s.db && out.result == s.result
      ensures out.Saved? && !old(isEditMode) ==> out.result.Ok? && out.result.value.quantity >= 1
      ensures out.Saved? && out.result.Ok? && old(isEditMode) && old(form).quantity.Some? ==>
        out.result.value.quantity == old(form).quantity.value >= 1
      ensures out.Saved? && out.result.Ok? && old(isEditMode) ==>
        books == ReplaceById(old(books), old(form).id, out.result.value, BookId) && !modalOpen
      ensures out.Saved? && out.result.Ok? && !old(isEditMode) ==>
        books == Append(old(books), out.result.value) && !modalOpen
      ensures out.Saved? && out.result.Err? ==> books == old(books) && modalOpen == old(modalOpen)
      ensures form == old(form) && isEditMode == old(isEditMode)
    {
      if form.isbn == "" || form.title == "" || form.author == "" || form.year == "" {
        return MissingFields;
      }
      if form.quantity.Some? && form.quantity.value <= 0 {
        return BadQuantity;
      }
      if isEditMode {
        var result := lib.UpdateBook(form.id, form.title, form.author, form.year, form.quantity);
        if result.Ok? {
          ShowUpdated(form.id, result.value);
        }
        return Saved(result);
      }
      var check := BookActions.GetBookByIsbn(lib.State(), form.isbn);
      if check.Some? {
        return DuplicateIsbn;
      }
      var result := lib.CreateBook(form.isbn, form.title, form.author, form.year, form.quantity);
      if result.Ok? {
        ShowCreated(result.value);
      }
      return Saved(result);
    }

    /** `handleDeleteBook`: after a successful delete every entry with that
        id leaves the list and the rest keep their order. */
    method HandleDeleteBook(lib: Store.Library, id: Id) returns (r: Result<()>)
      requires lib.Valid()
      modifies this, lib
      ensures lib.Valid()
      ensures lib.State() == BookActions.DeleteBook(old(lib.State()), id).db
      ensures r == BookActions.DeleteBook(old(lib.State()), id).result
      ensures r.Ok? ==> books == RemoveById(old(books), id, BookId)
      ensures r.Err? ==> books == old(books)
      ensures form == old(form) && isEditMode == old(isEditMode) && modalOpen == old(modalOpen)
    {
      r := lib.DeleteBook(id);
      if r.Ok? {
        books := RemoveById(books, id, BookId);
      }
    }
  }
}
