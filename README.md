# Biblio ETEGEC — a verified model of the library core

This project models a school library application in Dafny. It covers:

- **The library store and its server actions.** The store holds books, students, loans, reservation orders and
  school classes. Loans can be created, returned and cancelled. A reservation order from the public catalogue can be
  placed, approved (becoming a loan) or rejected. Books and students can be created, updated and deleted, with the
  delete refused while loans are open. The model also covers the listing and search queries and the dashboard
  figures.
- **The client logic of the screens.** This includes the loan table's status and text filters, its column sort and
  sort toggle, and the guarded loan form. From the public catalogue it covers the page-button window, the page-change
  guard and the guarded reservation form. For the book and student screens it covers the form checks and the local
  list updates.
- **The sign-in decision and the route guard.**

The store is a value, `Records.Db`: maps keyed by a natural id, plus a counter `nextId` that stands for the
database's id generator. Each server action is a pure function from the store before to a `Step`, which pairs the
store after with the action's `Result`. These functions carry the contracts, and the lemmas are stated about them.

`Store.Library` is the mutable store. It is a class with one field per table, and its methods write those fields
one at a time in the order the action's awaited writes happen. Each method is proved to leave exactly the state, and
to return exactly the result, that the pure function gives. Each method also keeps the store invariant
`Records.Valid`:

- ids are below the counter and every entry sits under its own id;
- ISBNs are unique, and so are enrollments;
- there is at most one pending order per (book, student) pair;
- every active loan names a book of the store.

The screens are classes too (`LoansPage.LoansView`, `CatalogPage.CatalogView`, `BooksPage.BooksView`,
`StudentsPage.StudentsView`). Their fields are the screen's state variables, and their handlers call the
`Store.Library` methods. Dates are integers, and the current time is a parameter.

**The two book counters are not used as their names suggest, and the model follows the code.** The field names
suggest that `quantity` counts the copies owned and `available` those on the shelf. The actions handle them
differently:

- `createLoan` checks `available` but lowers `quantity`.
- `returnLoan` and `cancelLoan` raise `quantity`.
- `approveReservation` lowers `available`.
- `updateBook` overwrites `quantity` and leaves `available` alone.

So `0 <= available <= quantity` is not maintained. Neither is "quantity minus available is the number of active
loans". The model asserts neither. `LoanActions.OverLending` shows the consequence: a book with one copy available
can be lent any number of times. Each action is a sequence of separate awaited writes with no transaction, and the
model follows that (see `LoanActions.ReturnLoan` and `LoanActions.CancelLoan`).

## Model

| member | source | states |
|---|---|---|
| LoanActions.CreateLoan | src/app/actions/loan.ts:48-85 | refused with BookUnavailable and no change exactly when the book is missing or its `available` is 0; otherwise one fresh loan with the given book, student and due date, loan date now and not returned, is added, and that book's `quantity` drops by one while every other book, the students and the orders stay as they were |
| LoanActions.ReturnLoan | src/app/actions/loan.ts:87-128 | a missing loan is LoanNotFound and an already returned one AlreadyReturned, both with no change; otherwise the loan is marked returned at now and its book's `quantity` rises by one, and the action succeeds exactly when that book still exists; should it be gone, the store keeps the returned loan and nothing else changes, the classes included |
| LoanActions.CancelLoan | src/app/actions/loan.ts:130-160 | only a missing loan is refused (no change); otherwise exactly that loan is removed whatever its `returned` flag, and the book's `quantity` rises by one when the book exists; should it be gone, the store keeps the delete and nothing else changes, the classes included |
| LoanActions.CreateLoanPreservesValid | src/app/actions/loan.ts:60-77 | a loan keeps the store invariant |
| LoanActions.ReturnLoanPreservesValid | src/app/actions/loan.ts:102-120 | a return keeps the store invariant |
| LoanActions.CancelLoanPreservesValid | src/app/actions/loan.ts:137-152 | a cancellation keeps the store invariant |
| LoanActions.ReturnLoanAllOrNothing | src/app/actions/loan.ts:93-120 | in a consistent store a return either succeeds or changes nothing, and it succeeds exactly for an existing unreturned loan |
| LoanActions.CancelReturnedLoan | src/app/actions/loan.ts:137-152 | cancelling a loan that was already returned succeeds and raises `quantity` a second time (two above its value before the return) |
| LoanActions.CreateThenCancel | src/app/actions/loan.ts:60-77 | creating a loan and cancelling it restores the books and the loans exactly; only the id counter has advanced |
| LoanActions.ReturnTwice | src/app/actions/loan.ts:93-120 | a second return of the same loan is AlreadyReturned with no change, so `quantity` rises exactly once |
| LoanActions.OverLending | src/app/actions/loan.ts:51-77 | k successive loans of a book with nonzero `available` all succeed: `available` is unchanged and `quantity` has dropped by k |
| LoanActions.GetActiveLoans | src/app/actions/loan.ts:7-27 | exactly the unreturned loans of the store, latest loan date first — in a consistent store each loan once, as the ids differ |
| LoanActions.GetAllLoans | src/app/actions/loan.ts:29-46 | every loan of the store, latest loan date first — in a consistent store each loan once, as the ids differ |
| LoanActions.SearchBooks | src/app/actions/loan.ts:162-197 | at most 20 books, ordered by title, each with `quantity > 0` whose title, author or ISBN contains a non-blank query ignoring case; a matching book is left out only when 20 books no later by title were returned; no book is listed twice in a consistent store |
| LoanActions.SearchStudents | src/app/actions/loan.ts:199-224 | at most 20 students, ordered by name, whose name or enrollment contains a non-blank query ignoring case; a match is left out only when 20 students no later by name were returned; no student is listed twice in a consistent store |
| Criteria.BlankQueryKeepsAll | src/app/actions/student.ts:11-19 | a blank query (only characters `trim` removes, the Unicode space separators included) filters nothing out, in the student and the book searches alike |
| Text.UnicodeSpacesAreBlank | src/app/actions/loan.ts:169 | a query of ideographic, em and ogham spaces is no search text, and a letter after such spaces is |
| ReservationActions.HasPendingOrder | src/app/actions/reservation.ts:31-36 | some order names both this book and this student |
| ReservationActions.CreateBookReservation | src/app/actions/reservation.ts:6-61 | the four refusals (book missing, `available <= 0`, no student with the enrollment, an order for the same book and student), each exactly under its condition, in that order and with no change; otherwise exactly one order with the found student and `orderDate` now is added and nothing else changes |
| ReservationActions.CreateBookReservationPreservesValid | src/app/actions/reservation.ts:31-53 | a new order keeps at most one order per (book, student) pair, and the rest of the invariant |
| ReservationActions.ReservationLeavesCounters | src/app/actions/reservation.ts:43-53 | placing an order changes no book and no loan |
| ReservationActions.GetPendingBookReservations | src/app/actions/reservation.ts:63-80 | every order of the store, latest order date first — in a consistent store each order once, as the ids differ |
| ReservationActions.ApproveReservation | src/app/actions/reservation.ts:82-129 | a missing order is OrderNotFound, an order whose book is gone fails, a book with `available <= 0` is BookUnavailable, all with no change; otherwise one loan with the order's book, student and due date is added, that book's `available` (not `quantity`) drops by one and the order is removed |
| ReservationActions.ApproveReservationPreservesValid | src/app/actions/reservation.ts:103-121 | an approval keeps the store invariant |
| ReservationActions.SecondApprovalOfLastCopyFails | src/app/actions/reservation.ts:93-121 | of two orders for a book with one available copy, the first approval succeeds and the second is refused, leaving `available` at 0 |
| ReservationActions.RejectReservation | src/app/actions/reservation.ts:131-153 | a missing order is OrderNotFound with no change; otherwise exactly that order is removed and nothing else changes |
| BookActions.GetBooks | src/app/actions/book.ts:6-19 | every book of the store, ordered by title — in a consistent store each book once, as the ids differ |
| BookActions.GetBookByIsbn | src/app/actions/book.ts:85-96 | a book of the store holding that ISBN, or none exactly when no book holds it |
| BookActions.IsbnLookupFindsOwner | src/app/actions/book.ts:87-91 | in a consistent store the lookup of a book's ISBN gives that very book |
| BookActions.TruthyOr | src/app/actions/book.ts:26 | the given quantity when present and nonzero, the fallback otherwise, so a nonzero fallback never yields 0: a created book never has quantity 0 and an update never sets it to 0 |
| BookActions.CreateBook | src/app/actions/book.ts:21-36 | a new book with the given fields, `quantity` the given one when truthy and 1 otherwise, `available` the schema default; an ISBN already held makes the write fail with no change |
| BookActions.UpdateBook | src/app/actions/book.ts:38-54 | title, author and year are overwritten, `quantity` only for a truthy value, `isbn` and `available` never; a missing book fails with no change |
| BookActions.DeleteBook | src/app/actions/book.ts:56-83 | refused with no change exactly when some unreturned loan names the book; otherwise exactly that book is removed (a missing one fails) |
| BookActions.CreateBookPreservesValid | src/app/actions/book.ts:23-28 | creating a book keeps the store invariant |
| BookActions.UpdateBookPreservesValid | src/app/actions/book.ts:40-46 | updating a book keeps the store invariant |
| BookActions.DeleteBookPreservesValid | src/app/actions/book.ts:59-75 | deleting a book keeps the store invariant, because it is refused while an active loan names the book |
| BookActions.DeleteBookWithReturnedLoans | src/app/actions/book.ts:59-75 | returned loans do not block a delete, and they stay behind naming the deleted book |
| StudentActions.GetStudentByEnrollment | src/app/actions/student.ts:121-132 | a student of the store with that enrollment, or none exactly when no student has it |
| StudentActions.EnrollmentLookupFindsOwner | src/app/actions/student.ts:123-127 | in a consistent store the lookup of a student's enrollment gives that very student |
| StudentActions.CreateStudent | src/app/actions/student.ts:54-71 | a new student with exactly the given fields; an enrollment already held makes the write fail with no change |
| StudentActions.UpdateStudent | src/app/actions/student.ts:73-90 | name and phone are written, the class only when given, id and enrollment kept; a missing student fails with no change |
| StudentActions.DeleteStudent | src/app/actions/student.ts:92-119 | refused with no change exactly when the student has an unreturned loan; otherwise exactly that student is removed (a missing one fails) |
| StudentActions.CreateStudentPreservesValid | src/app/actions/student.ts:54-71 | creating a student keeps the store invariant |
| StudentActions.UpdateStudentPreservesValid | src/app/actions/student.ts:73-90 | updating a student keeps the store invariant |
| StudentActions.DeleteStudentPreservesValid | src/app/actions/student.ts:95-111 | deleting a student keeps the store invariant |
| StudentActions.CeilDiv | src/app/actions/student.ts:45 | the least number of pages of `limit` rows that holds `total` rows |
| StudentActions.MatchingByName | src/app/actions/student.ts:11-28 | exactly the students matching the query, ordered by name, each once in a consistent store |
| StudentActions.MatchCount | src/app/actions/student.ts:33-35 | the reported total equals the number of student ids whose row matches |
| StudentActions.GetStudents | src/app/actions/student.ts:7-52 | a page below 1 fails; otherwise the page holds the matches from position `(page-1)*limit` on, at most `limit` of them, in name order, with `total` all matches and `totalPages` the ceiling of `total/limit`; no student appears twice on a page of a consistent store |
| StudentActions.EveryMatchIsPaged | src/app/actions/student.ts:9-45 | every matching student appears on some page no later than `totalPages` |
| StudentActions.GetAvailableClasses | src/app/actions/student.ts:134-148 | every class, by year descending and within a year by name ascending, each once in a consistent store |
| Dashboard.TotalBooks | src/app/actions/dashboard.ts:9-13 | the sum of `quantity` over the books, 0 when there are none |
| Dashboard.AvailableBooks | src/app/actions/dashboard.ts:15-17 | the number of book records with `available > 0`, at most the number of books |
| Dashboard.StudentsWithActiveLoans | src/app/actions/dashboard.ts:23-31 | the students that have an unreturned loan, a subset of all students |
| Dashboard.ActiveLoanIds | src/app/actions/dashboard.ts:34-36 | the ids of the loans with `returned` false |
| Dashboard.LateLoanIds | src/app/actions/dashboard.ts:39-46 | the ids of the unreturned loans due strictly before now |
| Dashboard.LoansBetween | src/app/actions/dashboard.ts:55-62 | the ids of the loans dated within the month bounds, both ends included |
| Dashboard.LoanCount | src/app/actions/dashboard.ts:85-89 | the number of loans, returned or not, that name the book |
| Dashboard.ByLoanCountDescPreorder | src/app/actions/dashboard.ts:80-84 | the loan-count order is a total preorder |
| Dashboard.BooksWithCounts | src/app/actions/dashboard.ts:85-89 | every book of the store paired with its number of loans, no book twice in a consistent store |
| Dashboard.RecentLoans | src/app/actions/dashboard.ts:64-74 | at most 5 loans of the store, latest first, missing a loan only when 5 later ones are listed, no loan twice in a consistent store |
| Dashboard.PopularBooks | src/app/actions/dashboard.ts:76-89 | at most 5 books with their loan counts, most lent first, missing a book only when 5 with as many loans are listed, no book twice in a consistent store |
| Dashboard.GetDashboardStats | src/app/actions/dashboard.ts:6-112 | `totalBooks` is the sum of `quantity` (`TotalBooks`), `availableBooks` the number of books with `available > 0`, `studentsWithActiveLoans` the number of students with an unreturned loan, `activeLoans` the number of unreturned loans, `lateLoans` of those due before now, `loansThisMonth` of the loans dated within the month bounds inclusive, `totalStudents` and `totalLoans` the table sizes, and the two lists `RecentLoans` and `PopularBooks`; hence `loanedBooks = totalBooks - availableBooks`; `lateLoans <= activeLoans <= totalLoans`; `studentsWithActiveLoans <= totalStudents`; `loansThisMonth <= totalLoans`; at most 5 recent loans, latest first, missing a loan only when 5 later ones are listed; at most 5 popular books by loan count, missing a book only when 5 with as many loans are listed; in a consistent store no loan and no book is listed twice |
| Dashboard.TotalBooksAfterBookChange | src/app/actions/dashboard.ts:9-13 | changing one book moves the total by the change in its quantity |
| Dashboard.CreateLoanLowersTotalBooks | src/app/actions/loan.ts:74-77 | a loan lowers the dashboard's total by one |
| Dashboard.ReturnLoanRaisesTotalBooks | src/app/actions/loan.ts:115-120 | a return raises the dashboard's total by one |
| Dashboard.ApprovalKeepsTotalBooks | src/app/actions/reservation.ts:112-116 | an approval leaves the dashboard's total unchanged |
| Dashboard.CreateLoanCounts | src/app/actions/dashboard.ts:34-49 | a loan adds its id to the active loans: one more active loan and one more loan |
| Dashboard.ApproveReservationCounts | src/app/actions/dashboard.ts:34-49 | an approval adds one active loan and one loan and removes one order |
| Dashboard.ReturnLoanCounts | src/app/actions/dashboard.ts:34-49 | a return removes its id from the active loans and keeps the number of loans |
| Dashboard.CancelLoanCounts | src/app/actions/dashboard.ts:49 | a cancellation removes one loan |
| Store.Library.constructor | prisma/seeder/gen-classes.ts:5-25 | an empty store apart from the classes the seeder inserts, which satisfies the store invariant |
| Store.Library.CreateLoan | src/app/actions/loan.ts:48-85 | the loan is written, then the book's `quantity` lowered; the new state and the result are those of `LoanActions.CreateLoan`, and the invariant holds |
| Store.Library.ReturnLoan | src/app/actions/loan.ts:87-128 | the loan update, then the book update, may fail between the two; the new state and the result are those of `LoanActions.ReturnLoan` |
| Store.Library.CancelLoan | src/app/actions/loan.ts:130-160 | the delete, then the book update; the new state and the result are those of `LoanActions.CancelLoan` |
| Store.Library.CreateBookReservation | src/app/actions/reservation.ts:6-61 | the checks, then the order write; the new state and the result are those of `ReservationActions.CreateBookReservation` |
| Store.Library.ApproveReservation | src/app/actions/reservation.ts:82-129 | loan write, `available` decrement, order delete; the new state and the result are those of `ReservationActions.ApproveReservation` |
| Store.Library.RejectReservation | src/app/actions/reservation.ts:131-153 | the new state and the result are those of `ReservationActions.RejectReservation` |
| Store.Library.CreateBook | src/app/actions/book.ts:21-36 | the new state and the result are those of `BookActions.CreateBook` with the schema's default `available` |
| Store.Library.UpdateBook | src/app/actions/book.ts:38-54 | the new state and the result are those of `BookActions.UpdateBook` |
| Store.Library.DeleteBook | src/app/actions/book.ts:56-83 | the count guard, then the delete; the new state and the result are those of `BookActions.DeleteBook` |
| Store.Library.CreateStudent | src/app/actions/student.ts:54-71 | the new state and the result are those of `StudentActions.CreateStudent` |
| Store.Library.UpdateStudent | src/app/actions/student.ts:73-90 | the new state and the result are those of `StudentActions.UpdateStudent` |
| Store.Library.DeleteStudent | src/app/actions/student.ts:92-119 | the count guard, then the delete; the new state and the result are those of `StudentActions.DeleteStudent` |
| LoansPage.PrecedesPreorder | src/app/dashboard/emprestimos/page.tsx:239-265 | the comparator of every column and direction is a total preorder |
| LoansPage.IsLoanLate | src/app/dashboard/emprestimos/page.tsx:192-196 | true exactly when now is strictly after the due date |
| LoansPage.KeyLe | src/app/dashboard/emprestimos/page.tsx:244-259 | the value of the chosen column (title, student name, loan date or due date) of the first row is at most that of the second; strings compare by character code, dates by time value |
| LoansPage.Precedes | src/app/dashboard/emprestimos/page.tsx:261-263 | the comparator: for ascending order the first row's key is at most the second's, for descending order at least |
| LoansPage.SortLoans | src/app/dashboard/emprestimos/page.tsx:239-265 | a permutation of the rows in which the chosen key never decreases for ascending order and never increases for descending order |
| LoansPage.ByStatus | src/app/dashboard/emprestimos/page.tsx:284-288 | "all" keeps the list; "late" keeps exactly the rows with now after the due date, "on time" exactly the others, each kept row as often as in the list |
| LoansPage.LateAndOnTimePartition | src/app/dashboard/emprestimos/page.tsx:284-288 | the late and on-time lists split the list: together they hold each row as often as the list does, and share no row |
| LoansPage.ByText | src/app/dashboard/emprestimos/page.tsx:291-300 | an empty term keeps the list; otherwise exactly the rows whose title, author, ISBN, student name or enrollment contains the term ignoring case, each kept row as often as in the list |
| LoansPage.EmptyTermMatches | src/app/dashboard/emprestimos/page.tsx:291-293 | the empty term matches every row, so skipping the filter for it keeps what filtering would |
| LoansPage.FilterAndSort | src/app/dashboard/emprestimos/page.tsx:280-304 | exactly the rows of the active list meeting both filters pass, each as often as in the list and every other row not at all, in the chosen order |
| LoansPage.NextSort | src/app/dashboard/emprestimos/page.tsx:268-277 | the clicked column becomes the sort column; the same column flips the direction, a new one starts ascending |
| LoansPage.SortToggle | src/app/dashboard/emprestimos/page.tsx:268-277 | two clicks on the current column restore the direction; two on a new column give descending order |
| LoansPage.LoansView.constructor | src/app/dashboard/emprestimos/page.tsx:55-72 | nothing selected, empty searches and a return date one week ahead; no filter and sorted by due date ascending, as declared at lines 233-236 |
| LoansPage.LoansView.HandleSort | src/app/dashboard/emprestimos/page.tsx:268-277 | the sort state becomes `NextSort` of the old one, and nothing else changes |
| LoansPage.ShouldSearch | src/app/dashboard/emprestimos/page.tsx:98 | the debounced query's `length`, counted in UTF-16 code units, is at least 2 (the same test at line 117) |
| LoansPage.LoansView.FetchBooks | src/app/dashboard/emprestimos/page.tsx:96-112 | `searchBooks` runs only for a query whose `length`, in UTF-16 units, is at least 2; otherwise the results stay |
| LoansPage.LoansView.FetchStudents | src/app/dashboard/emprestimos/page.tsx:115-131 | `searchStudents` runs only for a query whose `length`, in UTF-16 units, is at least 2; otherwise the results stay |
| LoansPage.ShouldSearchByLength | src/app/dashboard/emprestimos/page.tsx:98 | any query of two characters searches, the empty one does not, and a single character searches exactly when it lies beyond the Basic Multilingual Plane |
| LoansPage.LoansView.ResetLoanForm | src/app/dashboard/emprestimos/page.tsx:157-164 | selections and search boxes cleared, return date one week ahead |
| LoansPage.LoansView.HandleCreateLoan | src/app/dashboard/emprestimos/page.tsx:133-168 | the missing book, student and date are reported in that order and then the store is unchanged; `createLoan` runs only with all three set, its outcome is that of `LoanActions.CreateLoan`, and only a success resets the form |
| CatalogPage.PageWindow | src/app/catalogo/page.tsx:155-167 | `min(totalPages, 5)` buttons, consecutive and increasing, all within `1..totalPages`, and holding the current page whenever it is a real page |
| CatalogPage.RenderPagination | src/app/catalogo/page.tsx:137-193 | nothing is shown exactly when there is at most one page; otherwise the window |
| CatalogPage.WindowCentred | src/app/catalogo/page.tsx:163-166 | away from both ends the current page is the middle of the five buttons |
| CatalogPage.CatalogView.constructor | src/app/catalogo/page.tsx:45-58 | page 1 of 1, no search, form closed, return date one week ahead |
| CatalogPage.CatalogView.DebounceFired | src/app/catalogo/page.tsx:61-68 | the typed query becomes the active one and the listing returns to page 1 |
| CatalogPage.CatalogView.HandlePageChange | src/app/catalogo/page.tsx:89-92 | a target below 1, beyond the last page or equal to the current one is ignored; any other becomes the current page; a page in range stays in range |
| CatalogPage.CatalogView.OpenReservationModal | src/app/catalogo/page.tsx:95-100 | the form opens for the book with an empty enrollment and a return date one week ahead |
| CatalogPage.CatalogView.FinishSubmit | src/app/catalogo/page.tsx:125-132 | the submit flag drops; the form closes only on success |
| CatalogPage.CatalogView.HandleSubmitReservation | src/app/catalogo/page.tsx:103-134 | a blank (after trimming) enrollment, then a missing date, then no chosen book are refused, each exactly under its condition and with the store unchanged; otherwise the outcome is that of `ReservationActions.CreateBookReservation` with the untrimmed enrollment, the form closing only on success |
| ListUpdates.ReplaceById | src/app/dashboard/livros/page.tsx:116 | same length; entries with the id become the new value, all others keep value and place |
| ListUpdates.RemoveById | src/app/dashboard/livros/page.tsx:154 | exactly the entries with other ids remain |
| ListUpdates.Append | src/app/dashboard/livros/page.tsx:140 | the old list followed by the new entry |
| ListUpdates.RemoveAfterReplace | src/app/dashboard/alunos/page.tsx:102 | replacing an entry and then dropping its id leaves what dropping the id alone leaves |
| ListUpdates.RemoveAfterAppend | src/app/dashboard/alunos/page.tsx:124 | appending an entry and then dropping its id is dropping the id from the old list |
| ListUpdates.RemoveIdempotent | src/app/dashboard/alunos/page.tsx:138 | dropping an id twice is dropping it once |
| BooksPage.BooksView.ShowUpdated | src/app/dashboard/livros/page.tsx:116-117 | the list with the edited entry replaced, the form closed |
| BooksPage.BooksView.ShowCreated | src/app/dashboard/livros/page.tsx:139-141 | the list with the new book appended, the form closed |
| BooksPage.BooksView.HandleCreateOrUpdateBook | src/app/dashboard/livros/page.tsx:94-148 | an empty required field, then a quantity below 1 (`NaN` from an empty input passes), then (creating) an ISBN already present are refused, each exactly under its condition and calling no action; edit mode performs `BookActions.UpdateBook` with the form's values, create mode `BookActions.CreateBook`, which then cannot fail and stores a quantity of at least 1; the list is updated only on success |
| BooksPage.BooksView.HandleDeleteBook | src/app/dashboard/livros/page.tsx:150-159 | the store follows `BookActions.DeleteBook`; on success the entries with that id leave the list |
| StudentsPage.PhoneForCreate | src/app/dashboard/alunos/page.tsx:119 | an empty or missing phone is sent as absent, any other unchanged; the result is never the empty phone, so no student created from the screen has one |
| StudentsPage.PhoneForCreateIdempotent | src/app/dashboard/alunos/page.tsx:119 | normalising an already normalised phone changes nothing |
| StudentsPage.StudentsView.ShowUpdated | src/app/dashboard/alunos/page.tsx:102-103 | the list with the edited entry replaced, the form closed |
| StudentsPage.StudentsView.ShowCreated | src/app/dashboard/alunos/page.tsx:123-125 | the list with the new student appended, the form closed |
| StudentsPage.StudentsView.HandleCreateOrUpdateStudent | src/app/dashboard/alunos/page.tsx:87-132 | an empty enrollment or name, then (creating) an enrollment already present are refused, each exactly under its condition and calling no action; edit mode performs `StudentActions.UpdateStudent` leaving the class, create mode `StudentActions.CreateStudent` with no class, which then cannot fail; the list is updated only on success |
| StudentsPage.StudentsView.HandleDeleteStudent | src/app/dashboard/alunos/page.tsx:134-143 | the store follows `StudentActions.DeleteStudent`; on success the entries with that id leave the list |
| Auth.Authorize | auth.ts:25-47 | missing credentials, e-mail or password give no user; an unknown e-mail or a failed password check is "invalid credentials"; a user without a stored password is an error; otherwise the looked-up user signs in (each an if and only if) |
| Auth.IsProtectedRoute | auth.ts:52-55 | the path starts with one of the protected prefixes |
| Auth.ProtectedIffDashboardPrefix | auth.ts:52-55 | with `/dashboard` the only protected prefix, a route is protected exactly when its path starts with `/dashboard` |
| Auth.Authorized | auth.ts:51-63 | access is refused exactly when the path starts with `/dashboard` and there is no session user |
| Auth.PrefixGuard | auth.ts:52-62 | `/dashboardX` and `/dashboard/livros` are guarded, `/dashboard` with a user and `/catalogo` are open |

## Left out

- Database plumbing is not modelled: the Prisma client, connection handling and the weaving in of related rows by
  `include`. A query returns the stored records themselves. The loan screen's `LoanRow` carries the joined book and
  student.
- Cache invalidation (`revalidatePath`) and error logging are not modelled, because they do not affect the store.
- The catch-all turning any thrown fault into `{ success: false }` is modelled only as the error `StoreFailure`,
  which is returned where the store would refuse a write. Error messages are reduced to error kinds.
- Transactions, rollback and concurrent requests are not modelled, because each action is a sequence of separate
  awaited writes. They are modelled as sequential steps, so a failure between two writes keeps the first.
- The schema is not part of this model, so its rules are stated as explicit assumptions:
  - The default `available` of a new book is the `initialAvailable` given to `Store.Library`.
  - A new loan has `returned` false.
  - A new order's `orderDate` is the current time.
  - Unique ISBNs and enrollments are enforced by refusing a clashing create.
- Foreign-key checks and referential actions are not modelled; for example, deleting a book may leave returned loans
  that name it.
- Password hashing and verification are not modelled, because they belong to a foreign library; `Auth.Authorize`
  takes verification as a predicate parameter. The user table lookup is a map from e-mail to user.
- The invariants "0 <= available <= quantity" and "quantity - available = active loans" are not maintained by the
  code, so they are not stated.
- Case-insensitive matching, both `toLowerCase` and the store's `mode: 'insensitive'`, is modelled by `Text.Lower`,
  which folds ASCII letters only.
- Ordering: the store's collation and JavaScript's string `<` are modelled by a comparison of character codes
  (`Text.StrLe`). Characters are Unicode scalar values, so a character beyond the Basic Multilingual Plane compares
  as one code and not as JavaScript's two UTF-16 units. Sort stability is not modelled; any order consistent with the
  key is accepted. String `length` is modelled in UTF-16 units (`Text.Utf16Length`).
- Date formatting, `startOfMonth`/`endOfMonth` and locale output are not modelled. The clock and the month bounds are
  integer parameters, and "one week from now" is `Base.AddDays(now, 7)`.
- Rendering is not modelled: JSX, toasts, dialogs, calendars, the sidebar, the layout, the sign-in page and the
  dashboard page. Neither are the timing of the debounce timers; `CatalogPage.CatalogView.DebounceFired` models only
  the timer's effect.
- Each screen's initial data loads are not modelled. Neither are the reload of the active-loan list after a loan
  is created, or the catalogue's book listing with its `totalPages`.
- Selection, focus and open/close handlers of the screens are not modelled, because they only set one field. The
  loan screen's return and cancel buttons are not modelled either, because they only call `Store.Library.ReturnLoan`
  and `Store.Library.CancelLoan`.
- StudentActions.GetStudents: requires `limit >= 1`. With a limit of 0 the source still succeeds (`take: 0` is
  accepted), but `Math.ceil(total / 0)` is `Infinity`, or `NaN` when `total` is 0, and no natural number holds that
  `totalPages`. A negative limit is a negative `take`, which Prisma reads as counting from the end; that is not
  modelled either. The one caller passes the default of 10.
- CatalogPage.CatalogView.HandleSubmitReservation: submitting with no book chosen is the outcome `NoBookSelected`,
  which stands for the TypeError the source raises when it reads the id of a missing book. The handler has a `try`
  with a `finally` and no `catch`, so `isSubmitting` is cleared and the TypeError then leaves the handler; the
  model ends the handler with that outcome.
- The seeders are modelled only by their result: the classes `gen-classes.ts` inserts are the `seeded` argument of
  `Store.Library`'s constructor. The other seeders and the user lookup helper are not modelled, because they are
  plumbing.
