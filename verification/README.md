# Library service core in Dafny

A functional model of the lending core of a small library web service: a
catalogue of books and authors, a table of readers, and a table of loans.
The model covers the lending engine, which lends a copy of a book to a
reader and takes it back. It also covers the generic repository the services
use, the book repository's author-link reconciliation, the book service's
rules, the exception taxonomy with its HTTP status codes, and the borrow
endpoints' exception handling and page slicing.

Every operation is a pure function from a store (`Models.Store`: five tables)
to a `Result` carrying either the new store and the operation's return value,
or a `Failure`. A failed operation returns no store. This models the session
rolled back when it closes without a commit: nothing a failed request wrote
survives.

Modules, one per file:

- `Results`: `Option` and `Result`.
- `Models`: the entities (author, book, user, loan, book/author link), the
  store, and the loan limit of 5.
- `Exceptions`: both exception hierarchies, the status each HTTP class
  answers with, the `Failure` type and `check_date`.
- `Repository`: tables with serial keys, and the generic create / get_all /
  get_by_id / update / delete with `.one()` semantics.
- `BookCrud`: books with their authors, bulk link insertion, and the
  reconciliation of a book's author links.
- `BookService`: create, edit and delete a book.
- `BorrowService`: lend, return, and list loans.
- `Pagination`: the page slice.
- `BorrowApi`: the borrow endpoints' `except` clauses and the status a client
  receives.

Several properties describe what the code does rather than what its comments
or the classes it defines suggest it should do:

- The lending engine raises plain HTTP exceptions itself. The endpoints'
  `except` clauses for domain exceptions therefore never fire.
- A second return of a loan is answered with 403, not 409.
- A missing book or loan surfaces as an unhandled `.one()` error, which is a
  server error (500).
- No date order is checked when lending or returning.
- `return_book` decrements the counter of the caller, not of the loan's
  holder, and nothing stops the counter going below zero.
- `delete_book`'s translation to `BookNotFound` never fires, because the
  repository's delete does not raise `ObjectNotFoundException`.

The code also defines pieces that the lending engine never uses:

- `check_date` (src/exceptions.py:6-10) exists, but neither lending nor
  returning calls it.
- `BorrowNotFoundException` (src/exceptions.py:44-45) is defined but never
  raised: a missing loan surfaces as the generic `.one()` error.
- `BookAlreadyReturnedHTTPException` (src/exceptions.py:114-116) carries 409,
  yet the service answers an already-returned loan with a plain 403
  (src/services/borrow.py:37-38).

## Model

| member | source | states |
|---|---|---|
| Exceptions.CheckDate | src/exceptions.py:6-10 | the check fails exactly when the return date is not strictly after the borrow date, and the failure is answered with 422 |
| Exceptions.CheckDateBoundary | src/exceptions.py:7 | equal dates are refused; a return date one day later passes |
| Exceptions.ObjectNotFoundFamily | src/exceptions.py:28-45 | an `except ObjectNotFoundException` catches exactly the generic, author, book and borrow not-found errors; user-not-found is outside the family |
| Exceptions.RootCatchesAll | src/exceptions.py:13-57 | every domain exception is a `LibraryException` |
| Exceptions.NotFoundFamilyStatus | src/exceptions.py:88-106 | every HTTP class below the not-found HTTP exception answers 404; every such class except the base of the family inherits the status rather than declaring one |
| Exceptions.StatusCodeTable | src/exceptions.py:60-121 | the status each HTTP class answers with, whether declared or inherited |
| Repository.Select | src/CRUD/base.py:21-28 | a query returns only rows that satisfy the filter, with their stored data; it returns every such row; the rows come in strictly ascending key order, an order the model chooses (see "Left out") |
| Repository.SelectFromSound | src/CRUD/base.py:22-26 | every row a scan of a key range returns is stored, matches the filter and lies in the range, in ascending order |
| Repository.SelectFromComplete | src/CRUD/base.py:22-26 | every stored matching key in the scanned range appears in the scan |
| Repository.One | src/CRUD/base.py:34 | `.one()` succeeds exactly when the result has one row and returns it; an empty result raises no-result and a larger one multiple-results |
| Repository.SelectCount | src/CRUD/base.py:32-34 | a query yields no row exactly when nothing matches, and exactly one row when exactly one key matches |
| Repository.Create | src/CRUD/base.py:13-18 | an insert stores the data under a key that no stored row has, returns that row, and leaves every other row |
| Repository.GetAll | src/CRUD/base.py:21-28 | the listing holds each stored row exactly once, with its data |
| Repository.GetById | src/CRUD/base.py:31-36 | the fetch succeeds exactly when the key is stored and returns that row; otherwise `.one()` raises no-result |
| Repository.Update | src/CRUD/base.py:39-48 | the update succeeds exactly when one row matches and changes only that row; no match raises no-result, several matches raise multiple-results |
| Repository.ReplaceById | src/CRUD/base.py:39-48 | updating by id succeeds exactly when the key is stored and replaces only that row |
| Repository.Delete | src/CRUD/base.py:51-55 | the delete succeeds exactly when one row matches, removes only that row and returns it; no match raises no-result, several matches raise multiple-results |
| Repository.DeleteById | src/CRUD/base.py:51-55 | deleting by id succeeds exactly when the key is stored, removes it and returns its row |
| Repository.CreateThenGet | src/CRUD/base.py:13-36 | an inserted row is fetched back by its new key, and earlier rows fetch as before |
| Repository.ReplaceThenGet | src/CRUD/base.py:31-48 | after an update by id, that id fetches the new data and other ids fetch as before |
| Repository.DeleteThenGet | src/CRUD/base.py:31-55 | after a delete by id, that id is no longer found and other ids fetch as before |
| BookCrud.GetBookWithRels | src/CRUD/book.py:15-27 | the listing raises `ObjectNotFound` exactly when no book matches; otherwise it lists each matching book once, in the model's key order, with its stored data and exactly its linked authors |
| BookCrud.EmptyTableNotFound | src/CRUD/book.py:25-26 | listing all books of an empty catalogue raises `ObjectNotFound` |
| BookCrud.AddMany | src/CRUD/book.py:34-39 | the bulk insert succeeds exactly when every link's book and author exist, and then adds exactly those links; otherwise it raises `InvalidInput` |
| BookCrud.Diff | src/CRUD/book.py:46-47 | the delete set and the insert set are disjoint; the delete set is current-but-unwanted; the insert set is wanted-but-absent; applying both turns the current set into the wanted set |
| BookCrud.EditAuthorsIds | src/CRUD/book.py:41-62 | the reconciliation fails (as `InvalidInput`) exactly when there is something to insert and either the book or one of the new authors is missing; on success the book's authors are exactly the requested set, links that already existed and are still wanted are kept, and other books' links are untouched |
| BookCrud.EditAuthorsIdsIdempotent | src/CRUD/book.py:41-62 | reconciling a second time with the same request leaves the links as the first reconciliation left them |
| BookCrud.EditAuthorsIdsNoneClears | src/CRUD/book.py:42-54 | a missing author list always succeeds and removes every link of the book and no other link |
| BookCrud.LinksForCount | src/services/book.py:20-23 | one link row is built per distinct requested author |
| BookService.ApplyPatch | src/CRUD/base.py:43 | fields absent from a patch keep their stored values, and fields set in it take the patch's value |
| BookService.ApplyPatchIdempotent | src/CRUD/base.py:43 | applying the same patch twice equals applying it once |
| BookService.AnyTruthy | src/services/book.py:37 | the guard fails exactly when no date is set, every set text field is empty and a set copy count is 0: a date is always truthy, while `""` and `0` are falsy like an unset field |
| BookService.TranslateNotFound | src/services/book.py:44-45 | an `ObjectNotFound` or any of its subclasses becomes `BookNotFound`; any other failure passes unchanged |
| BookService.CreateBook | src/services/book.py:14-26 | a negative copy count is refused with `InvalidInput` before anything is written; creation succeeds exactly when the count is non-negative and every requested author exists; it then stores the book under a new key and adds one link per distinct author; column length and integer range limits are not modelled (see "Left out") |
| BookService.CreateBookZeroCopies | src/services/book.py:15-16 | the copy check is strict: zero copies is accepted |
| BookService.CreateBookLinksDistinct | src/services/book.py:20-24 | a created book's authors are exactly the distinct requested ids, however many times an id repeats |
| BookService.EditBook | src/services/book.py:34-48 | the row is written only when the patch holds a truthy value; the links become exactly the requested author set; the result is the edited book with its authors; for a stored book the edit succeeds exactly when every new author exists; a missing book surfaces as no-result when the patch is truthy, as `BookNotFound` when the patch is falsy and nothing is inserted, and as `InvalidInput` when the patch is falsy and authors are to be inserted; `ObjectNotFound` never escapes; column length and integer range limits are not modelled (see "Left out") |
| BookService.FalsyPatchKeepsRow | src/services/book.py:37-38 | a patch with no truthy value leaves the book row as stored |
| BookService.PatchAcceptsNegativeCopies | src/services/book.py:34-38 | an edit may set a negative copy count: only creation checks the sign; column length and integer range limits are not modelled (see "Left out") |
| BookService.CascadeBook | src/models/borrow.py:13 | removing a book also removes exactly its loans and its author links |
| BookService.DeleteBook | src/services/book.py:50-56 | deleting a book succeeds exactly when it is stored, returns the removed row, and cascades to exactly its loans and its author links, leaving the other loans as they were; a missing id fails with the repository's no-result error |
| BookService.DeleteMissingBookIsGeneric | src/services/book.py:50-54 | deleting a missing book is never reported as `BookNotFound` |
| BookService.CreateThenDeleteBook | src/services/book.py:14-56 | deleting a just-created book restores the catalogue and the links as they were and returns the created row |
| BorrowService.Lend | src/services/borrow.py:11-27 | a lend succeeds exactly when the book exists with a copy left, the reader holds fewer than five loans and the reader exists; a missing book raises no-result, no copy gives 404, the limit gives 403 and a reader missing from the table is refused by the loan's foreign key; on success one copy is taken, the reader's counter rises by one, and an open loan for the reader is stored under a new key |
| BorrowService.Return | src/services/borrow.py:35-52 | a return succeeds exactly when the loan exists and is open, its book exists and the caller exists; a missing loan raises no-result, a returned loan gives 403, and an open loan whose book or caller is missing raises no-result; on success the book gains a copy, the loan is closed on the given date, and the caller's counter drops by one |
| BorrowService.ListBorrows | src/services/borrow.py:29-30 | the listing holds each stored loan exactly once |
| BorrowService.LendChecksCopiesFirst | src/services/borrow.py:14-19 | a reader at the limit who asks for a book with no copy left is told there is no copy (404) |
| BorrowService.LendKeepsCounters | src/services/borrow.py:14-20 | when the reader record is current, lending keeps every copy count non-negative and every loan counter between 0 and 5 |
| BorrowService.LendIgnoresDates | src/services/borrow.py:11-27 | whether a lend succeeds, and the book and reader tables it leaves, do not depend on the requested dates |
| BorrowService.LendAcceptsBackwardDates | src/services/borrow.py:11-22 | a loan whose return date does not follow its borrow date is lent out, although `check_date` would refuse it |
| BorrowService.ReturnTwiceFails | src/services/borrow.py:36-38 | a second return of the same loan fails with 403, whoever asks |
| BorrowService.ReturnMovesCallersCounter | src/services/borrow.py:45-49 | when someone other than the holder returns a loan, the holder's counter is unchanged |
| BorrowService.ReturnCanDriveCounterNegative | src/services/borrow.py:45 | a reader with no loans who returns someone else's open loan ends with a counter of -1 |
| BorrowService.LendThenReturn | src/services/borrow.py:11-52 | lending and then returning the new loan restores the book's copy count and the reader's counter, and leaves the loan closed |
| Pagination.Page | src/api/borrow.py:70 | a page holds the items from offset `per_page * (page - 1)` onwards, at most `per_page` of them, in order; it is empty past the end of the list |
| Pagination.FirstPagesArePrefix | src/api/borrow.py:70 | pages 1 to k together are exactly the first `min(len, k * per_page)` items, with none skipped or repeated |
| Pagination.FirstPageWhole | src/api/borrow.py:70 | a first page at least as long as the list is the whole list |
| Pagination.PagesDisjoint | src/api/borrow.py:70 | a position inside the list on an earlier page and one on a later page are items of those pages, and the first lies before the second |
| BorrowApi.AddBorrowHandler | src/api/borrow.py:48-55 | a book-not-found error becomes the 404 book-not-found HTTP exception; a no-copies error becomes the 404 no-copies HTTP exception; anything else propagates |
| BorrowApi.ReturnHandler | src/api/borrow.py:97-102 | an already-returned error becomes the 409 HTTP exception; anything else propagates |
| BorrowApi.AddBorrowEndpoint | src/api/borrow.py:48-56 | the lend endpoint succeeds exactly when the service does, with the service's result; a refusal reaches the client as 500, 404 or 403, never as one of the endpoint's own HTTP exceptions |
| BorrowApi.ReturnEndpoint | src/api/borrow.py:97-103 | the return endpoint succeeds exactly when the service does, with the service's result; a refusal reaches the client as 500 or 403, never as one of the endpoint's own HTTP exceptions |
| BorrowApi.HandlerStatuses | src/api/borrow.py:48-55 | the handled domain errors answer 404, 404 and 409 |
| BorrowApi.HandlersNeverFire | src/api/borrow.py:48-55 | the lend and return endpoints return exactly what the service returns: their handlers never match |
| BorrowApi.LendRefusalStatuses | src/services/borrow.py:12-19 | a client asking for a missing book gets 500, for a book with no copy 404, and at the limit 403 |
| BorrowApi.SecondReturnStatus | src/api/borrow.py:96-102 | a client returning a loan a second time gets 403, not the 409 of the already-returned HTTP exception |
| BorrowApi.GetBorrowsEndpoint | src/api/borrow.py:68-71 | the loan listing endpoint returns the window of the listing that starts at offset `per_page * (page - 1)`: exactly `min(per_page, len - offset)` loans (none past the end), each equal to the listing entry at its position and a stored loan with its data |
| BorrowApi.PagesCoverListing | src/api/borrow.py:68-71 | walking enough pages of the loan listing visits every loan exactly once |

## Left out

- Authentication, tokens, password hashing, the admin check on the listing, and the user, author and auth routes: none of these is part of the lending core.
- Connection and session plumbing (commit, rollback, `async`), logging, and the detail strings of the exceptions. A failure is modelled as returning no store, which is the effect of the rollback.
- Concurrency: two simultaneous lends of the last copy are not modelled. The model is sequential and has no row locking.
- The pass-through service calls `get_books` and `get_book_by_id` are left out. They are `BookCrud.GetBookWithRels` with no filter and with an id filter.
- `get_my_borrows` calls a `get_filtered` repository method that the generic repository does not define, so it has no behaviour to model.
- The `MaxBooksLimitExceeded` clause of the lend endpoint is left out. It names exception classes the exceptions module does not define, so the import at the top of the borrow routes would fail. The model treats that clause as never matching, which it could not do anyway, because the service raises a plain 403.
- The application entry point mounts only the author and auth routers. The model describes the borrow and book logic as written, regardless of mounting.
- The user schema has no `borrowed_books` field and the loan table has no `is_returned` column, although the lending engine reads and writes both. The model gives `Models.User` and `Models.Borrow` these fields.
- The book/author association table's definition is not part of this model. The model assumes foreign keys to books and authors, with cascading deletes.
- Reader deletion and its cascade are left out, because no operation in the core deletes a reader.
- `AddMany` with an empty list is treated as a no-op that succeeds. SQLAlchemy's behaviour for an empty multi-row insert is not modelled.
- Explicit JSON `null` in a book patch is not modelled. A field is either unset or set to a value.
- Sequence advancement on a rolled-back insert is not modelled: a failed create does not consume a key.
- Repository.Select: the source's queries carry no `order_by`, so the database may return rows in any order. The model fixes ascending key order. The page contents of `BorrowApi.GetBorrowsEndpoint` and `BorrowApi.PagesCoverListing` therefore assume a listing order that stays the same from one request to the next.
- Models.Book: the books table's `author_id` column (src/models/book.py:16, src/schemas/book.py:10) is not modelled. Authorship is carried only by the association table's links.
- Pagination.Page: requires `page >= 1` and `per_page >= 0`. The pagination dependency's bounds are not part of this model, and in Python a negative offset would slice from the end of the list.
- BookCrud.AddMany: inserting a link that is already stored is treated as a success (set union). The association table's key is not part of this model, so a duplicate-key refusal is not modelled.
- BorrowService.Lend: a new loan is stored with `isReturned` false. The inserted data (src/services/borrow.py:22) carries no such field and the loan table declares no such column, so the model assumes a false default.
- BookService.CreateBook: the books table's column limits are not modelled. The text columns are `String(100)`, `String(300)` and `String(50)` (src/models/book.py:13-17), and the copy count is a bounded integer column. A title that is too long, or a count outside the column's range, makes the store refuse the insert with a server error (500), but the model accepts it.
- BookService.EditBook: the same column limits are not modelled. An edit that writes a text longer than its column, or a count outside the integer range, succeeds in the model but is refused by the store.
- BookService.PatchAcceptsNegativeCopies: holds in the store only for negative counts within the integer column's range. The model has no lower bound on the column.
- The request and patch schemas `BookAddRequest`, `BookPatch`, `BookPatchRequest`, `BooksAuthorsAdd`, `BooksAuthors` and `BookWithRels` are imported by the book service and the book repository (src/services/book.py:2-9, src/CRUD/book.py:6), but src/schemas/book.py does not define them. Likewise src/schemas/borrow.py does not define the imported `BorrowAddRequest`. The fields of `BookService.BookRequest`, `BookService.BookPatch` and `BorrowService.BorrowRequest` are therefore taken from the ORM columns and from the endpoint examples (src/api/book.py:36-43 and 133-150, src/api/borrow.py:39). The truthiness guard `BookService.AnyTruthy` depends on this choice of patch fields.
- Ids are `nat`, while the source's path and body ids are `int`. No row has a negative id, so a negative id would behave like a missing key and raise the no-result error, which is the same outcome the model gives any absent key.
- Dates are integers (day numbers). Only their order matters to the model.
- `Exceptions.StatusCode`: its facts are stated by `Exceptions.StatusCodeTable` and `Exceptions.NotFoundFamilyStatus` rather than in its own contract.
- `BorrowService.LendKeepsCounters` assumes the reader object passed in is the stored one. The handler dependency that loads it is not part of this model.
