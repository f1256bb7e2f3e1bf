/** The borrow endpoints' own logic: the translation of domain exceptions
    into HTTP exceptions around the service calls, the page slice of the
    loan listing, and the status a client finally sees. */
module BorrowApi {
  import opened Results
  import opened Exceptions
  import opened Repository
  import opened Models
  import opened BorrowService
  import opened Pagination

  /** The `except` clauses around `add_borrow`; anything they do not name
      propagates unchanged. */
  function AddBorrowHandler(f: Failure): (r: Failure)
    ensures f.Raised? && IsA(f.kind, BookNotFound) ==> r == RaisedHttp(BookNotFoundHttp)
    ensures f.Raised? && IsA(f.kind, NoAvailableCopies) ==> r == RaisedHttp(NoAvailableCopiesHttp)
    ensures !(f.Raised? && (IsA(f.kind, BookNotFound) || IsA(f.kind, NoAvailableCopies))) ==> r == f
  {
    if f.Raised? && IsA(f.kind, BookNotFound) then RaisedHttp(BookNotFoundHttp)
    else if f.Raised? && IsA(f.kind, NoAvailableCopies) then RaisedHttp(NoAvailableCopiesHttp)
    else f
  }

  /** The `except` clause around `return_book`. */
  function ReturnHandler(f: Failure): (r: Failure)
    ensures f.Raised? && IsA(f.kind, BookAlreadyReturned) ==> r == RaisedHttp(BookAlreadyReturnedHttp)
    ensures !(f.Raised? && IsA(f.kind, BookAlreadyReturned)) ==> r == f
  {
    if f.Raised? && IsA(f.kind, BookAlreadyReturned) then RaisedHttp(BookAlreadyReturnedHttp) else f
  }

  function Handle<T>(r: Result<T, Failure>, handler: Failure -> Failure): Result<T, Failure> {
    match r
    case Ok(v) => Ok(v)
    case Err(e) => Err(handler(e))
  }

  /** `POST /borrows` */
  function AddBorrowEndpoint(s: Store, req: BorrowRequest, reader: Row<User>): (r: Result<(Store, Row<Borrow>), Failure>)
    ensures r.Ok? <==> Lend(s, req, reader).Ok?
    ensures r.Ok? ==> r.value == Lend(s, req, reader).value
    ensures r.Err? ==> ResponseStatus(r.error) in {500, 404, 403}
    ensures r.Err? ==> !r.error.RaisedHttp?
  {
    Handle(Lend(s, req, reader), AddBorrowHandler)
  }

  /** `PATCH /borrows/{id}/return` */
  function ReturnEndpoint(s: Store, borrowId: nat, returnDate: Date, reader: Row<User>): (r: Result<(Store, Row<Borrow>), Failure>)
    ensures r.Ok? <==> Return(s, borrowId, returnDate, reader).Ok?
    ensures r.Ok? ==> r.value == Return(s, borrowId, returnDate, reader).value
    ensures r.Err? ==> ResponseStatus(r.error) in {500, 403}
    ensures r.Err? ==> !r.error.RaisedHttp?
  {
    Handle(Return(s, borrowId, returnDate, reader), ReturnHandler)
  }

  /** `GET /borrows`: one page of the loan listing. */
  function GetBorrowsEndpoint(s: Store, page: int, perPage: int): (r: seq<Row<Borrow>>)
    requires page >= 1 && perPage >= 0
    ensures |r| <= perPage
    ensures |r| == Min(perPage, |ListBorrows(s)| - Min(Offset(page, perPage), |ListBorrows(s)|))
    ensures forall i :: 0 <= i < |r| ==>
      Offset(page, perPage) + i < |ListBorrows(s)| && r[i] == ListBorrows(s)[Offset(page, perPage) + i]
    ensures forall i :: 0 <= i < |r| ==> r[i].id in s.borrows.rows && r[i].data == s.borrows.rows[r[i].id]
  {
    Page(ListBorrows(s), page, perPage)
  }

  // ---------------------------------------------------------------------
  // Properties

  /** The handlers map each named domain error to its HTTP counterpart and
      status. */
  lemma HandlerStatuses()
    ensures ResponseStatus(AddBorrowHandler(Raised(BookNotFound))) == 404
    ensures ResponseStatus(AddBorrowHandler(Raised(NoAvailableCopies))) == 404
    ensures ResponseStatus(ReturnHandler(Raised(BookAlreadyReturned))) == 409
  {
  }

  /** The service raises HTTP exceptions itself, never a domain exception, so
      the endpoints' handlers pass every failure through unchanged. */
  lemma HandlersNeverFire(s: Store, req: BorrowRequest, borrowId: nat, d: Date, reader: Row<User>)
    ensures AddBorrowEndpoint(s, req, reader) == Lend(s, req, reader)
    ensures ReturnEndpoint(s, borrowId, d, reader) == Return(s, borrowId, d, reader)
  {
  }

  /** What a client sees when a lend is refused: 404 when no copy is left,
      403 at the loan limit, and a server error when the book is missing. */
  lemma LendRefusalStatuses(s: Store, req: BorrowRequest, reader: Row<User>)
    ensures req.bookId !in s.books.rows ==>
      ResponseStatus(AddBorrowEndpoint(s, req, reader).error) == 500
    ensures req.bookId in s.books.rows && s.books.rows[req.bookId].availableCopies <= 0 ==>
      ResponseStatus(AddBorrowEndpoint(s, req, reader).error) == 404
    ensures (&& req.bookId in s.books.rows
             && s.books.rows[req.bookId].availableCopies > 0
             && reader.data.borrowedBooks >= MaxBorrowed) ==>
      ResponseStatus(AddBorrowEndpoint(s, req, reader).error) == 403
  {
    HandlersNeverFire(s, req, 0, 0, reader);
  }

  /** A second return of a loan is answered with 403, not with the 409 of
      `BookAlreadyReturnedHTTPException`. */
  lemma SecondReturnStatus(s: Store, borrowId: nat, d1: Date, d2: Date, first: Row<User>, second: Row<User>)
    requires ReturnEndpoint(s, borrowId, d1, first).Ok?
    ensures var s1 := ReturnEndpoint(s, borrowId, d1, first).value.0;
      && ReturnEndpoint(s1, borrowId, d2, second).Err?
      && ResponseStatus(ReturnEndpoint(s1, borrowId, d2, second).error) == 403
  {
    var s1 := Return(s, borrowId, d1, first).value.0;
    ReturnTwiceFails(s, borrowId, d1, d2, first, second);
    HandlersNeverFire(s1, BorrowRequest(0, 0, 0), borrowId, d2, second);
  }

  /** Paging through the loan listing visits every loan exactly once. */
  lemma {:induction false} PagesCoverListing(s: Store, k: nat, perPage: nat)
    requires k * perPage >= |ListBorrows(s)|
    ensures FirstPages(ListBorrows(s), k, perPage) == ListBorrows(s)
  {
    FirstPagesArePrefix(ListBorrows(s), k, perPage);
  }
}
