/** The lending engine: lending a book to a reader and taking it back, as
    transitions of the store.  Each raise happens before any write that
    survives: a failed request leaves the store as it was, because the
    session is rolled back when it closes without a commit.

    The reader is the user object the request handler passes in, with the
    id and counter it carries; its record is written back whole. */
module BorrowService {
  import opened Results
  import opened Exceptions
  import opened Repository
  import opened Models

  /** The body of a lend request. */
  datatype BorrowRequest = BorrowRequest(bookId: nat, borrowDate: Date, returnDate: Date)

  /** `add_borrow`: fetch the book, refuse when no copy is left (404), refuse
      when the reader already holds the maximum (403), then insert the loan
      and write back the book and the reader with their counters moved by
      one.  The date order is not checked. */
  function Lend(s: Store, req: BorrowRequest, reader: Row<User>): (r: Result<(Store, Row<Borrow>), Failure>)
    ensures r.Ok? <==>
      && req.bookId in s.books.rows
      && s.books.rows[req.bookId].availableCopies > 0
      && reader.data.borrowedBooks < MaxBorrowed
      && reader.id in s.users.rows
    ensures req.bookId !in s.books.rows ==> r == Err(NoResultFound)
    ensures req.bookId in s.books.rows && s.books.rows[req.bookId].availableCopies <= 0 ==>
      r == Err(PlainHttp(404))
    ensures (&& req.bookId in s.books.rows
             && s.books.rows[req.bookId].availableCopies > 0
             && reader.data.borrowedBooks >= MaxBorrowed) ==> r == Err(PlainHttp(403))
    ensures (&& req.bookId in s.books.rows
             && s.books.rows[req.bookId].availableCopies > 0
             && reader.data.borrowedBooks < MaxBorrowed
             && reader.id !in s.users.rows) ==> r == Err(IntegrityViolation)
    ensures r.Err? ==> r.error in {NoResultFound, PlainHttp(404), PlainHttp(403), IntegrityViolation}
    ensures r.Ok? ==>
      var (s', loan) := r.value;
      var book := s.books.rows[req.bookId];
      && s'.books.rows == s.books.rows[req.bookId := book.(availableCopies := book.availableCopies - 1)]
      && s'.users.rows == s.users.rows[reader.id := reader.data.(borrowedBooks := reader.data.borrowedBooks + 1)]
      && loan.id !in s.borrows.rows
      && loan.data == Borrow(req.bookId, reader.id, req.borrowDate, req.returnDate, false)
      && s'.borrows.rows == s.borrows.rows[loan.id := loan.data]
      && s'.authors == s.authors && s'.links == s.links
  {
    var found :- GetById(s.books, req.bookId);
    var book := found.data;
    if book.availableCopies <= 0 then Err(PlainHttp(404))
    else if reader.data.borrowedBooks >= MaxBorrowed then Err(PlainHttp(403))
    else
      var lent := book.(availableCopies := book.availableCopies - 1);
      var holder := reader.data.(borrowedBooks := reader.data.borrowedBooks + 1);
      var loan := Borrow(req.bookId, reader.id, req.borrowDate, req.returnDate, false);
      // the insert's foreign keys: the book was just fetched, the reader must exist
      if reader.id !in s.users.rows then Err(IntegrityViolation)
      else
        var created := Create(s.borrows, loan);
        // both rows are known to exist, so neither update can fail
        var books := ReplaceById(s.books, found.id, lent).value;
        var users := ReplaceById(s.users, reader.id, holder).value;
        Ok((s.(books := books, users := users, borrows := created.0), created.1))
  }

  /** `return_book`: fetch the loan, refuse one already returned (403), fetch
      its book, then write back the book with one more copy, the loan closed
      on the given date, and the passed-in reader with one loan fewer.  The
      counter moved is the caller's, whoever holds the loan, and it has no
      lower bound. */
  function Return(s: Store, borrowId: nat, returnDate: Date, reader: Row<User>): (r: Result<(Store, Row<Borrow>), Failure>)
    ensures r.Ok? <==>
      && borrowId in s.borrows.rows
      && !s.borrows.rows[borrowId].isReturned
      && s.borrows.rows[borrowId].bookId in s.books.rows
      && reader.id in s.users.rows
    ensures borrowId !in s.borrows.rows ==> r == Err(NoResultFound)
    ensures borrowId in s.borrows.rows && s.borrows.rows[borrowId].isReturned ==> r == Err(PlainHttp(403))
    ensures (&& borrowId in s.borrows.rows
             && !s.borrows.rows[borrowId].isReturned
             && !(s.borrows.rows[borrowId].bookId in s.books.rows && reader.id in s.users.rows)) ==>
      r == Err(NoResultFound)
    ensures r.Err? ==> r.error in {NoResultFound, PlainHttp(403)}
    ensures r.Ok? ==>
      var (s', closed) := r.value;
      var loan := s.borrows.rows[borrowId];
      var book := s.books.rows[loan.bookId];
      && s'.books.rows == s.books.rows[loan.bookId := book.(availableCopies := book.availableCopies + 1)]
      && closed == Row(borrowId, loan.(returnDate := returnDate, isReturned := true))
      && s'.borrows.rows == s.borrows.rows[borrowId := closed.data]
      && s'.users.rows == s.users.rows[reader.id := reader.data.(borrowedBooks := reader.data.borrowedBooks - 1)]
      && s'.authors == s.authors && s'.links == s.links
  {
    var found :- GetById(s.borrows, borrowId);
    var loan := found.data;
    if loan.isReturned then Err(PlainHttp(403))
    else
      var shelf :- GetById(s.books, loan.bookId);
      var book := shelf.data.(availableCopies := shelf.data.availableCopies + 1);
      var closed := loan.(returnDate := returnDate, isReturned := true);
      var holder := reader.data.(borrowedBooks := reader.data.borrowedBooks - 1);
      // the book and the loan were just fetched; only the reader may be missing
      var books := ReplaceById(s.books, shelf.id, book).value;
      var borrows := ReplaceById(s.borrows, found.id, closed).value;
      var users :- ReplaceById(s.users, reader.id, holder);
      Ok((s.(books := books, borrows := borrows, users := users), Row(found.id, closed)))
  }

  /** `get_borrows`: every loan, one entry per stored loan. */
  function ListBorrows(s: Store): (out: seq<Row<Borrow>>)
    ensures forall k :: k in s.borrows.rows <==> exists i :: 0 <= i < |out| && out[i].id == k
    ensures forall i :: 0 <= i < |out| ==> out[i].data == s.borrows.rows[out[i].id]
    ensures forall i, j :: 0 <= i < j < |out| ==> out[i].id != out[j].id
  {
    GetAll(s.borrows)
  }

  // ---------------------------------------------------------------------
  // Properties of the lending engine

  /** The reader object is fresh: it carries what the store holds for it. */
  ghost predicate Fresh(s: Store, reader: Row<User>) {
    reader.id in s.users.rows && s.users.rows[reader.id] == reader.data
  }

  /** The copy check runs first: a reader at the limit asking for a book
      with no copy left is told there is no copy. */
  lemma LendChecksCopiesFirst(s: Store, req: BorrowRequest, reader: Row<User>)
    requires req.bookId in s.books.rows && s.books.rows[req.bookId].availableCopies <= 0
    requires reader.data.borrowedBooks >= MaxBorrowed
    ensures Lend(s, req, reader) == Err(PlainHttp(404))
  {
  }

  /** Lending keeps both counters in range when a fresh reader asks. */
  lemma LendKeepsCounters(s: Store, req: BorrowRequest, reader: Row<User>)
    requires CountersInRange(s) && Fresh(s, reader)
    requires Lend(s, req, reader).Ok?
    ensures CountersInRange(Lend(s, req, reader).value.0)
  {
    var s' := Lend(s, req, reader).value.0;
    forall id | id in s'.users.rows ensures 0 <= s'.users.rows[id].borrowedBooks <= MaxBorrowed {
      if id != reader.id {
        assert s'.users.rows[id] == s.users.rows[id];
      }
    }
    forall id | id in s'.books.rows ensures s'.books.rows[id].availableCopies >= 0 {
      if id != req.bookId {
        assert s'.books.rows[id] == s.books.rows[id];
      }
    }
  }

  /** The date order plays no part in lending: the same request with any
      other dates has the same outcome apart from the dates it records. */
  lemma LendIgnoresDates(s: Store, req: BorrowRequest, reader: Row<User>, d1: Date, d2: Date)
    ensures Lend(s, req.(borrowDate := d1, returnDate := d2), reader).Ok? == Lend(s, req, reader).Ok?
    ensures Lend(s, req.(borrowDate := d1, returnDate := d2), reader).Ok? ==>
      Lend(s, req.(borrowDate := d1, returnDate := d2), reader).value.0.books
        == Lend(s, req, reader).value.0.books
    ensures Lend(s, req.(borrowDate := d1, returnDate := d2), reader).Ok? ==>
      Lend(s, req.(borrowDate := d1, returnDate := d2), reader).value.0.users
        == Lend(s, req, reader).value.0.users
  {
  }

  /** A loan can be lent out with a return date before its borrow date. */
  lemma LendAcceptsBackwardDates(s: Store, req: BorrowRequest, reader: Row<User>)
    requires req.bookId in s.books.rows && s.books.rows[req.bookId].availableCopies > 0
    requires reader.data.borrowedBooks < MaxBorrowed && reader.id in s.users.rows
    requires req.returnDate <= req.borrowDate
    ensures Lend(s, req, reader).Ok?
    ensures CheckDate(req.borrowDate, req.returnDate).Some?
  {
  }

  /** A second return of the same loan always fails, and the first return's
      effects stand. */
  lemma ReturnTwiceFails(s: Store, borrowId: nat, d1: Date, d2: Date, first: Row<User>, second: Row<User>)
    requires Return(s, borrowId, d1, first).Ok?
    ensures Return(Return(s, borrowId, d1, first).value.0, borrowId, d2, second) == Err(PlainHttp(403))
  {
  }

  /** Returning moves the counter of the reader passed in, not that of the
      reader who holds the loan. */
  lemma ReturnMovesCallersCounter(s: Store, borrowId: nat, d: Date, reader: Row<User>)
    requires Return(s, borrowId, d, reader).Ok?
    requires reader.id != s.borrows.rows[borrowId].readerId
    requires s.borrows.rows[borrowId].readerId in s.users.rows
    ensures var holder := s.borrows.rows[borrowId].readerId;
      Return(s, borrowId, d, reader).value.0.users.rows[holder] == s.users.rows[holder]
  {
  }

  /** Nothing bounds the counter from below: a reader with no loans who
      returns someone else's open loan ends with -1. */
  lemma ReturnCanDriveCounterNegative(s: Store, borrowId: nat, d: Date, reader: Row<User>)
    requires borrowId in s.borrows.rows && !s.borrows.rows[borrowId].isReturned
    requires s.borrows.rows[borrowId].bookId in s.books.rows
    requires Fresh(s, reader) && reader.data.borrowedBooks == 0
    ensures Return(s, borrowId, d, reader).Ok?
    ensures Return(s, borrowId, d, reader).value.0.users.rows[reader.id].borrowedBooks == -1
  {
  }

  /** Lending and then returning the new loan with the reader's updated
      object restores the book's copies and the reader's counter. */
  lemma LendThenReturn(s: Store, req: BorrowRequest, reader: Row<User>, d: Date)
    requires Lend(s, req, reader).Ok?
    ensures var (s1, loan) := Lend(s, req, reader).value;
      var again := Row(reader.id, s1.users.rows[reader.id]);
      && Return(s1, loan.id, d, again).Ok?
      && Return(s1, loan.id, d, again).value.0.books.rows[req.bookId].availableCopies
           == s.books.rows[req.bookId].availableCopies
      && Return(s1, loan.id, d, again).value.0.users.rows[reader.id].borrowedBooks
           == reader.data.borrowedBooks
      && Return(s1, loan.id, d, again).value.1.data.isReturned
  {
    var (s1, loan) := Lend(s, req, reader).value;
    var again := Row(reader.id, s1.users.rows[reader.id]);
    assert s1.borrows.rows[loan.id] == loan.data;
    assert loan.data.bookId in s1.books.rows && again.id in s1.users.rows;
    var r := Return(s1, loan.id, d, again);
    assert r.Ok?;
  }
}
