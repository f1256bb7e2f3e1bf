/** The error taxonomy of the library service: the domain exception classes,
    the HTTP exception classes with their status codes, the failures raised by
    the database layer, and the borrow/return date check. */
module Exceptions {
  import opened Results

  /** The `LibraryException` class family; `LibraryBase` is the root class. */
  datatype LibraryError =
    | LibraryBase
    | TokenDecode
    | TokenExpire
    | ObjectNotFound
    | UserNotFound
    | AuthorNotFound
    | BookNotFound
    | BorrowNotFound
    | NoAvailableCopies
    | BookAlreadyReturned
    | InvalidInput

  /** Distance from the root class, used to bound walks up the hierarchy. */
  function Depth(e: LibraryError): nat {
    match e
    case LibraryBase => 0
    case AuthorNotFound | BookNotFound | BorrowNotFound => 2
    case _ => 1
  }

  /** The direct base class.  Note that `UserNotFound` derives from the root
      class, not from `ObjectNotFound`. */
  function Parent(e: LibraryError): (p: LibraryError)
    requires e != LibraryBase
    ensures Depth(p) < Depth(e)
  {
    match e
    case AuthorNotFound | BookNotFound | BorrowNotFound => ObjectNotFound
    case _ => LibraryBase
  }

  /** `isinstance`: an `except ancestor` clause catches a raised `e`. */
  predicate IsA(e: LibraryError, ancestor: LibraryError)
    decreases Depth(e)
  {
    e == ancestor || (e != LibraryBase && IsA(Parent(e), ancestor))
  }

  /** The `LibraryHTTPException` class family; `LibraryHttp` is the root. */
  datatype HttpError =
    | LibraryHttp
    | TokenHttp
    | TokenExpireHttp
    | TokenDecodeHttp
    | PermissionDeniedHttp
    | ObjectNotFoundHttp
    | UserNotFoundHttp
    | AuthorNotFoundHttp
    | BookNotFoundHttp
    | BorrowNotFoundHttp
    | NoAvailableCopiesHttp
    | BookAlreadyReturnedHttp
    | InvalidInputHttp

  function HttpDepth(k: HttpError): nat {
    match k
    case LibraryHttp => 0
    case UserNotFoundHttp | AuthorNotFoundHttp | BookNotFoundHttp | BorrowNotFoundHttp => 2
    case _ => 1
  }

  function HttpParent(k: HttpError): (p: HttpError)
    requires k != LibraryHttp
    ensures HttpDepth(p) < HttpDepth(k)
  {
    match k
    case UserNotFoundHttp | AuthorNotFoundHttp | BookNotFoundHttp | BorrowNotFoundHttp => ObjectNotFoundHttp
    case _ => LibraryHttp
  }

  predicate HttpIsA(k: HttpError, ancestor: HttpError)
    decreases HttpDepth(k)
  {
    k == ancestor || (k != LibraryHttp && HttpIsA(HttpParent(k), ancestor))
  }

  /** The `status_code` a class body assigns itself, if it assigns one. */
  function DeclaredStatus(k: HttpError): Option<int> {
    match k
    case LibraryHttp => Some(500)
    case TokenHttp | TokenExpireHttp | TokenDecodeHttp => Some(401)
    case PermissionDeniedHttp => Some(403)
    case ObjectNotFoundHttp => Some(404)
    case NoAvailableCopiesHttp => Some(404)
    case BookAlreadyReturnedHttp => Some(409)
    case InvalidInputHttp => Some(400)
    case UserNotFoundHttp | AuthorNotFoundHttp | BookNotFoundHttp | BorrowNotFoundHttp => None
  }

  /** Class-attribute lookup: the nearest class on the way to the root that
      assigns `status_code` decides it. */
  function StatusCode(k: HttpError): int
    decreases HttpDepth(k)
  {
    match DeclaredStatus(k)
    case Some(c) => c
    case None => StatusCode(HttpParent(k))
  }

  /** Everything an operation of the service can raise. */
  datatype Failure =
      /** a `LibraryException` subclass */
    | Raised(kind: LibraryError)
      /** a `LibraryHTTPException` subclass */
    | RaisedHttp(httpKind: HttpError)
      /** an `HTTPException` built in place with the given status */
    | PlainHttp(status: int)
      /** `.one()` over a result with no row */
    | NoResultFound
      /** `.one()` over a result with more than one row */
    | MultipleResultsFound
      /** the database refused a write (a foreign key, for one) */
    | IntegrityViolation

  /** The status the web framework answers with when a request ends in `f`:
      HTTP exceptions carry their own status, anything else is a server error. */
  function ResponseStatus(f: Failure): int {
    match f
    case RaisedHttp(k) => StatusCode(k)
    case PlainHttp(c) => c
    case _ => 500
  }

  /** `check_date`: a loan interval is acceptable only when the return date
      strictly follows the borrow date. */
  function CheckDate(borrowDate: int, returnDate: int): (r: Option<Failure>)
    ensures r.Some? <==> !(borrowDate < returnDate)
    ensures r.Some? ==> ResponseStatus(r.value) == 422
  {
    if returnDate <= borrowDate then Some(PlainHttp(422)) else None
  }

  // ---------------------------------------------------------------------
  // Properties of the taxonomy

  /** An `except ObjectNotFoundException` clause catches exactly the generic
      not-found error and its author, book and borrow refinements; it does
      not catch `UserNotFound`. */
  lemma ObjectNotFoundFamily(e: LibraryError)
    ensures IsA(e, ObjectNotFound) <==>
      e == ObjectNotFound || e == AuthorNotFound || e == BookNotFound || e == BorrowNotFound
  {
    match e
    case AuthorNotFound | BookNotFound | BorrowNotFound =>
      assert IsA(Parent(e), ObjectNotFound);
    case _ =>
  }

  /** Every domain error is caught by a handler for the root class. */
  lemma {:induction false} RootCatchesAll(e: LibraryError)
    ensures IsA(e, LibraryBase)
    decreases Depth(e)
  {
    if e != LibraryBase {
      RootCatchesAll(Parent(e));
    }
  }

  /** Every HTTP class below `ObjectNotFoundHTTPException` answers 404, the
      four that assign no status of their own by inheriting it. */
  lemma NotFoundFamilyStatus(k: HttpError)
    requires HttpIsA(k, ObjectNotFoundHttp)
    ensures StatusCode(k) == 404
    ensures k != ObjectNotFoundHttp ==> DeclaredStatus(k).None?
  {
    match k
    case UserNotFoundHttp | AuthorNotFoundHttp | BookNotFoundHttp | BorrowNotFoundHttp =>
    case _ =>
  }

  /** The status of each HTTP class, as assigned or inherited. */
  lemma StatusCodeTable()
    ensures StatusCode(LibraryHttp) == 500
    ensures StatusCode(TokenHttp) == 401 && StatusCode(TokenExpireHttp) == 401
    ensures StatusCode(TokenDecodeHttp) == 401
    ensures StatusCode(PermissionDeniedHttp) == 403
    ensures StatusCode(ObjectNotFoundHttp) == 404
    ensures StatusCode(UserNotFoundHttp) == 404 && StatusCode(AuthorNotFoundHttp) == 404
    ensures StatusCode(BookNotFoundHttp) == 404 && StatusCode(BorrowNotFoundHttp) == 404
    ensures StatusCode(NoAvailableCopiesHttp) == 404
    ensures StatusCode(BookAlreadyReturnedHttp) == 409
    ensures StatusCode(InvalidInputHttp) == 400
  {
  }

  /** Equal borrow and return dates are refused, a later return date passes. */
  lemma CheckDateBoundary(d: int)
    ensures CheckDate(d, d) == Some(PlainHttp(422))
    ensures CheckDate(d, d + 1) == None
  {
  }
}
