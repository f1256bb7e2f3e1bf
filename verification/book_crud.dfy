/** The book repository's own queries: books with their authors, bulk
    insertion of book/author links, and the reconciliation of a book's
    author links with a requested list of author ids. */
module BookCrud {
  import opened Results
  import opened Exceptions
  import opened Repository
  import opened Models

  /** A book row together with the ids of the authors linked to it. */
  datatype BookWithRels = BookWithRels(id: nat, book: Book, authorIds: set<nat>)

  /** The authors linked to `bookId`. */
  function AuthorsOf(links: set<Link>, bookId: nat): set<nat> {
    set l | l in links && l.bookId == bookId :: l.authorId
  }

  /** The link rows `{book_id: bookId, author_id: a}` for each `a` in `ids`. */
  function LinksFor(bookId: nat, ids: set<nat>): set<Link> {
    set a | a in ids :: Link(bookId, a)
  }

  /** The association table's foreign keys: both ends must exist. */
  predicate RefersToExisting(s: Store, l: Link) {
    l.bookId in s.books.rows && l.authorId in s.authors.rows
  }

  /** `get_book_with_rels(**filter_by)`: every selected book with its
      authors, in the model's key order; an empty selection raises `ObjectNotFound`. */
  function GetBookWithRels(s: Store, keep: Filter<Book>): (r: Result<seq<BookWithRels>, Failure>)
    ensures r.Err? <==> NoMatch(s.books, keep)
    ensures r.Err? ==> r.error == Raised(ObjectNotFound)
    ensures r.Ok? ==> forall i :: 0 <= i < |r.value| ==>
      var b := r.value[i];
      Matches(s.books, keep, b.id) && b.book == s.books.rows[b.id] && b.authorIds == AuthorsOf(s.links, b.id)
    ensures r.Ok? ==> forall k :: Matches(s.books, keep, k) ==>
      exists i :: 0 <= i < |r.value| && r.value[i].id == k
    ensures r.Ok? ==> |r.value| == |Select(s.books, keep)|
    ensures r.Ok? ==> forall i :: 0 <= i < |r.value| ==> r.value[i].id == Select(s.books, keep)[i].id
  {
    var rows := Select(s.books, keep);
    SelectCount(s.books, keep);
    if |rows| == 0 then Err(Raised(ObjectNotFound))
    else
      var out := seq(|rows|, i requires 0 <= i < |rows| =>
        BookWithRels(rows[i].id, rows[i].data, AuthorsOf(s.links, rows[i].id)));
      assert forall i :: 0 <= i < |rows| ==> out[i].id == rows[i].id;
      Ok(out)
  }

  /** `add_many`: inserts the given links; a link whose book or author does
      not exist makes the store refuse the insert, reported as
      `InvalidInput`. */
  function AddMany(s: Store, data: set<Link>): (r: Result<set<Link>, Failure>)
    ensures r.Ok? <==> forall l :: l in data ==> RefersToExisting(s, l)
    ensures r.Err? ==> r.error == Raised(InvalidInput)
    ensures r.Ok? ==> r.value == s.links + data
  {
    if forall l :: l in data ==> RefersToExisting(s, l) then Ok(s.links + data)
    else Err(Raised(InvalidInput))
  }

  /** Python's `set(ids)`. */
  function Distinct(ids: seq<nat>): set<nat> {
    set a | a in ids
  }

  /** `new_authors_ids or []`, as a set. */
  function Wanted(newIds: Option<seq<nat>>): set<nat> {
    match newIds
    case None => {}
    case Some(ids) => Distinct(ids)
  }

  /** The two differences computed from the current and requested author
      sets: what to delete and what to insert. */
  function Diff(current: set<nat>, wanted: set<nat>): (d: (set<nat>, set<nat>))
    ensures d.0 !! d.1
    ensures d.0 <= current && d.1 !! current
    ensures d.0 !! wanted && d.1 <= wanted
    ensures (current - d.0) + d.1 == wanted
  {
    (current - wanted, wanted - current)
  }

  /** `edit_authors_ids`: makes the links of `bookId` exactly the requested
      author set.  Links to delete go first; links to insert follow, and the
      insert fails (as `InvalidInput`) on a missing book or author.  Neither
      statement runs when its difference is empty. */
  function EditAuthorsIds(s: Store, newIds: Option<seq<nat>>, bookId: nat): (r: Result<set<Link>, Failure>)
    ensures r.Ok? <==>
      var toInsert := Wanted(newIds) - AuthorsOf(s.links, bookId);
      toInsert == {} || (bookId in s.books.rows && toInsert <= s.authors.rows.Keys)
    ensures r.Err? ==> r.error == Raised(InvalidInput)
    ensures r.Ok? ==> AuthorsOf(r.value, bookId) == Wanted(newIds)
    ensures r.Ok? ==> forall l: Link :: l.bookId != bookId ==> (l in r.value <==> l in s.links)
    ensures r.Ok? ==> forall a :: a in AuthorsOf(s.links, bookId) && a in Wanted(newIds) ==> Link(bookId, a) in r.value
  {
    var current := AuthorsOf(s.links, bookId);
    var (toDelete, toInsert) := Diff(current, Wanted(newIds));
    var kept := s.links - LinksFor(bookId, toDelete);
    if toInsert != {} && !(bookId in s.books.rows && toInsert <= s.authors.rows.Keys) then
      Err(Raised(InvalidInput))
    else
      var out := kept + LinksFor(bookId, toInsert);
      assert AuthorsOf(out, bookId) == Wanted(newIds) by {
        forall a | a in Wanted(newIds) ensures a in AuthorsOf(out, bookId) {
          if a in current {
            assert Link(bookId, a) in s.links;
            assert Link(bookId, a) in kept;
          } else {
            assert Link(bookId, a) in LinksFor(bookId, toInsert);
          }
        }
      }
      Ok(out)
  }

  // ---------------------------------------------------------------------
  // Properties

  /** A link is stored exactly when its author is among its book's authors. */
  lemma LinkInAuthorsOf(links: set<Link>, l: Link)
    ensures l in links <==> l.authorId in AuthorsOf(links, l.bookId)
  {
    if l.authorId in AuthorsOf(links, l.bookId) {
      var m :| m in links && m.bookId == l.bookId && m.authorId == l.authorId;
      assert m == l;
    }
  }

  /** One link per distinct requested author. */
  lemma {:induction false} LinksForCount(bookId: nat, ids: set<nat>)
    ensures |LinksFor(bookId, ids)| == |ids|
    decreases |ids|
  {
    if ids != {} {
      var a :| a in ids;
      LinksForCount(bookId, ids - {a});
      assert LinksFor(bookId, ids) == LinksFor(bookId, ids - {a}) + {Link(bookId, a)};
    }
  }

  /** Reconciling twice with the same request changes nothing the second
      time. */
  lemma EditAuthorsIdsIdempotent(s: Store, newIds: Option<seq<nat>>, bookId: nat)
    requires EditAuthorsIds(s, newIds, bookId).Ok?
    ensures EditAuthorsIds(s.(links := EditAuthorsIds(s, newIds, bookId).value), newIds, bookId)
         == EditAuthorsIds(s, newIds, bookId)
  {
    var links' := EditAuthorsIds(s, newIds, bookId).value;
    var s' := s.(links := links');
    assert AuthorsOf(links', bookId) == Wanted(newIds);
    assert LinksFor(bookId, {}) == {};
    assert EditAuthorsIds(s', newIds, bookId).Ok?;
    var again := EditAuthorsIds(s', newIds, bookId).value;
    forall l: Link ensures l in again <==> l in links' {
      if l.bookId == bookId {
        LinkInAuthorsOf(again, l);
        LinkInAuthorsOf(links', l);
      }
    }
    assert again == links';
  }

  /** A missing author list removes every link of the book and no other. */
  lemma EditAuthorsIdsNoneClears(s: Store, bookId: nat)
    ensures EditAuthorsIds(s, None, bookId).Ok?
    ensures AuthorsOf(EditAuthorsIds(s, None, bookId).value, bookId) == {}
    ensures forall l: Link :: l.bookId != bookId ==> (l in EditAuthorsIds(s, None, bookId).value <==> l in s.links)
  {
  }

  /** An unfiltered listing of an empty book table raises `ObjectNotFound`. */
  lemma EmptyTableNotFound(s: Store)
    requires s.books.rows == map[]
    ensures GetBookWithRels(s, Everything()) == Err(Raised(ObjectNotFound))
  {
  }
}
