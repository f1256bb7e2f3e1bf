/** The catalogue rules of the book service: creating a book with its author
    links, patching a book, deleting a book, and the translation of
    not-found errors into `BookNotFound`. */
module BookService {
  import opened Results
  import opened Exceptions
  import opened Repository
  import opened Models
  import opened BookCrud

  /** The body of a create request. */
  datatype BookRequest = BookRequest(
    title: string,
    description: string,
    published: Date,
    authorIds: seq<nat>,
    genre: string,
    availableCopies: int)

  /** A patch field: absent from the request, or set to a value. */
  datatype FieldPatch<T> = Unset | Set(value: T)

  datatype BookPatch = BookPatch(
    title: FieldPatch<string>,
    description: FieldPatch<string>,
    published: FieldPatch<Date>,
    genre: FieldPatch<string>,
    availableCopies: FieldPatch<int>)

  function Pick<T>(f: FieldPatch<T>, current: T): T {
    match f
    case Unset => current
    case Set(v) => v
  }

  /** `values(**data.model_dump(exclude_unset=True))`: the set fields
      overwrite, the others keep their stored value. */
  function ApplyPatch(b: Book, p: BookPatch): (r: Book)
    ensures p.title.Unset? ==> r.title == b.title
    ensures p.description.Unset? ==> r.description == b.description
    ensures p.published.Unset? ==> r.published == b.published
    ensures p.genre.Unset? ==> r.genre == b.genre
    ensures p.availableCopies.Unset? ==> r.availableCopies == b.availableCopies
    ensures p.title.Set? ==> r.title == p.title.value
    ensures p.description.Set? ==> r.description == p.description.value
    ensures p.published.Set? ==> r.published == p.published.value
    ensures p.genre.Set? ==> r.genre == p.genre.value
    ensures p.availableCopies.Set? ==> r.availableCopies == p.availableCopies.value
  {
    Book(
      Pick(p.title, b.title),
      Pick(p.description, b.description),
      Pick(p.published, b.published),
      Pick(p.genre, b.genre),
      Pick(p.availableCopies, b.availableCopies))
  }

  /** `any(dict(patch).values())`: an unset field reads as `None`; an empty
      string and the number 0 are falsy; a date is always truthy. */
  function AnyTruthy(p: BookPatch): (b: bool)
    ensures p.published.Set? ==> b
    ensures !b && p.title.Set? ==> |p.title.value| == 0
    ensures !b && p.description.Set? ==> |p.description.value| == 0
    ensures !b && p.genre.Set? ==> |p.genre.value| == 0
    ensures !b && p.availableCopies.Set? ==> p.availableCopies.value == 0
    ensures p.title.Unset? && p.description.Unset? && p.published.Unset? && p.genre.Unset? && p.availableCopies.Unset? ==> !b
    ensures (&& p.published.Unset?
             && (p.title.Set? ==> |p.title.value| == 0)
             && (p.description.Set? ==> |p.description.value| == 0)
             && (p.genre.Set? ==> |p.genre.value| == 0)
             && (p.availableCopies.Set? ==> p.availableCopies.value == 0)) ==> !b
  {
    || (p.title.Set? && p.title.value != "")
    || (p.description.Set? && p.description.value != "")
    || p.published.Set?
    || (p.genre.Set? && p.genre.value != "")
    || (p.availableCopies.Set? && p.availableCopies.value != 0)
  }

  /** `except ObjectNotFoundException: raise BookNotFoundException` — the
      clause also catches the subclasses of `ObjectNotFound`. */
  function TranslateNotFound(e: Failure): (r: Failure)
    ensures e.Raised? && IsA(e.kind, ObjectNotFound) ==> r == Raised(BookNotFound)
    ensures !(e.Raised? && IsA(e.kind, ObjectNotFound)) ==> r == e
  {
    if e.Raised? && IsA(e.kind, ObjectNotFound) then Raised(BookNotFound) else e
  }

  /** `create_book`: refuses a negative copy count before writing anything,
      inserts the book, then one link per distinct requested author. */
  function CreateBook(s: Store, req: BookRequest): (r: Result<(Store, Row<Book>), Failure>)
    ensures req.availableCopies < 0 ==> r == Err(Raised(InvalidInput))
    ensures r.Ok? <==> req.availableCopies >= 0 && forall a :: a in req.authorIds ==> a in s.authors.rows
    ensures r.Err? ==> r.error == Raised(InvalidInput)
    ensures r.Ok? ==>
      var (s', row) := r.value;
      && row.id !in s.books.rows
      && row.data == Book(req.title, req.description, req.published, req.genre, req.availableCopies)
      && s'.books.rows == s.books.rows[row.id := row.data]
      && s'.links == s.links + LinksFor(row.id, Distinct(req.authorIds))
      && s'.authors == s.authors && s'.users == s.users && s'.borrows == s.borrows
  {
    if req.availableCopies < 0 then Err(Raised(InvalidInput))
    else
      var created := Create(s.books, Book(req.title, req.description, req.published, req.genre, req.availableCopies));
      var s1 := s.(books := created.0);
      var ids := Distinct(req.authorIds);
      assert forall a :: a in ids ==> (RefersToExisting(s1, Link(created.1.id, a)) <==> a in s.authors.rows);
      var links :- AddMany(s1, LinksFor(created.1.id, ids));
      Ok((s1.(links := links), created.1))
  }

  /** `edit_book`: writes the row only when the patch has a truthy value,
      always reconciles the author links, and reports the edited book with
      its authors.  A not-found error raised inside the `try` block becomes
      `BookNotFound`; the row update's own `.one()` failure is not one. */
  function EditBook(s: Store, id: nat, p: BookPatch, authorIds: Option<seq<nat>>): (r: Result<(Store, seq<BookWithRels>), Failure>)
    ensures r.Ok? ==> id in s.books.rows
    ensures r.Ok? ==>
      var (s', rels) := r.value;
      && s'.books.rows == (if AnyTruthy(p) then s.books.rows[id := ApplyPatch(s.books.rows[id], p)] else s.books.rows)
      && AuthorsOf(s'.links, id) == Wanted(authorIds)
      && (forall l: Link :: l.bookId != id ==> (l in s'.links <==> l in s.links))
      && rels == [BookWithRels(id, s'.books.rows[id], Wanted(authorIds))]
      && s'.authors == s.authors && s'.users == s.users && s'.borrows == s.borrows
    ensures id in s.books.rows ==>
      (r.Ok? <==> Wanted(authorIds) - AuthorsOf(s.links, id) <= s.authors.rows.Keys)
    ensures id in s.books.rows && r.Err? ==> r.error == Raised(InvalidInput)
    ensures r.Err? ==> r.error != Raised(ObjectNotFound)
    ensures id !in s.books.rows && AnyTruthy(p) ==> r == Err(NoResultFound)
    ensures id !in s.books.rows && !AnyTruthy(p) && Wanted(authorIds) <= AuthorsOf(s.links, id) ==>
      r == Err(Raised(BookNotFound))
    ensures id !in s.books.rows && !AnyTruthy(p) && !(Wanted(authorIds) <= AuthorsOf(s.links, id)) ==>
      r == Err(Raised(InvalidInput))
  {
    OnlyRowById(s.books, id);
    var patched :=
      if AnyTruthy(p) then
        var u :- Update(s.books, ById(id), (b: Book) => ApplyPatch(b, p));
        Ok(u.0)
      else Ok(s.books);
    if patched.Err? then Err(TranslateNotFound(patched.error))
    else
      var s1 := s.(books := patched.value);
      OnlyRowById(s1.books, id);
      var relinked := EditAuthorsIds(s1, authorIds, id);
      if relinked.Err? then Err(TranslateNotFound(relinked.error))
      else
        var s2 := s1.(links := relinked.value);
        OnlyRowById(s2.books, id);
        SelectCount(s2.books, ById(id));
        var found := GetBookWithRels(s2, ById(id));
        if found.Err? then Err(TranslateNotFound(found.error))
        else Ok((s2, found.value))
  }

  /** Selecting by id finds at most the row under that id. */
  lemma OnlyRowById<R>(t: Table<R>, id: nat)
    ensures id in t.rows ==> OnlyMatch(t, ById(id), id)
    ensures id !in t.rows ==> NoMatch(t, ById(id))
    ensures forall k :: OnlyMatch(t, ById(id), k) ==> k == id
  {
  }

  /** The foreign keys of borrows and links that point at a deleted book are
      declared with cascading deletes. */
  function CascadeBook(s: Store, id: nat): (s': Store)
    ensures forall k :: k in s'.borrows.rows <==> k in s.borrows.rows && s.borrows.rows[k].bookId != id
    ensures forall k :: k in s'.borrows.rows ==> s'.borrows.rows[k] == s.borrows.rows[k]
    ensures forall l: Link :: l in s'.links <==> l in s.links && l.bookId != id
  {
    var borrows := map k | k in s.borrows.rows && s.borrows.rows[k].bookId != id :: s.borrows.rows[k];
    s.(borrows := TableRep(borrows, s.borrows.nextId),
       links := set l | l in s.links && l.bookId != id)
  }

  /** `delete_book`: removes the book and returns it.  The repository's
      `.one()` failure is not an `ObjectNotFound`, so a missing id passes
      through the translation untouched. */
  function DeleteBook(s: Store, id: nat): (r: Result<(Store, Row<Book>), Failure>)
    ensures r.Ok? <==> id in s.books.rows
    ensures r.Err? ==> r.error == NoResultFound
    ensures r.Ok? ==>
      var (s', row) := r.value;
      && row == Row(id, s.books.rows[id])
      && s'.books.rows == s.books.rows - {id}
      && s'.authors == s.authors && s'.users == s.users
      && (forall k :: k in s'.borrows.rows <==> k in s.borrows.rows && s.borrows.rows[k].bookId != id)
      && (forall k :: k in s'.borrows.rows ==> s'.borrows.rows[k] == s.borrows.rows[k])
      && (forall l: Link :: l in s'.links <==> l in s.links && l.bookId != id)
  {
    match DeleteById(s.books, id)
    case Err(e) => Err(TranslateNotFound(e))
    case Ok(d) => Ok((CascadeBook(s.(books := d.0), id), d.1))
  }

  // ---------------------------------------------------------------------
  // Properties

  /** Zero copies is an acceptable catalogue entry; the negative check is
      strict. */
  lemma CreateBookZeroCopies(s: Store, req: BookRequest)
    requires req.availableCopies == 0
    requires forall a :: a in req.authorIds ==> a in s.authors.rows
    ensures CreateBook(s, req).Ok?
    ensures CreateBook(s, req).value.0.books.rows[CreateBook(s, req).value.1.id].availableCopies == 0
  {
  }

  /** The new book carries exactly the requested authors, one link each,
      whenever no stale link mentioned its fresh id. */
  lemma CreateBookLinksDistinct(s: Store, req: BookRequest)
    requires CreateBook(s, req).Ok?
    requires forall l :: l in s.links ==> l.bookId in s.books.rows
    ensures var (s', row) := CreateBook(s, req).value;
      && AuthorsOf(s'.links, row.id) == Distinct(req.authorIds)
      && |s'.links - s.links| == |Distinct(req.authorIds)|
  {
    var (s', row) := CreateBook(s, req).value;
    var ids := Distinct(req.authorIds);
    assert forall l :: l in s.links ==> l.bookId != row.id;
    assert s'.links - s.links == LinksFor(row.id, ids);
    LinksForCount(row.id, ids);
    forall a | a in ids ensures a in AuthorsOf(s'.links, row.id) {
      assert Link(row.id, a) in s'.links;
    }
    forall a | a in AuthorsOf(s'.links, row.id) ensures a in ids {
      var l :| l in s'.links && l.bookId == row.id && l.authorId == a;
      assert l in LinksFor(row.id, ids);
    }
  }

  /** A patch whose values are all falsy leaves the book row untouched, even
      when it sets the copy count to 0 or a text field to the empty string. */
  lemma FalsyPatchKeepsRow(s: Store, id: nat, p: BookPatch, authorIds: Option<seq<nat>>)
    requires !AnyTruthy(p)
    requires EditBook(s, id, p, authorIds).Ok?
    ensures EditBook(s, id, p, authorIds).value.0.books == s.books
  {
  }

  /** Patching bypasses the non-negative copy rule of creation. */
  lemma PatchAcceptsNegativeCopies(s: Store, id: nat, c: int)
    requires id in s.books.rows && c < 0
    ensures var p := BookPatch(Unset, Unset, Unset, Unset, Set(c));
      && EditBook(s, id, p, None).Ok?
      && EditBook(s, id, p, None).value.0.books.rows[id].availableCopies == c
  {
    var p := BookPatch(Unset, Unset, Unset, Unset, Set(c));
    OnlyRowById(s.books, id);
    assert AnyTruthy(p);
  }

  /** Applying the same patch twice is the same as applying it once, and an
      empty patch changes nothing. */
  lemma ApplyPatchIdempotent(b: Book, p: BookPatch)
    ensures ApplyPatch(ApplyPatch(b, p), p) == ApplyPatch(b, p)
    ensures ApplyPatch(b, BookPatch(Unset, Unset, Unset, Unset, Unset)) == b
  {
  }

  /** Deleting a book just created undoes the creation, given that links
      only ever point at stored books. */
  lemma CreateThenDeleteBook(s: Store, req: BookRequest)
    requires CreateBook(s, req).Ok?
    requires forall l :: l in s.links ==> l.bookId in s.books.rows
    ensures var (s1, row) := CreateBook(s, req).value;
      && DeleteBook(s1, row.id).Ok?
      && DeleteBook(s1, row.id).value.0.books.rows == s.books.rows
      && DeleteBook(s1, row.id).value.0.links == s.links
      && DeleteBook(s1, row.id).value.1 == row
  {
    var (s1, row) := CreateBook(s, req).value;
    assert forall l :: l in s.links ==> l.bookId != row.id;
    var s2 := DeleteBook(s1, row.id).value.0;
    assert s2.books.rows == s.books.rows;
  }

  /** Deleting a missing book surfaces the repository's generic failure,
      never `BookNotFound`. */
  lemma DeleteMissingBookIsGeneric(s: Store, id: nat)
    requires id !in s.books.rows
    ensures DeleteBook(s, id) == Err(NoResultFound)
    ensures DeleteBook(s, id) != Err(Raised(BookNotFound))
  {
  }
}
