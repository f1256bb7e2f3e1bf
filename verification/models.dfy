/** The records the lending service stores.  Each table is an id-keyed map
    whose keys come from a serial primary key; the fields are those the
    services read and write (the borrow's `is_returned` flag and the user's
    `borrowed_books` counter included). */
module Models {
  import opened Repository

  /** A calendar date as a day number. */
  type Date = int

  datatype Author = Author(name: string, biography: string, birthDate: Date)

  datatype Book = Book(
    title: string,
    description: string,
    published: Date,
    genre: string,
    availableCopies: int)

  datatype User = User(
    name: string,
    email: string,
    hashedPassword: string,
    borrowedBooks: int,
    isUser: bool,
    isAdmin: bool)

  /** `returnDate` is the planned return date while the loan is open and the
      actual one once `isReturned` is set. */
  datatype Borrow = Borrow(
    bookId: nat,
    readerId: nat,
    borrowDate: Date,
    returnDate: Date,
    isReturned: bool)

  /** A row of the book/author association table. */
  datatype Link = Link(bookId: nat, authorId: nat)

  /** The whole database as the services see it through one session. */
  datatype Store = Store(
    authors: Table<Author>,
    books: Table<Book>,
    users: Table<User>,
    borrows: Table<Borrow>,
    links: set<Link>)

  /** The largest number of open loans a reader may hold. */
  const MaxBorrowed: int := 5

  /** The domain invariants on the two denormalised counters. */
  ghost predicate CountersInRange(s: Store) {
    && (forall id :: id in s.books.rows ==> s.books.rows[id].availableCopies >= 0)
    && (forall id :: id in s.users.rows ==> 0 <= s.users.rows[id].borrowedBooks <= MaxBorrowed)
  }
}
