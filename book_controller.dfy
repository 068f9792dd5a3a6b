/**
 * The server's book handlers: list, add, update and delete rows of the books
 * table. Each handler is a specification function on the database value and
 * a method on the store that is proved to perform it.
 */
module BookController {
  import opened Types
  import opened Tables

  /**
   * The fields an update request carries; a missing field (None) leaves the
   * column as it is, as the ORM does with an undefined value.
   */
  datatype BookPatch = BookPatch(title: Option<string>, author: Option<string>, isbn: Option<string>, available: Option<bool>)

  function Apply<T>(field: Option<T>, current: T): (v: T) {
    if field.Some? then field.value else current
  }

  /** getBooks: every book of the table, in ascending id order; nothing changes. */
  function GetBooks(db: Db): (rows: seq<BookRow>)
    ensures forall i :: 0 <= i < |rows| ==> rows[i].0 in db.books && db.books[rows[i].0] == rows[i].1
    ensures forall i, j :: 0 <= i < j < |rows| ==> rows[i].0 < rows[j].0
    ensures Valid(db) ==> forall id :: id in db.books ==> (id, db.books[id]) in rows
  {
    Entries(db.books, db.nextBookId)
  }

  /** addBook: inserts a new available book under a fresh id. */
  function AddBookStep(db: Db, title: string, author: string, isbn: string, now: nat): (out: Step<Response>)
    ensures out.result == Created(db.nextBookId)
    ensures Valid(db) ==> db.nextBookId !in db.books
    ensures out.db.books.Keys == db.books.Keys + {db.nextBookId}
    ensures out.db.books[db.nextBookId] == Book(title, author, isbn, true, now)
    ensures Valid(db) ==> forall id :: id in db.books ==> out.db.books[id] == db.books[id]
    ensures out.db.users == db.users && out.db.borrows == db.borrows && out.db.nextBorrowId == db.nextBorrowId
    ensures out.db.nextBookId == db.nextBookId + 1
  {
    var id := db.nextBookId;
    Step(db.(books := db.books[id := Book(title, author, isbn, true, now)], nextBookId := id + 1), Created(id))
  }

  /** updateBook: writes the given fields of book `id` only; an unknown id fails with 500. */
  function UpdateBookStep(db: Db, id: nat, patch: BookPatch): (out: Step<Response>)
    ensures out.result == Failed <==> id !in db.books
    ensures out.result != Failed ==> out.result == Ok
    ensures out.result == Failed ==> out.db == db
    ensures out.db.books.Keys == db.books.Keys
    ensures forall k :: k in db.books && k != id ==> out.db.books[k] == db.books[k]
    ensures id in db.books ==>
      var b, b' := db.books[id], out.db.books[id];
      && b'.title == Apply(patch.title, b.title)
      && b'.author == Apply(patch.author, b.author)
      && b'.isbn == Apply(patch.isbn, b.isbn)
      && b'.available == Apply(patch.available, b.available)
      && b'.createdAt == b.createdAt
    ensures out.db == db.(books := out.db.books)
  {
    if id !in db.books then Step(db, Failed)
    else
      var b := db.books[id];
      var b' := b.(title := Apply(patch.title, b.title), author := Apply(patch.author, b.author),
                   isbn := Apply(patch.isbn, b.isbn), available := Apply(patch.available, b.available));
      Step(db.(books := db.books[id := b']), Ok)
  }

  /**
   * deleteBook: removes exactly book `id`. It fails with 500 when there is no
   * such book, or when a borrow record still references it (the foreign key
   * refuses the delete).
   */
  function DeleteBookStep(db: Db, id: nat): (out: Step<Response>)
    ensures out.result == Failed <==> (id !in db.books || IsReferenced(db.borrows, id))
    ensures out.result != Failed ==> out.result == Ok
    ensures out.result == Failed ==> out.db == db
    ensures out.result == Ok ==> out.db.books.Keys == db.books.Keys - {id}
    ensures forall k :: k in out.db.books ==> k in db.books && out.db.books[k] == db.books[k]
    ensures out.db == db.(books := out.db.books)
  {
    if id !in db.books || IsReferenced(db.borrows, id) then Step(db, Failed)
    else Step(db.(books := db.books - {id}), Ok)
  }

  method AddBook(s: Store, title: string, author: string, isbn: string, now: nat) returns (r: Response)
    modifies s
    ensures Step(s.State(), r) == AddBookStep(old(s.State()), title, author, isbn, now)
  {
    var id := s.nextBookId;
    s.books := s.books[id := Book(title, author, isbn, true, now)];
    s.nextBookId := id + 1;
    r := Created(id);
  }

  method UpdateBook(s: Store, id: nat, patch: BookPatch) returns (r: Response)
    modifies s
    ensures Step(s.State(), r) == UpdateBookStep(old(s.State()), id, patch)
  {
    if id !in s.books {
      return Failed;
    }
    var b := s.books[id];
    s.books := s.books[id := b.(title := Apply(patch.title, b.title), author := Apply(patch.author, b.author),
                                isbn := Apply(patch.isbn, b.isbn), available := Apply(patch.available, b.available))];
    r := Ok;
  }

  method DeleteBook(s: Store, id: nat) returns (r: Response)
    modifies s
    ensures Step(s.State(), r) == DeleteBookStep(old(s.State()), id)
  {
    if id !in s.books || IsReferenced(s.borrows, id) {
      return Failed;
    }
    s.books := s.books - {id};
    r := Ok;
  }

  // ----- The lifecycle invariant under the book handlers -----

  /** Adding a book keeps the invariant: the new book is available and nothing references it. */
  lemma AddBookKeepsInv(db: Db, title: string, author: string, isbn: string, now: nat)
    requires Inv(db)
    ensures Inv(AddBookStep(db, title, author, isbn, now).db)
  {
  }

  /** Deleting a book keeps the invariant. */
  lemma DeleteBookKeepsInv(db: Db, id: nat)
    requires Inv(db)
    ensures Inv(DeleteBookStep(db, id).db)
  {
  }

  /**
   * An update keeps the invariant exactly when it leaves `available` alone or
   * writes the value the borrow records imply; any other write of
   * `available` breaks it, open borrows or not.
   */
  lemma UpdateBookKeepsInvIff(db: Db, id: nat, patch: BookPatch)
    requires Inv(db) && id in db.books
    ensures Inv(UpdateBookStep(db, id, patch).db) <==>
            (patch.available.None? || patch.available.value == !HasOpenBorrow(db.borrows, id))
  {
  }

  /** In particular, marking a borrowed book available through updateBook breaks the invariant. */
  lemma UpdateBookCanFreeBorrowedBook(db: Db, id: nat, patch: BookPatch)
    requires Inv(db) && id in db.books && HasOpenBorrow(db.borrows, id)
    requires patch.available == Some(true)
    ensures UpdateBookStep(db, id, patch).result == Ok
    ensures !AvailabilityConsistent(UpdateBookStep(db, id, patch).db)
    // only availability breaks: the foreign keys and at most one open borrow still hold
    ensures Valid(UpdateBookStep(db, id, patch).db) && AtMostOneOpen(UpdateBookStep(db, id, patch).db)
  {
  }

  /** Whatever the invariant does, every book handler keeps what the persistence layer guarantees. */
  lemma BookStepsKeepValid(db: Db, title: string, author: string, isbn: string, now: nat, id: nat, patch: BookPatch)
    requires Valid(db)
    ensures Valid(AddBookStep(db, title, author, isbn, now).db)
    ensures Valid(UpdateBookStep(db, id, patch).db)
    ensures Valid(DeleteBookStep(db, id).db)
  {
  }
}
