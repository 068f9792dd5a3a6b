/**
 * The persistence layer: three tables keyed by id, and the autoincrement
 * counters that hand out fresh ids. The server reaches these tables through
 * its ORM and the client through the hosted backend; both paths are modelled
 * over the same tables.
 */
module Tables {
  import opened Types
  import opened Ordering

  /** The whole database as a value. */
  datatype Db = Db(
    users: map<nat, User>,
    books: map<nat, Book>,
    borrows: map<nat, Borrow>,
    nextBookId: nat,
    nextBorrowId: nat)

  /** The HTTP outcome of a server handler: 200, 201 with the new id, 400, or 500. */
  datatype Response = Ok | Created(id: nat) | NotAvailable | Failed

  /** What a client handler ends in: it returned early, it alerted a failure, or it finished. */
  datatype ClientOutcome = Skipped | Alerted | Done

  /** The database after an operation, together with what the operation reports. */
  datatype Step<R> = Step(db: Db, result: R)

  /**
   * What the persistence layer itself guarantees: every id lies below its
   * counter, and every borrow record's foreign keys name an existing user and
   * an existing book.
   */
  ghost predicate Valid(db: Db) {
    && (forall id :: id in db.books ==> id < db.nextBookId)
    && (forall id :: id in db.borrows ==> id < db.nextBorrowId)
    && (forall id :: id in db.borrows ==> db.borrows[id].userId in db.users && db.borrows[id].bookId in db.books)
  }

  /** Some record that has not been returned references `bookId`. */
  predicate HasOpenBorrow(borrows: map<nat, Borrow>, bookId: nat) {
    exists id :: id in borrows && borrows[id].bookId == bookId && !borrows[id].returned
  }

  /** Some record, returned or not, references `bookId` (the foreign key that blocks a delete). */
  predicate IsReferenced(borrows: map<nat, Borrow>, bookId: nat) {
    exists id :: id in borrows && borrows[id].bookId == bookId
  }

  /** The central rule: a book is available if and only if no open borrow references it. */
  ghost predicate AvailabilityConsistent(db: Db) {
    forall b :: b in db.books ==> (db.books[b].available <==> !HasOpenBorrow(db.borrows, b))
  }

  /** A book has at most one open borrow at any time. */
  ghost predicate AtMostOneOpen(db: Db) {
    forall r1, r2 ::
      (r1 in db.borrows && r2 in db.borrows && !db.borrows[r1].returned && !db.borrows[r2].returned &&
       db.borrows[r1].bookId == db.borrows[r2].bookId) ==> r1 == r2
  }

  /** The lifecycle invariant the borrow and return operations are meant to keep. */
  ghost predicate Inv(db: Db) {
    Valid(db) && AvailabilityConsistent(db) && AtMostOneOpen(db)
  }

  /** A record carries a return timestamp exactly when it is marked returned. */
  ghost predicate StampedIffReturned(db: Db) {
    forall id :: id in db.borrows ==> (db.borrows[id].returned <==> db.borrows[id].returnedAt.Some?)
  }

  /**
   * The entries of `m` whose id is below `n`, in ascending id order. With
   * `n` the table's counter this is the whole table.
   */
  function Entries<V>(m: map<nat, V>, n: nat): (r: seq<(nat, V)>)
    ensures forall i :: 0 <= i < |r| ==> r[i].0 in m && r[i].0 < n && r[i].1 == m[r[i].0]
    ensures forall i, j :: 0 <= i < j < |r| ==> r[i].0 < r[j].0
    ensures forall k :: k in m && k < n ==> (k, m[k]) in r
  {
    if n == 0 then []
    else Entries(m, n - 1) + (if n - 1 in m then [(n - 1, m[n - 1])] else [])
  }

  /** A table's entries are listed once each. */
  lemma EntriesDistinct<V>(m: map<nat, V>, n: nat)
    ensures Distinct(Entries(m, n))
  {
  }

  /** The mutable store: the three tables and the two id counters. */
  class Store {
    var users: map<nat, User>
    var books: map<nat, Book>
    var borrows: map<nat, Borrow>
    var nextBookId: nat
    var nextBorrowId: nat

    function State(): (db: Db)
      reads this
    {
      Db(users, books, borrows, nextBookId, nextBorrowId)
    }

    /** A store with the given users, no books and no borrows. */
    constructor (users: map<nat, User>)
      ensures State() == Db(users, map[], map[], 0, 0)
      ensures Inv(State()) && StampedIffReturned(State())
    {
      this.users := users;
      books := map[];
      borrows := map[];
      nextBookId := 0;
      nextBorrowId := 0;
    }
  }
}
