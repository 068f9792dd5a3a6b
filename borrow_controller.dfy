/**
 * The server's borrow handlers. borrowBook looks the book up, refuses an
 * unavailable one, creates the borrow record and then marks the book
 * unavailable. returnBook marks the record returned and then marks its book
 * available; it neither checks that the record was open nor stamps a return
 * time. getBorrows lists every record joined with its user and book.
 */
module BorrowController {
  import opened Types
  import opened Tables

  /** borrowBook as a transition of the database. */
  function BorrowBookStep(db: Db, userId: nat, bookId: nat, now: nat): (out: Step<Response>)
    // a missing or unavailable book is refused with 400 before any write
    ensures out.result == NotAvailable <==> (bookId !in db.books || !db.books[bookId].available)
    // creating the record fails (500) only when its user does not exist
    ensures out.result == Failed <==> (bookId in db.books && db.books[bookId].available && userId !in db.users)
    ensures out.result == NotAvailable || out.result == Failed || out.result == Created(db.nextBorrowId)
    ensures !out.result.Created? ==> out.db == db
    ensures out.result.Created? ==>
      var id := out.result.id;
      // exactly one new record, for this user and this book, open and unstamped
      && (Valid(db) ==> id !in db.borrows)
      && out.db.borrows.Keys == db.borrows.Keys + {id}
      && out.db.borrows[id] == Borrow(userId, bookId, now, false, None)
      && (Valid(db) ==> forall k :: k in db.borrows ==> out.db.borrows[k] == db.borrows[k])
      // the book becomes unavailable and no other book changes
      && out.db.books.Keys == db.books.Keys
      && out.db.books[bookId] == db.books[bookId].(available := false)
      && (forall k :: k in db.books && k != bookId ==> out.db.books[k] == db.books[k])
      && out.db.users == db.users && out.db.nextBookId == db.nextBookId
      && out.db.nextBorrowId == id + 1
  {
    if bookId !in db.books || !db.books[bookId].available then Step(db, NotAvailable)
    else if userId !in db.users then Step(db, Failed)
    else
      var id := db.nextBorrowId;
      var db1 := db.(borrows := db.borrows[id := Borrow(userId, bookId, now, false, None)], nextBorrowId := id + 1);
      Step(db1.(books := db1.books[bookId := db1.books[bookId].(available := false)]), Created(id))
  }

  /** returnBook as a transition of the database. */
  function ReturnBookStep(db: Db, borrowId: nat): (out: Step<Response>)
    // an unknown record fails with 500 and nothing is written
    ensures borrowId !in db.borrows ==> out == Step(db, Failed)
    ensures Valid(db) ==> (out.result == Failed <==> borrowId !in db.borrows)
    // the record is written and then the book update throws: 500
    ensures borrowId in db.borrows && db.borrows[borrowId].bookId !in db.books ==> out.result == Failed
    ensures out.result != Failed ==> out.result == Ok
    ensures borrowId in db.borrows ==>
      var r := db.borrows[borrowId];
      // the record is marked returned, whatever it was before; its return time is left as it was
      && out.db.borrows == db.borrows[borrowId := r.(returned := true)]
      && out.db.books.Keys == db.books.Keys
      && (Valid(db) ==> out.db.books[r.bookId] == db.books[r.bookId].(available := true))
      && (forall k :: k in db.books && k != r.bookId ==> out.db.books[k] == db.books[k])
    ensures out.db.users == db.users && out.db.nextBookId == db.nextBookId && out.db.nextBorrowId == db.nextBorrowId
  {
    if borrowId !in db.borrows then Step(db, Failed)
    else
      var r := db.borrows[borrowId];
      var db1 := db.(borrows := db.borrows[borrowId := r.(returned := true)]);
      if r.bookId !in db1.books then Step(db1, Failed)
      else Step(db1.(books := db1.books[r.bookId := db1.books[r.bookId].(available := true)]), Ok)
  }

  function Join(db: Db, e: (nat, Borrow)): (v: BorrowView) {
    BorrowView(e.0, e.1, Lookup(db.users, e.1.userId), Lookup(db.books, e.1.bookId))
  }

  /** Joins each entry, in order. */
  function JoinAll(db: Db, entries: seq<(nat, Borrow)>): (rows: seq<BorrowView>)
    ensures |rows| == |entries| && forall i :: 0 <= i < |entries| ==> rows[i] == Join(db, entries[i])
  {
    seq(|entries|, i requires 0 <= i < |entries| => Join(db, entries[i]))
  }

  /** getBorrows: every borrow record, unfiltered, in ascending id order, with its user and book joined. */
  function GetBorrows(db: Db): (rows: seq<BorrowView>)
    ensures forall i :: 0 <= i < |rows| ==>
      && rows[i].id in db.borrows && rows[i].borrow == db.borrows[rows[i].id]
      && rows[i].user == Lookup(db.users, rows[i].borrow.userId)
      && rows[i].book == Lookup(db.books, rows[i].borrow.bookId)
    ensures forall i, j :: 0 <= i < j < |rows| ==> rows[i].id < rows[j].id
    ensures Valid(db) ==> forall id :: id in db.borrows ==> Join(db, (id, db.borrows[id])) in rows
    ensures Valid(db) ==> forall i :: 0 <= i < |rows| ==> rows[i].user.Some? && rows[i].book.Some?
  {
    JoinAll(db, Entries(db.borrows, db.nextBorrowId))
  }

  method BorrowBook(s: Store, userId: nat, bookId: nat, now: nat) returns (r: Response)
    modifies s
    ensures Step(s.State(), r) == BorrowBookStep(old(s.State()), userId, bookId, now)
  {
    // look the book up and refuse a missing or unavailable one
    if bookId !in s.books || !s.books[bookId].available {
      return NotAvailable;
    }
    // create the borrow record; the user foreign key must hold
    if userId !in s.users {
      return Failed;
    }
    var id := s.nextBorrowId;
    s.borrows := s.borrows[id := Borrow(userId, bookId, now, false, None)];
    s.nextBorrowId := id + 1;
    // mark the book unavailable
    s.books := s.books[bookId := s.books[bookId].(available := false)];
    r := Created(id);
  }

  method ReturnBook(s: Store, borrowId: nat) returns (r: Response)
    modifies s
    ensures Step(s.State(), r) == ReturnBookStep(old(s.State()), borrowId)
  {
    // update the record by id; an unknown id throws
    if borrowId !in s.borrows {
      return Failed;
    }
    var record := s.borrows[borrowId].(returned := true);
    s.borrows := s.borrows[borrowId := record];
    // update the book the fetched record names; an unknown id throws
    if record.bookId !in s.books {
      return Failed;
    }
    s.books := s.books[record.bookId := s.books[record.bookId].(available := true)];
    r := Ok;
  }

  // ----- The lifecycle invariant under the server path -----

  /** A successful server borrow keeps the invariant. */
  lemma BorrowBookKeepsInv(db: Db, userId: nat, bookId: nat, now: nat)
    requires Inv(db)
    ensures Inv(BorrowBookStep(db, userId, bookId, now).db)
  {
  }

  /** Whatever the invariant does, the server borrow and return keep what the persistence layer guarantees. */
  lemma BorrowStepsKeepValid(db: Db, userId: nat, bookId: nat, now: nat, borrowId: nat)
    requires Valid(db)
    ensures Valid(BorrowBookStep(db, userId, bookId, now).db)
    ensures Valid(ReturnBookStep(db, borrowId).db)
  {
  }

  /** Run one after the other, a second borrow of a book that was just borrowed is refused and writes nothing. */
  lemma SecondBorrowRefused(db: Db, u1: nat, u2: nat, bookId: nat, t1: nat, t2: nat)
    requires BorrowBookStep(db, u1, bookId, t1).result.Created?
    ensures var db1 := BorrowBookStep(db, u1, bookId, t1).db;
      BorrowBookStep(db1, u2, bookId, t2) == Step(db1, NotAvailable)
  {
  }

  /** Returning an open record keeps the invariant. */
  lemma ReturnOpenKeepsInv(db: Db, borrowId: nat)
    requires Inv(db) && borrowId in db.borrows && !db.borrows[borrowId].returned
    ensures ReturnBookStep(db, borrowId).result == Ok
    ensures Inv(ReturnBookStep(db, borrowId).db)
  {
    var db' := ReturnBookStep(db, borrowId).db;
    var bookId := db.borrows[borrowId].bookId;
    forall b | b in db'.books
      ensures db'.books[b].available <==> !HasOpenBorrow(db'.borrows, b)
    {
      if HasOpenBorrow(db'.borrows, b) {
        var k :| k in db'.borrows && db'.borrows[k].bookId == b && !db'.borrows[k].returned;
        assert k != borrowId && db'.borrows[k] == db.borrows[k];
        assert b != bookId;
      }
      if b != bookId {
        assert db'.books[b] == db.books[b];
        if HasOpenBorrow(db.borrows, b) {
          var k :| k in db.borrows && db.borrows[k].bookId == b && !db.borrows[k].returned;
          assert k != borrowId && db'.borrows[k] == db.borrows[k];
        }
      }
    }
  }

  /**
   * Returning a record that was already returned, while its book is out on
   * another open borrow, marks the book available and breaks the invariant.
   */
  lemma RepeatedReturnBreaksInv(db: Db, borrowId: nat)
    requires Valid(db) && borrowId in db.borrows && db.borrows[borrowId].returned
    requires HasOpenBorrow(db.borrows, db.borrows[borrowId].bookId)
    ensures ReturnBookStep(db, borrowId).result == Ok
    ensures !AvailabilityConsistent(ReturnBookStep(db, borrowId).db)
    // only availability breaks: the foreign keys hold, and a return opens no second borrow
    ensures Valid(ReturnBookStep(db, borrowId).db)
    ensures AtMostOneOpen(db) ==> AtMostOneOpen(ReturnBookStep(db, borrowId).db)
  {
    var db' := ReturnBookStep(db, borrowId).db;
    var bookId := db.borrows[borrowId].bookId;
    var k :| k in db.borrows && db.borrows[k].bookId == bookId && !db.borrows[k].returned;
    assert k != borrowId && db'.borrows[k] == db.borrows[k];
    assert HasOpenBorrow(db'.borrows, bookId);
    assert db'.books[bookId].available;
  }

  /**
   * The sequence that reaches it from any consistent state: u1 borrows the
   * book, returns it, u2 borrows it, and u1's record is returned again.
   */
  lemma ReturnAfterReborrowBreaksInv(db: Db, u1: nat, u2: nat, bookId: nat, t1: nat, t2: nat)
    requires Inv(db) && bookId in db.books && db.books[bookId].available
    requires u1 in db.users && u2 in db.users
    ensures var s1 := BorrowBookStep(db, u1, bookId, t1);
      && s1.result.Created?
      && var s2 := ReturnBookStep(s1.db, s1.result.id);
      && s2.result == Ok
      && var s3 := BorrowBookStep(s2.db, u2, bookId, t2);
      && s3.result.Created?
      && var s4 := ReturnBookStep(s3.db, s1.result.id);
      && s4.result == Ok
      && !AvailabilityConsistent(s4.db)
      && Valid(s4.db) && AtMostOneOpen(s4.db)
  {
    var s1 := BorrowBookStep(db, u1, bookId, t1);
    var r1 := s1.result.id;
    BorrowBookKeepsInv(db, u1, bookId, t1);
    var s2 := ReturnBookStep(s1.db, r1);
    ReturnOpenKeepsInv(s1.db, r1);
    assert s2.db.books[bookId].available;
    var s3 := BorrowBookStep(s2.db, u2, bookId, t2);
    BorrowBookKeepsInv(s2.db, u2, bookId, t2);
    var r2 := s3.result.id;
    assert s3.db.borrows[r2].bookId == bookId && !s3.db.borrows[r2].returned;
    assert r1 in s3.db.borrows && s3.db.borrows[r1].returned;
    RepeatedReturnBreaksInv(s3.db, r1);
  }

  /**
   * Borrow then return restores the book: it is available again, the record
   * is returned, and the invariant holds. The record never gets a return
   * timestamp, so the server path leaves a returned record unstamped.
   */
  lemma BorrowThenReturn(db: Db, userId: nat, bookId: nat, t: nat)
    requires Inv(db) && bookId in db.books && db.books[bookId].available && userId in db.users
    ensures var s1 := BorrowBookStep(db, userId, bookId, t);
      && s1.result.Created?
      && var s2 := ReturnBookStep(s1.db, s1.result.id);
      && s2.result == Ok
      && s2.db.books[bookId].available
      && s2.db.borrows[s1.result.id] == Borrow(userId, bookId, t, true, None)
      && Inv(s2.db)
      && !StampedIffReturned(s2.db)
  {
    var s1 := BorrowBookStep(db, userId, bookId, t);
    BorrowBookKeepsInv(db, userId, bookId, t);
    ReturnOpenKeepsInv(s1.db, s1.result.id);
  }
}
