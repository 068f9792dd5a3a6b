/**
 * The borrow list's return action on the client path: after the user
 * confirms, mark the record returned with a return time, then mark its book
 * available, stopping at the first error. The record and the book are named
 * by the row the list shows, not re-read from the store, and the action
 * itself does not check whether the record is already returned.
 */
module BorrowList {
  import opened Types
  import opened Tables
  import BorrowController

  /** handleReturn on the displayed row `row` as a transition of the database. */
  function ReturnStep(db: Db, row: BorrowView, confirmed: bool, now: nat, borrowFails: bool, bookFails: bool)
    : (out: Step<ClientOutcome>)
    // declining the prompt, or a failed record update, writes nothing
    ensures !confirmed ==> out == Step(db, Skipped)
    ensures confirmed && borrowFails ==> out == Step(db, Alerted)
    ensures out.result == Done <==> confirmed && !borrowFails && !bookFails
    // a record update that succeeds followed by a failed book update is alerted
    ensures confirmed && !borrowFails && bookFails ==> out.result == Alerted
    // the record's update: returned and stamped now, whatever its state; no row matched, no change
    ensures confirmed && !borrowFails ==>
      && out.db.borrows.Keys == db.borrows.Keys
      && (row.id in db.borrows ==> out.db.borrows[row.id] == db.borrows[row.id].(returned := true, returnedAt := Some(now)))
      && (forall k :: k in db.borrows && k != row.id ==> out.db.borrows[k] == db.borrows[k])
    // the book update touches only the row's book, and only when it ran
    ensures out.db.books.Keys == db.books.Keys
    ensures forall k :: k in db.books && (k != row.borrow.bookId || out.result != Done) ==> out.db.books[k] == db.books[k]
    ensures out.result == Done && row.borrow.bookId in db.books ==>
      out.db.books[row.borrow.bookId] == db.books[row.borrow.bookId].(available := true)
    ensures out.db.users == db.users && out.db.nextBookId == db.nextBookId && out.db.nextBorrowId == db.nextBorrowId
  {
    if !confirmed then Step(db, Skipped)
    else if borrowFails then Step(db, Alerted)
    else
      var db1 := if row.id in db.borrows
        then db.(borrows := db.borrows[row.id := db.borrows[row.id].(returned := true, returnedAt := Some(now))])
        else db;
      if bookFails then Step(db1, Alerted)
      else if row.borrow.bookId in db1.books
        then Step(db1.(books := db1.books[row.borrow.bookId := db1.books[row.borrow.bookId].(available := true)]), Done)
        else Step(db1, Done)
  }

  method HandleReturn(s: Store, row: BorrowView, confirmed: bool, now: nat, borrowFails: bool, bookFails: bool)
    returns (o: ClientOutcome)
    modifies s
    ensures Step(s.State(), o) == ReturnStep(old(s.State()), row, confirmed, now, borrowFails, bookFails)
  {
    if !confirmed {
      return Skipped;
    }
    // update the record by the row's id
    if borrowFails {
      return Alerted;
    }
    if row.id in s.borrows {
      s.borrows := s.borrows[row.id := s.borrows[row.id].(returned := true, returnedAt := Some(now))];
    }
    // update the book by the row's book id
    if bookFails {
      return Alerted;
    }
    if row.borrow.bookId in s.books {
      s.books := s.books[row.borrow.bookId := s.books[row.borrow.bookId].(available := true)];
    }
    o := Done;
  }

  /** The row shows a record of the store as it is. */
  predicate Current(db: Db, row: BorrowView) {
    row.id in db.borrows && row.borrow == db.borrows[row.id]
  }

  /** A confirmed return of a current, open row that meets no error keeps the invariant. */
  lemma ReturnOpenKeepsInv(db: Db, row: BorrowView, now: nat)
    requires Inv(db) && Current(db, row) && !row.borrow.returned
    ensures ReturnStep(db, row, true, now, false, false).result == Done
    ensures Inv(ReturnStep(db, row, true, now, false, false).db)
  {
  }

  /**
   * If the record update succeeds and the book update fails, the record is
   * returned but its book stays unavailable with no open borrow.
   */
  lemma ReturnPartialBreaksInv(db: Db, row: BorrowView, now: nat)
    requires Inv(db) && Current(db, row) && !row.borrow.returned
    ensures ReturnStep(db, row, true, now, false, true).result == Alerted
    ensures ReturnStep(db, row, true, now, false, true).db.borrows[row.id].returned
    ensures var d := ReturnStep(db, row, true, now, false, true).db;
      !d.books[row.borrow.bookId].available && !HasOpenBorrow(d.borrows, row.borrow.bookId)
    ensures !AvailabilityConsistent(ReturnStep(db, row, true, now, false, true).db)
    // only availability breaks: the foreign keys and at most one open borrow still hold
    ensures Valid(ReturnStep(db, row, true, now, false, true).db) && AtMostOneOpen(ReturnStep(db, row, true, now, false, true).db)
  {
  }

  /**
   * Returning a row whose stored record is already returned (the row may
   * still show it open), while its book is out on another open borrow, stamps
   * the record again and marks the book available, which breaks the invariant.
   */
  lemma RepeatedReturnBreaksInv(db: Db, row: BorrowView, now: nat)
    requires Valid(db) && row.id in db.borrows && db.borrows[row.id].returned
    requires row.borrow.bookId == db.borrows[row.id].bookId
    requires HasOpenBorrow(db.borrows, row.borrow.bookId)
    ensures ReturnStep(db, row, true, now, false, false).db.borrows[row.id].returnedAt == Some(now)
    ensures !AvailabilityConsistent(ReturnStep(db, row, true, now, false, false).db)
    // only availability breaks: the foreign keys hold, and a return opens no second borrow
    ensures Valid(ReturnStep(db, row, true, now, false, false).db)
    ensures AtMostOneOpen(db) ==> AtMostOneOpen(ReturnStep(db, row, true, now, false, false).db)
  {
  }

  /**
   * On a current row with no error, the client return writes what the server
   * return writes, and in addition stamps the return time.
   */
  lemma ReturnMatchesServer(db: Db, row: BorrowView, now: nat)
    requires Valid(db) && Current(db, row)
    ensures var server := BorrowController.ReturnBookStep(db, row.id).db;
      ReturnStep(db, row, true, now, false, false).db ==
      server.(borrows := server.borrows[row.id := server.borrows[row.id].(returnedAt := Some(now))])
  {
  }

  /** Whatever the invariant does, the client return keeps what the persistence layer guarantees. */
  lemma ReturnKeepsValid(db: Db, row: BorrowView, confirmed: bool, now: nat, borrowFails: bool, bookFails: bool)
    requires Valid(db)
    ensures Valid(ReturnStep(db, row, confirmed, now, borrowFails, bookFails).db)
  {
  }

  /** Every client return, whatever fails, keeps return flags and return times in step. */
  lemma ReturnKeepsStamps(db: Db, row: BorrowView, confirmed: bool, now: nat, borrowFails: bool, bookFails: bool)
    requires StampedIffReturned(db)
    ensures StampedIffReturned(ReturnStep(db, row, confirmed, now, borrowFails, bookFails).db)
  {
  }
}
