/**
 * The student dashboard's data operations on the client path: the book list
 * ordered by title, the signed-in user's borrows newest first, and the
 * two-write borrow (insert the record, then mark the book unavailable) that
 * checks no availability and stops at the first error.
 */
module StudentDashboard {
  import opened Types
  import opened Tables
  import opened Ordering
  import BorrowController

  /** Title order of book rows. */
  predicate TitleOrder(a: BookRow, b: BookRow) {
    LexLeq(a.1.title, b.1.title)
  }

  /** Newest-first order of borrow rows. */
  predicate LaterFirst(a: BorrowView, b: BorrowView) {
    a.borrow.borrowedAt >= b.borrow.borrowedAt
  }

  /** loadBooks: all books ordered by title ascending. */
  function LoadBooks(db: Db): (rows: seq<BookRow>)
    ensures multiset(rows) == multiset(Entries(db.books, db.nextBookId))
  {
    SortBy(Entries(db.books, db.nextBookId), TitleOrder)
  }

  /** A borrow record as the student's query returns it: the book joined, the user not. */
  function MyView(db: Db, e: (nat, Borrow)): (v: BorrowView) {
    BorrowView(e.0, e.1, None, Lookup(db.books, e.1.bookId))
  }

  /** The entries that belong to user `u`, each joined with its book, in the order given. */
  function OwnViews(db: Db, entries: seq<(nat, Borrow)>, u: nat): (rows: seq<BorrowView>)
    ensures forall v :: v in rows ==> (v.id, v.borrow) in entries && v.borrow.userId == u && v == MyView(db, (v.id, v.borrow))
    ensures forall e :: e in entries && e.1.userId == u ==> MyView(db, e) in rows
    ensures Distinct(entries) ==> Distinct(rows)
  {
    if entries == [] then []
    else
      var rest := OwnViews(db, entries[1..], u);
      assert forall e :: e in entries ==> e == entries[0] || e in entries[1..];
      if entries[0].1.userId == u then [MyView(db, entries[0])] + rest else rest
  }

  /** loadMyBorrows: nothing without a signed-in user; otherwise that user's borrows, newest first. */
  function LoadMyBorrows(user: Option<nat>, db: Db): (rows: Option<seq<BorrowView>>)
    ensures rows.None? <==> user.None?
  {
    match user
    case None => None
    case Some(u) => Some(SortBy(OwnViews(db, Entries(db.borrows, db.nextBorrowId), u), LaterFirst))
  }

  /** handleBorrowBook as a transition of the database. */
  function BorrowBookStep(db: Db, user: Option<nat>, bookId: nat, now: nat, insertFails: bool, updateFails: bool)
    : (out: Step<ClientOutcome>)
    // with no signed-in user nothing is written
    ensures user.None? ==> out == Step(db, Skipped)
    // a failed insert (a store error or a broken foreign key) writes nothing
    ensures user.Some? && (insertFails || user.value !in db.users || bookId !in db.books) ==> out == Step(db, Alerted)
    ensures out.result == Done <==>
      (user.Some? && !insertFails && user.value in db.users && bookId in db.books && !updateFails)
    // an insert that succeeds followed by a failed book update is alerted
    ensures user.Some? && !insertFails && user.value in db.users && bookId in db.books && updateFails ==>
      out.result == Alerted
    // once the insert succeeds there is exactly one new open record for the user and the book
    ensures user.Some? && !insertFails && user.value in db.users && bookId in db.books ==>
      var id := db.nextBorrowId;
      && (Valid(db) ==> id !in db.borrows)
      && out.db.borrows.Keys == db.borrows.Keys + {id}
      && out.db.borrows[id] == Borrow(user.value, bookId, now, false, None)
      && (Valid(db) ==> forall k :: k in db.borrows ==> out.db.borrows[k] == db.borrows[k])
      && out.db.nextBorrowId == id + 1
      && out.db.books.Keys == db.books.Keys
      && (forall k :: k in db.books && k != bookId ==> out.db.books[k] == db.books[k])
    // a failed book update leaves every book as it was; success marks this book unavailable
    ensures out.result == Alerted ==> out.db.books == db.books
    ensures out.result == Done ==> out.db.books[bookId] == db.books[bookId].(available := false)
    ensures out.db.users == db.users && out.db.nextBookId == db.nextBookId
  {
    if user.None? then Step(db, Skipped)
    else if insertFails || user.value !in db.users || bookId !in db.books then Step(db, Alerted)
    else
      var id := db.nextBorrowId;
      var db1 := db.(borrows := db.borrows[id := Borrow(user.value, bookId, now, false, None)], nextBorrowId := id + 1);
      if updateFails then Step(db1, Alerted)
      else Step(db1.(books := db1.books[bookId := db1.books[bookId].(available := false)]), Done)
  }

  method HandleBorrowBook(s: Store, user: Option<nat>, bookId: nat, now: nat, insertFails: bool, updateFails: bool)
    returns (o: ClientOutcome)
    modifies s
    ensures Step(s.State(), o) == BorrowBookStep(old(s.State()), user, bookId, now, insertFails, updateFails)
  {
    if user.None? {
      return Skipped;
    }
    // insert the record; the store may refuse it, and so do its foreign keys
    if insertFails || user.value !in s.users || bookId !in s.books {
      return Alerted;
    }
    var id := s.nextBorrowId;
    s.borrows := s.borrows[id := Borrow(user.value, bookId, now, false, None)];
    s.nextBorrowId := id + 1;
    // mark the book unavailable; an error here leaves the inserted record in place
    if updateFails {
      return Alerted;
    }
    s.books := s.books[bookId := s.books[bookId].(available := false)];
    o := Done;
  }

  // ----- The reads -----

  /** loadBooks lists the books by ascending title. */
  lemma LoadBooksOrdered(db: Db)
    ensures forall i, j :: 0 <= i < j < |LoadBooks(db)| ==> LexLeq(LoadBooks(db)[i].1.title, LoadBooks(db)[j].1.title)
  {
    forall x: BookRow, y: BookRow
      ensures TitleOrder(x, y) || TitleOrder(y, x)
    {
      LexLeqTotal(x.1.title, y.1.title);
    }
    forall x: BookRow, y: BookRow, z: BookRow | TitleOrder(x, y) && TitleOrder(y, z)
      ensures TitleOrder(x, z)
    {
      LexLeqTransitive(x.1.title, y.1.title, z.1.title);
    }
    SortBySorted(Entries(db.books, db.nextBookId), TitleOrder);
  }

  /** loadBooks lists every book of the table, each once, and nothing else. */
  lemma LoadBooksExact(db: Db)
    requires Valid(db)
    ensures forall row :: row in LoadBooks(db) <==> row.0 in db.books && row.1 == db.books[row.0]
    ensures forall i, j :: 0 <= i < j < |LoadBooks(db)| ==> LoadBooks(db)[i].0 != LoadBooks(db)[j].0
  {
    var e := Entries(db.books, db.nextBookId);
    var r := LoadBooks(db);
    forall row
      ensures row in r <==> row.0 in db.books && row.1 == db.books[row.0]
    {
      SortByMembers(e, TitleOrder, row);
    }
    EntriesDistinct(db.books, db.nextBookId);
    SortByDistinct(e, TitleOrder);
  }

  /** loadMyBorrows lists the user's borrows, newest first. */
  lemma LoadMyBorrowsOrdered(db: Db, u: nat)
    ensures var rows := LoadMyBorrows(Some(u), db).value;
      forall i, j :: 0 <= i < j < |rows| ==> rows[i].borrow.borrowedAt >= rows[j].borrow.borrowedAt
  {
    SortBySorted(OwnViews(db, Entries(db.borrows, db.nextBorrowId), u), LaterFirst);
  }

  /** loadMyBorrows lists only records whose user is `u`, each joined with its book. */
  lemma LoadMyBorrowsOnlyOwn(db: Db, u: nat, v: BorrowView)
    requires Valid(db) && v in LoadMyBorrows(Some(u), db).value
    ensures v.id in db.borrows && v.borrow == db.borrows[v.id] && v.borrow.userId == u
    ensures v.user == None && v.book == Some(db.books[v.borrow.bookId])
  {
    SortByMembers(OwnViews(db, Entries(db.borrows, db.nextBorrowId), u), LaterFirst, v);
  }

  /** loadMyBorrows lists every record whose user is `u`. */
  lemma LoadMyBorrowsComplete(db: Db, u: nat, id: nat)
    requires Valid(db) && id in db.borrows && db.borrows[id].userId == u
    ensures MyView(db, (id, db.borrows[id])) in LoadMyBorrows(Some(u), db).value
  {
    SortByMembers(OwnViews(db, Entries(db.borrows, db.nextBorrowId), u), LaterFirst, MyView(db, (id, db.borrows[id])));
  }

  /** loadMyBorrows lists no record twice. */
  lemma LoadMyBorrowsNoRepeat(db: Db, u: nat)
    ensures var rows := LoadMyBorrows(Some(u), db).value;
      forall i, j :: 0 <= i < j < |rows| ==> rows[i].id != rows[j].id
  {
    var own := OwnViews(db, Entries(db.borrows, db.nextBorrowId), u);
    var rows := LoadMyBorrows(Some(u), db).value;
    EntriesDistinct(db.borrows, db.nextBorrowId);
    SortByDistinct(own, LaterFirst);
    forall i, j | 0 <= i < j < |rows|
      ensures rows[i].id != rows[j].id
    {
      SortByMembers(own, LaterFirst, rows[i]);
      SortByMembers(own, LaterFirst, rows[j]);
    }
  }

  // ----- The lifecycle invariant under the client borrow -----

  /** On an available book with no error, the client borrow writes what the server borrow writes. */
  lemma ClientBorrowMatchesServer(db: Db, u: nat, bookId: nat, now: nat)
    requires bookId in db.books && db.books[bookId].available && u in db.users
    ensures BorrowBookStep(db, Some(u), bookId, now, false, false).db ==
            BorrowController.BorrowBookStep(db, u, bookId, now).db
  {
  }

  /** So on an available book a complete client borrow keeps the invariant. */
  lemma ClientBorrowKeepsInvWhenAvailable(db: Db, u: nat, bookId: nat, now: nat)
    requires Inv(db) && bookId in db.books && db.books[bookId].available
    ensures Inv(BorrowBookStep(db, Some(u), bookId, now, false, false).db)
  {
  }

  /**
   * The client does not check availability: borrowing a book that is out
   * succeeds and leaves two open borrows of it.
   */
  lemma ClientBorrowOfBorrowedBook(db: Db, u: nat, bookId: nat, now: nat)
    requires Inv(db) && bookId in db.books && !db.books[bookId].available && u in db.users
    ensures BorrowBookStep(db, Some(u), bookId, now, false, false).result == Done
    ensures var after := BorrowBookStep(db, Some(u), bookId, now, false, false).db;
      exists r1, r2 :: r1 in after.borrows && r2 in after.borrows && r1 != r2 &&
        after.borrows[r1].bookId == bookId && !after.borrows[r1].returned &&
        after.borrows[r2].bookId == bookId && !after.borrows[r2].returned
    ensures !AtMostOneOpen(BorrowBookStep(db, Some(u), bookId, now, false, false).db)
  {
    var after := BorrowBookStep(db, Some(u), bookId, now, false, false).db;
    var id := db.nextBorrowId;
    var k :| k in db.borrows && db.borrows[k].bookId == bookId && !db.borrows[k].returned;
    assert after.borrows[k] == db.borrows[k] && k != id;
    assert after.borrows[id] == Borrow(u, bookId, now, false, None);
  }

  /** In that borrow only at-most-one-open breaks: availability still matches and the foreign keys hold. */
  lemma ClientBorrowOfBorrowedBookKeepsAvailability(db: Db, u: nat, bookId: nat, now: nat)
    requires Inv(db) && bookId in db.books && !db.books[bookId].available && u in db.users
    ensures var after := BorrowBookStep(db, Some(u), bookId, now, false, false).db;
      Valid(after) && AvailabilityConsistent(after)
  {
    var after := BorrowBookStep(db, Some(u), bookId, now, false, false).db;
    var id := db.nextBorrowId;
    var k :| k in db.borrows && db.borrows[k].bookId == bookId && !db.borrows[k].returned;
    assert after.borrows[k] == db.borrows[k] && k != id;
    forall b | b in after.books && b != bookId
      ensures after.books[b].available <==> !HasOpenBorrow(after.borrows, b)
    {
      if HasOpenBorrow(after.borrows, b) {
        var j :| j in after.borrows && after.borrows[j].bookId == b && !after.borrows[j].returned;
        assert j != id && db.borrows[j] == after.borrows[j];
      }
      if HasOpenBorrow(db.borrows, b) {
        var j :| j in db.borrows && db.borrows[j].bookId == b && !db.borrows[j].returned;
        assert after.borrows[j] == db.borrows[j];
      }
    }
  }

  /**
   * If the insert succeeds and the book update fails, the book has an open
   * borrow while it is still marked available.
   */
  lemma ClientBorrowPartialBreaksInv(db: Db, u: nat, bookId: nat, now: nat)
    requires Valid(db) && bookId in db.books && db.books[bookId].available && u in db.users
    ensures BorrowBookStep(db, Some(u), bookId, now, false, true).result == Alerted
    ensures var after := BorrowBookStep(db, Some(u), bookId, now, false, true).db;
      after.books[bookId].available && HasOpenBorrow(after.borrows, bookId)
    // only availability breaks: the foreign keys hold, and from the invariant the new borrow is the book's only open one
    ensures Valid(BorrowBookStep(db, Some(u), bookId, now, false, true).db)
    ensures Inv(db) ==> AtMostOneOpen(BorrowBookStep(db, Some(u), bookId, now, false, true).db)
    ensures !AvailabilityConsistent(BorrowBookStep(db, Some(u), bookId, now, false, true).db)
  {
  }

  /** Whatever the invariant does, the client borrow keeps what the persistence layer guarantees. */
  lemma ClientBorrowKeepsValid(db: Db, user: Option<nat>, bookId: nat, now: nat, insertFails: bool, updateFails: bool)
    requires Valid(db)
    ensures Valid(BorrowBookStep(db, user, bookId, now, insertFails, updateFails).db)
  {
  }

  /** The client borrow creates only open, unstamped records, so it keeps stamps and returns in step. */
  lemma ClientBorrowKeepsStamps(db: Db, user: Option<nat>, bookId: nat, now: nat, insertFails: bool, updateFails: bool)
    requires StampedIffReturned(db)
    ensures StampedIffReturned(BorrowBookStep(db, user, bookId, now, insertFails, updateFails).db)
  {
  }
}
