# Library borrow/return lifecycle in Dafny

This project models the core of a library-management application: how
books are borrowed and returned over a store of three tables (users, books,
borrow records). There are two paths into that store, and they behave
differently:

- the **server path** (REST handlers over an ORM): `borrowBook` checks that
  the book is available before it writes anything; `returnBook` marks the
  record returned and its book available, without checking that the record
  was open and without stamping a return time; plus the plain book-table
  handlers `getBooks`, `addBook`, `updateBook` and `deleteBook`, and the
  joined read `getBorrows`;
- the **client path** (the student dashboard and the borrow list, which talk
  to a hosted backend directly): `handleBorrowBook` inserts a record and then
  marks the book unavailable, without checking availability;
  `handleReturn` marks the record returned with a return time and then marks
  the book available. Each is two separate writes, and an error stops the
  second one. `loadBooks` and `loadMyBorrows` are the sorted and filtered
  reads.

The central rule of the system is that a book is available if and only if no
open (unreturned) borrow record references it (`Tables.AvailabilityConsistent`),
together with "at most one open borrow per book" (`Tables.AtMostOneOpen`). The
model proves where the code keeps this rule (server borrow, return of an open
record, add and delete of books, a complete client borrow of an available
book, a complete client return) and where it breaks it: a repeated return
after the book was borrowed again, `updateBook` writing `available`, a client
borrow of a book that is out, and a client operation whose second write fails.

## Layout

- `types.dfy` (`Types`): the record shapes `Role`, `User`, `Book`, `Borrow`
  (with `returnedAt: Option<nat>` for the nullable timestamp) and the joined
  row `BorrowView`, whose `user` and `book` are optional: a query that does
  not embed a relation leaves it out. The server's `getBorrows` fills both,
  and on a valid store both are present (`BorrowController.GetBorrows`); the
  student's borrow list embeds only the book, so `user` is `None` and `book`
  is the referenced book (`StudentDashboard.LoadMyBorrowsOnlyOwn`). A role is exactly
  `Student` or `Admin`, stored as the string `RoleName` gives and read back
  by `ParseRole`.
- `tables.dfy` (`Tables`): the database value `Db` (three maps keyed by id
  and two autoincrement counters), the guarantees of the persistence layer
  (`Valid`: ids below their counters, borrow foreign keys), the lifecycle
  invariant `Inv`, the server's response kinds and the client handlers' outcomes (`ClientOutcome`), and the class `Store` whose fields are
  the tables. `Entries` lists a table in ascending id order.
- `ordering.dfy` (`Ordering`): lexicographic string order and an insertion
  sort standing for the database's ORDER BY, with sortedness, permutation
  and distinctness lemmas.
- `book_controller.dfy`, `borrow_controller.dfy`: the server handlers.
- `student_dashboard.dfy`, `borrow_list.dfy`: the client handlers and reads.

Each state-changing handler is a specification function `…Step` on a `Db`
value, whose `ensures` state what the handler promises, and a method on a
`Store` whose `ensures` ties the new state and the result to that function.
Lemmas about the functions state the invariant properties.

Modelling decisions:

- Ids are `nat`; time is a `now: nat` parameter. The server's records get
  fresh ids from counters, as the autoincrement columns do; the client's
  inserts use the same counter.
- Both paths work on one logical store.
- The database schema is not part of this model. The model assumes what the
  code relies on: borrow records have foreign keys to users and books (the
  server's joined read and the client's embedded `books(...)` select both
  need these relations); a delete of a book that a borrow record still
  references is refused; a new book is available; a new borrow record is
  open, has no return time and is stamped with the insert time.
- The server ORM's `update`/`delete` of a missing id throws, so the handler
  answers 500. The client backend's `update(...).eq('id', x)` with no
  matching row is not an error and changes nothing.
- A write that fails on the client path is an explicit boolean input
  (`insertFails`, `updateFails`, `borrowFails`, `bookFails`). The confirm
  prompt's answer is the input `confirmed`; a missing signed-in user is
  `user == None`.
- `getBooks` and `getBorrows` use no ORDER BY; the model lists rows in
  ascending id order. Titles are ordered by character code.

Facts about the code that the model keeps: `returnBook` does not refuse
an already-returned record; a missing record makes the ORM throw, so the
handler answers 500; neither borrow nor return runs in a transaction; the
server's return never sets `returnedAt`, so a record returned through the
server breaks "returned iff stamped" (`BorrowController.BorrowThenReturn`);
an unavailable book gives 400; and `getBorrows` asks for no order.

## Model

| member | source | states |
|---|---|---|
| Types.RoleName | client/src/types/index.ts:1-7 | a user's role is stored as exactly "student" or "admin", and "student" exactly for a student |
| Types.ParseRole | client/src/types/index.ts:5 | a stored role string names a role exactly when it is "student" or "admin" |
| Types.RoleRoundTrip | client/src/types/index.ts:5 | reading a stored role gives the role back, and a role read from a string is stored as that string |
| BorrowController.BorrowBookStep | server/src/controllers/borrowController.ts:5-28 | a missing or unavailable book gives NotAvailable and a missing user gives Failed, both with no write; success adds exactly one open, unstamped record for the user and book under a fresh id, keeps every existing record, sets that book's `available` to false and changes no other book |
| BorrowController.BorrowBook | server/src/controllers/borrowController.ts:5-28 | the store method performs BorrowBookStep: lookup, early return, create, then update |
| BorrowController.ReturnBookStep | server/src/controllers/borrowController.ts:32-50 | an unknown id gives Failed with nothing written; otherwise the record is marked returned whatever its state, and if its book is then missing the book update throws and the handler gives Failed; its return time is left as it was, its book (from the fetched record) becomes available and no other book changes |
| BorrowController.ReturnBook | server/src/controllers/borrowController.ts:32-50 | the store method performs ReturnBookStep: update the record, then the book it names |
| BorrowController.GetBorrows | server/src/controllers/borrowController.ts:54-59 | every borrow record appears, unfiltered, once, in ascending id order, each joined with its user and its book; on a valid store both joins are present |
| BorrowController.BorrowBookKeepsInv | server/src/controllers/borrowController.ts:9-23 | the server borrow keeps the invariant (availability matches open borrows, at most one open borrow per book, foreign keys) |
| BorrowController.SecondBorrowRefused | server/src/controllers/borrowController.ts:11-23 | run one after the other, a second borrow of a book just borrowed is refused and writes nothing |
| BorrowController.BorrowStepsKeepValid | server/src/controllers/borrowController.ts:10-45 | on a valid store, the server borrow and return keep ids below their counters and every borrow's foreign keys, whatever happens to availability |
| BorrowController.ReturnOpenKeepsInv | server/src/controllers/borrowController.ts:36-45 | returning an open record succeeds and keeps the invariant |
| BorrowController.RepeatedReturnBreaksInv | server/src/controllers/borrowController.ts:36-45 | returning an already-returned record while its book is out on another open borrow succeeds and breaks availability consistency; the foreign keys still hold and a return opens no second borrow |
| BorrowController.ReturnAfterReborrowBreaksInv | server/src/controllers/borrowController.ts:10-45 | from any consistent state, borrow, return, borrow by another user, and a second return of the first record ends with availability consistency broken, while the foreign keys and at most one open borrow per book still hold |
| BorrowController.BorrowThenReturn | server/src/controllers/borrowController.ts:15-45 | borrow then return makes the book available again, leaves the record returned with no return time, keeps the invariant, and breaks "returned iff stamped" |
| BookController.GetBooks | server/src/controllers/bookController.ts:5-8 | the rows are table entries with ascending ids, and on a valid store every book appears |
| BookController.AddBookStep | server/src/controllers/bookController.ts:15-21 | one new available book with the given title, author and isbn under a fresh id; existing books and other tables unchanged |
| BookController.AddBook | server/src/controllers/bookController.ts:15-21 | the store method performs AddBookStep |
| BookController.UpdateBookStep | server/src/controllers/bookController.ts:28-39 | an unknown id gives Failed with nothing written; otherwise only that book changes, each given field is written and each absent field kept, `available` included |
| BookController.UpdateBook | server/src/controllers/bookController.ts:28-39 | the store method performs UpdateBookStep |
| BookController.DeleteBookStep | server/src/controllers/bookController.ts:43-50 | an unknown id, or a book still referenced by a borrow record, gives Failed with nothing written; otherwise exactly that book is removed |
| BookController.DeleteBook | server/src/controllers/bookController.ts:43-50 | the store method performs DeleteBookStep |
| BookController.AddBookKeepsInv | server/src/controllers/bookController.ts:17-21 | adding a book keeps the invariant |
| BookController.DeleteBookKeepsInv | server/src/controllers/bookController.ts:45-47 | deleting a book keeps the invariant |
| BookController.UpdateBookKeepsInvIff | server/src/controllers/bookController.ts:31-35 | an update keeps the invariant if and only if it leaves `available` alone or writes the value the open borrows imply |
| BookController.UpdateBookCanFreeBorrowedBook | server/src/controllers/bookController.ts:31-35 | marking a borrowed book available through an update succeeds and breaks availability consistency; the foreign keys and at most one open borrow per book still hold |
| BookController.BookStepsKeepValid | server/src/controllers/bookController.ts:15-50 | on a valid store, adding, updating and deleting a book keep ids below their counters and every borrow's foreign keys |
| StudentDashboard.LoadBooks | client/src/pages/StudentDashboard.tsx:25-31 | the listing is a permutation of the books table |
| StudentDashboard.LoadBooksOrdered | client/src/pages/StudentDashboard.tsx:26-29 | the listing is ordered by title ascending |
| StudentDashboard.LoadBooksExact | client/src/pages/StudentDashboard.tsx:26-29 | a row is listed if and only if it is a book of the table, and no book is listed twice |
| StudentDashboard.LoadMyBorrows | client/src/pages/StudentDashboard.tsx:33-41 | without a signed-in user there is no result; with one there is a listing |
| StudentDashboard.LoadMyBorrowsOrdered | client/src/pages/StudentDashboard.tsx:36-40 | the user's listing is ordered by borrow time, newest first |
| StudentDashboard.LoadMyBorrowsOnlyOwn | client/src/pages/StudentDashboard.tsx:36-40 | every listed row is a record of the table whose user is the signed-in user, joined with its book |
| StudentDashboard.LoadMyBorrowsComplete | client/src/pages/StudentDashboard.tsx:36-40 | every record of the signed-in user is listed |
| StudentDashboard.LoadMyBorrowsNoRepeat | client/src/pages/StudentDashboard.tsx:36-40 | no record is listed twice |
| StudentDashboard.BorrowBookStep | client/src/pages/StudentDashboard.tsx:44-60 | no user: nothing written; a failed insert: nothing written and alerted; whenever the insert succeeds, whatever the book's availability and whether or not the book update then fails, exactly one new open record for the user and book under a fresh id; a failed book update is alerted and leaves every book as it was; success marks that book unavailable and no other |
| StudentDashboard.HandleBorrowBook | client/src/pages/StudentDashboard.tsx:44-60 | the store method performs BorrowBookStep: insert, then update, stopping at the first error |
| StudentDashboard.ClientBorrowMatchesServer | client/src/pages/StudentDashboard.tsx:49-58 | on an available book with no error, the client borrow writes exactly what the server borrow writes |
| StudentDashboard.ClientBorrowKeepsInvWhenAvailable | client/src/pages/StudentDashboard.tsx:49-58 | a complete client borrow of an available book keeps the invariant |
| StudentDashboard.ClientBorrowOfBorrowedBook | client/src/pages/StudentDashboard.tsx:49-51 | the client does not check availability: borrowing a book that is out succeeds and leaves two distinct open borrow records of that book |
| StudentDashboard.ClientBorrowOfBorrowedBookKeepsAvailability | client/src/pages/StudentDashboard.tsx:49-58 | in that borrow only at-most-one-open breaks: availability still matches the open borrows for every book, and the foreign keys hold |
| StudentDashboard.ClientBorrowPartialBreaksInv | client/src/pages/StudentDashboard.tsx:55-60 | insert succeeds, book update fails: the handler alerts, and the book itself has an open borrow while it is still marked available; the foreign keys still hold, and from a consistent state the new borrow is the book's only open one |
| StudentDashboard.ClientBorrowKeepsValid | client/src/pages/StudentDashboard.tsx:44-60 | on a valid store, every client borrow, whatever fails, keeps ids below their counters and every borrow's foreign keys |
| StudentDashboard.ClientBorrowKeepsStamps | client/src/pages/StudentDashboard.tsx:49-51 | the client borrow keeps "returned iff stamped" |
| BorrowList.ReturnStep | client/src/components/BorrowList.tsx:11-33 | declining: nothing written; a failed record update: nothing written and alerted; otherwise the record is marked returned and stamped now whatever its state; then only the row's book becomes available, unless that update fails, which is alerted |
| BorrowList.HandleReturn | client/src/components/BorrowList.tsx:11-33 | the store method performs ReturnStep: confirm, update the record, then the book, stopping at the first error |
| BorrowList.ReturnOpenKeepsInv | client/src/components/BorrowList.tsx:15-25 | a complete return of a current open row keeps the invariant |
| BorrowList.ReturnPartialBreaksInv | client/src/components/BorrowList.tsx:20-27 | record update succeeds, book update fails: the handler alerts, the record is returned, and the row's book stays unavailable with no open borrow; the foreign keys and at most one open borrow per book still hold |
| BorrowList.RepeatedReturnBreaksInv | client/src/components/BorrowList.tsx:11-25 | the handler does not check `returned`: a row whose stored record is already returned (even if the row still shows it open) while its book is out again is stamped again and its book freed, breaking availability consistency; the foreign keys still hold and no second borrow is opened |
| BorrowList.ReturnKeepsValid | client/src/components/BorrowList.tsx:11-33 | on a valid store, every client return, whatever fails, keeps ids below their counters and every borrow's foreign keys |
| BorrowList.ReturnMatchesServer | client/src/components/BorrowList.tsx:15-25 | on a current row with no error, the client return writes what the server return writes, plus the return time |
| BorrowList.ReturnKeepsStamps | client/src/components/BorrowList.tsx:15-18 | every client return, whatever fails, keeps "returned iff stamped" |

## Left out

- Rendering, hooks, tabs, loading and `borrowing` flags, `alert` and console output: user interface. The confirm prompt survives only as the `confirmed` input. The UI shows the Borrow button only for available books and the Return button only for unreturned rows (StudentDashboard.tsx:116-124, BorrowList.tsx:74-81). Those are guards on the UI, not on the handlers, so the handlers are modelled without them.
- The reloads after a successful client write (`loadData`, `onUpdate`) are the read functions applied to the new state. The component state they set is not modelled, and neither is the case where a failed query leaves the old list on screen.
- `formatDate` and `new Date()`: time is the `now` parameter.
- HTTP status codes and JSON bodies are reduced to `Response`. The returned records themselves are not modelled, only the new id.
- The database schema, the ORM and the hosted backend's client internals are not part of this model. Their behaviour is reduced to map operations under the assumptions listed above. Row-level security and authentication are not modelled.
- The client's partial joins (`books(title, author, isbn)`) are modelled as joining the whole book record.
- `User` has no password field, so the whole user row that `getBorrows` joins (`include: { user: true }`) is modelled without the stored password hash. The users table and its password handling are not part of this model.
- Store failures other than missing ids and foreign keys on the server path are not modelled. Connection loss, malformed request bodies (`Number(...)` of a non-id) and failures of `findMany` are all left out, so `addBook`'s 500 path and the reads' 500 paths are not modelled.
- Ids on the client are strings. Here they are `nat`, drawn from the same counters as the server's.
- The read-then-write race between two concurrent `borrowBook` calls: concurrency. Only sequential calls are modelled.
- `server.ts`, the route files, `userController.ts` (user CRUD and password hashing), `AdminDashboard.tsx` and `BookForm.tsx` are not part of this model. No modelled operation writes the users table, which the `Store` constructor takes as given.
- Ordering ties: rows with equal titles or equal borrow times come in no promised order, and the model's sort fixes one.
- String collation: titles compare by character code, not by locale.
