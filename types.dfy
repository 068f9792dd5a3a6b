/**
 * The record shapes of the library: users, books and borrow records, as the
 * client declares them. A record's id is not stored in the record: it is the
 * key under which the record sits in its table (module Tables).
 */
module Types {

  datatype Option<T> = None | Some(value: T)

  /** A user is exactly a student or an admin. */
  datatype Role = Student | Admin

  /** The role as the record stores it. */
  function RoleName(r: Role): (s: string)
    ensures s == "student" || s == "admin"
    ensures s == "student" <==> r == Student
  {
    match r
    case Student => "student"
    case Admin => "admin"
  }

  /** Reads a stored role; any string but the two role names is no role. */
  function ParseRole(s: string): (r: Option<Role>)
    ensures r.Some? <==> (s == "student" || s == "admin")
  {
    if s == "student" then Some(Student)
    else if s == "admin" then Some(Admin)
    else None
  }

  /** Reading a stored role gives the role back, and a role read back is stored as that string. */
  lemma RoleRoundTrip(r: Role, s: string)
    ensures ParseRole(RoleName(r)) == Some(r)
    ensures ParseRole(s) == Some(r) ==> RoleName(r) == s
  {
  }

  datatype User = User(name: string, email: string, role: Role, createdAt: nat)

  /** A book with its availability flag; `available` is stored, not derived. */
  datatype Book = Book(title: string, author: string, isbn: string, available: bool, createdAt: nat)

  /**
   * A borrow record references its user and its book by id. `returnedAt` is
   * a timestamp or null (None); nothing in the record ties it to `returned`.
   */
  datatype Borrow = Borrow(userId: nat, bookId: nat, borrowedAt: nat, returned: bool, returnedAt: Option<nat>)

  /** A borrow record as a read returns it: its id, the record, and the optional joined user and book. */
  datatype BorrowView = BorrowView(id: nat, borrow: Borrow, user: Option<User>, book: Option<Book>)

  /** A book as a read returns it: its id and the record. */
  type BookRow = (nat, Book)

  function Lookup<V>(m: map<nat, V>, id: nat): (r: Option<V>) {
    if id in m then Some(m[id]) else None
  }
}
