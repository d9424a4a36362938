/**
 * The document store the routes talk to: the catalog of books, the registered users and
 * the ledger of transactions. Each collection keeps its records in insertion order, and a
 * record's identity is its position; nothing is ever deleted.
 */
module Store {

  import opened Wrappers
  import opened BookModel
  import opened LoanModel
  import opened UserModel

  /** `findOne(filter)`: the first record, in store order, that satisfies the filter. */
  function FirstIndex<T>(s: seq<T>, p: T -> bool): (r: Option<nat>)
    ensures r.Some? ==> r.value < |s| && p(s[r.value])
    ensures r.Some? ==> forall j | 0 <= j < r.value :: !p(s[j])
    ensures r.None? ==> forall j | 0 <= j < |s| :: !p(s[j])
    decreases |s|
  {
    if |s| == 0 then None
    else if p(s[0]) then Some(0)
    else
      match FirstIndex(s[1..], p)
      case None => None
      case Some(k) => Some(k + 1)
  }

  /** `usermodel.findOne({ email })`. */
  function FindUserByEmail(users: seq<User>, email: string): (r: Option<nat>)
    ensures r.Some? ==> r.value < |users| && users[r.value].email == email
    ensures r.Some? ==> forall j | 0 <= j < r.value :: users[j].email != email
    ensures r.None? ==> forall j | 0 <= j < |users| :: users[j].email != email
  {
    FirstIndex(users, (u: User) => u.email == email)
  }

  /** `bookmodel.findOne({ name })`. */
  function FindBookByName(books: seq<Book>, name: string): (r: Option<nat>)
    ensures r.Some? ==> r.value < |books| && books[r.value].name == name
    ensures r.Some? ==> forall j | 0 <= j < r.value :: books[j].name != name
    ensures r.None? ==> forall j | 0 <= j < |books| :: books[j].name != name
  {
    FirstIndex(books, (b: Book) => b.name == name)
  }

  /** Looking a name up gives the same book in two catalogs whose names agree position by position. */
  lemma FindBookByNameAgrees(a: seq<Book>, b: seq<Book>, name: string)
    requires |a| == |b|
    requires forall j | 0 <= j < |a| :: a[j].name == b[j].name
    ensures FindBookByName(a, name) == FindBookByName(b, name)
  {
    var x, y := FindBookByName(a, name), FindBookByName(b, name);
    if x.Some? && y.Some? {
      assert !(x.value < y.value) && !(y.value < x.value);
    }
  }

  /** The ledger filter `{ user, book, returnedAt: null }`: an open loan of that user and book. */
  predicate OpenLoanOf(t: Transaction, user: nat, book: nat)
  {
    t.user == user && t.book == book && IsOpen(t)
  }

  /** `librarymodel.findOne({ user, book, returnedAt: null })`. */
  function FindOpenLoan(ledger: seq<Transaction>, user: nat, book: nat): (r: Option<nat>)
    ensures r.Some? ==> r.value < |ledger| && OpenLoanOf(ledger[r.value], user, book)
    ensures r.Some? ==> forall j | 0 <= j < r.value :: !OpenLoanOf(ledger[j], user, book)
    ensures r.None? ==> forall j | 0 <= j < |ledger| :: !OpenLoanOf(ledger[j], user, book)
  {
    FirstIndex(ledger, (t: Transaction) => OpenLoanOf(t, user, book))
  }

  /** A snapshot of the whole store. */
  datatype State = State(books: seq<Book>, users: seq<User>, ledger: seq<Transaction>)

  /** The store as the handlers see it: three collections updated in place. */
  class Db {
    var books: seq<Book>
    var users: seq<User>
    var ledger: seq<Transaction>

    constructor ()
      ensures books == [] && users == [] && ledger == []
    {
      books, users, ledger := [], [], [];
    }

    function Snapshot(): State
      reads this
    {
      State(books, users, ledger)
    }

    /** `bookmodel.create(b)`: stores a new book and returns its identity. */
    method InsertBook(b: Book) returns (id: nat)
      modifies this
      ensures id == |old(books)| && books == old(books) + [b]
      ensures users == old(users) && ledger == old(ledger)
    {
      id := |books|;
      books := books + [b];
    }

    /**
     * `bookmodel.findOneAndUpdate({ name }, { $set: { availablequantity: v } }, { new: true })`:
     * sets the available count of the first book with that name; `None` when there is none.
     */
    method SetAvailableByName(name: string, v: int) returns (updated: Option<nat>)
      modifies this
      ensures updated == FindBookByName(old(books), name)
      ensures updated.None? ==> books == old(books)
      ensures updated.Some? ==>
        books == old(books)[updated.value := old(books)[updated.value].(availableQuantity := v)]
      ensures users == old(users) && ledger == old(ledger)
    {
      updated := FindBookByName(books, name);
      if updated.Some? {
        books := books[updated.value := books[updated.value].(availableQuantity := v)];
      }
    }

    /**
     * `bookmodel.findOneAndUpdate({ _id: id }, b, { new: true })`: replaces the four fields of
     * the book with that identity, without running the schema validators; false when there is none.
     */
    method SetBookById(id: nat, b: Book) returns (found: bool)
      modifies this
      ensures found == (id < |old(books)|)
      ensures books == if found then old(books)[id := b] else old(books)
      ensures users == old(users) && ledger == old(ledger)
    {
      found := id < |books|;
      if found {
        books := books[id := b];
      }
    }

    /** `librarymodel.create(t)`. */
    method InsertLoan(t: Transaction) returns (id: nat)
      modifies this
      ensures id == |old(ledger)| && ledger == old(ledger) + [t]
      ensures books == old(books) && users == old(users)
    {
      id := |ledger|;
      ledger := ledger + [t];
    }

    /**
     * `librarymodel.findOneAndUpdate({ user, book, returnedAt: null }, { returnedAt: at }, { new: true })`:
     * marks the first open loan of that user and book returned and gives back the updated record.
     */
    method CloseOpenLoan(user: nat, book: nat, at: int) returns (closed: Option<Transaction>)
      modifies this
      ensures FindOpenLoan(old(ledger), user, book).None? ==> closed == None && ledger == old(ledger)
      ensures FindOpenLoan(old(ledger), user, book).Some? ==>
        var i := FindOpenLoan(old(ledger), user, book).value;
        closed == Some(Closed(old(ledger)[i], at)) && ledger == old(ledger)[i := closed.value]
      ensures books == old(books) && users == old(users)
    {
      var found := FindOpenLoan(ledger, user, book);
      if found.None? {
        closed := None;
      } else {
        var t := Closed(ledger[found.value], at);
        ledger := ledger[found.value := t];
        closed := Some(t);
      }
    }

    /** `Register.create(u)`. */
    method InsertUser(u: User) returns (id: nat)
      modifies this
      ensures id == |old(users)| && users == old(users) + [u]
      ensures books == old(books) && ledger == old(ledger)
    {
      id := |users|;
      users := users + [u];
    }
  }
}
