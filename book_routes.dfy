/**
 * The catalog routes of backend/Routes/bookroute.js: admin-only create and additive
 * update, and the two reads. The caller is the payload `verifyToken` recorded.
 */
module BookRoutes {

  import opened Wrappers
  import opened Replies
  import opened BookModel
  import opened Store
  import opened Auth

  /**
   * The effect of `POST /books` on the catalog and its reply. Only an admin may create;
   * a name already in the catalog is refused; a record without a name or an author is
   * refused by the store; otherwise one book is appended with all its copies available.
   */
  function CreateOutcome(books: seq<Book>, caller: Payload, name: string, author: string, total: int)
    : (r: (seq<Book>, Reply<Book>))
    ensures !caller.isAdmin ==> r == (books, Fail(Forbidden))
    ensures caller.isAdmin ==>
      (r.1 == Fail(BookAlreadyExists) <==> exists i | 0 <= i < |books| :: books[i].name == name)
    ensures r.1 == Fail(StoreRejected) <==>
      caller.isAdmin && (forall i | 0 <= i < |books| :: books[i].name != name) && (name == "" || author == "")
    ensures r.1.Ok? <==>
      caller.isAdmin && (forall i | 0 <= i < |books| :: books[i].name != name) && name != "" && author != ""
    ensures r.1.Fail? ==> r.0 == books
    ensures r.1.Ok? ==> r.0 == books + [r.1.value]
    ensures r.1.Ok? ==> r.1.value.name == name && r.1.value.author == author
    ensures r.1.Ok? ==> r.1.value.totalQuantity == total && r.1.value.availableQuantity == total
  {
    if !caller.isAdmin then (books, Fail(Forbidden))
    else if FindBookByName(books, name).Some? then (books, Fail(BookAlreadyExists))
    else
      var book := Book(name, author, total, total);
      if !HasRequiredFields(book) then (books, Fail(StoreRejected))
      else (books + [book], Ok(book))
  }

  /** `POST /books`. */
  method CreateBook(db: Db, caller: Payload, name: string, author: string, total: int) returns (reply: Reply<Book>)
    modifies db
    ensures (db.books, reply) == CreateOutcome(old(db.books), caller, name, author, total)
    ensures db.users == old(db.users) && db.ledger == old(db.ledger)
  {
    if !caller.isAdmin {
      return Fail(Forbidden);
    }
    var existing := FindBookByName(db.books, name);
    if existing.Some? {
      return Fail(BookAlreadyExists);
    }
    var book := Book(name, author, total, total);
    if !HasRequiredFields(book) {
      return Fail(StoreRejected);
    }
    var id := db.InsertBook(book);
    return Ok(book);
  }

  /**
   * The effect of `PUT /books/:id` on the catalog and its reply. Only an admin may update;
   * an unknown identity is refused; otherwise that one book takes the given name and author
   * and the given quantity is added to both its total and its available count, so the
   * number of copies lent out stays as it was.
   */
  function UpdateOutcome(books: seq<Book>, caller: Payload, id: nat, name: string, author: string, quantity: int)
    : (r: (seq<Book>, Reply<Book>))
    ensures !caller.isAdmin ==> r == (books, Fail(Forbidden))
    ensures caller.isAdmin ==> (r.1 == Fail(BookNotFound) <==> id >= |books|)
    ensures r.1.Ok? <==> caller.isAdmin && id < |books|
    ensures r.1.Fail? ==> r.0 == books
    ensures r.1.Ok? ==> id < |books| && |r.0| == |books| && r.0[id] == r.1.value
    ensures r.1.Ok? ==> forall j | 0 <= j < |books| && j != id :: r.0[j] == books[j]
    ensures r.1.Ok? ==> r.1.value.name == name && r.1.value.author == author
    ensures r.1.Ok? ==> r.1.value.totalQuantity == books[id].totalQuantity + quantity
    ensures r.1.Ok? ==> r.1.value.availableQuantity == books[id].availableQuantity + quantity
    ensures r.1.Ok? ==> Outstanding(r.1.value) == Outstanding(books[id])
  {
    if !caller.isAdmin then (books, Fail(Forbidden))
    else if id >= |books| then (books, Fail(BookNotFound))
    else
      var existing := books[id];
      var book := Book(name, author, quantity + existing.totalQuantity, quantity + existing.availableQuantity);
      (books[id := book], Ok(book))
  }

  /** `PUT /books/:id`. */
  method UpdateBook(db: Db, caller: Payload, id: nat, name: string, author: string, quantity: int)
    returns (reply: Reply<Book>)
    modifies db
    ensures (db.books, reply) == UpdateOutcome(old(db.books), caller, id, name, author, quantity)
    ensures db.users == old(db.users) && db.ledger == old(db.ledger)
  {
    if !caller.isAdmin {
      return Fail(Forbidden);
    }
    var existing := GetBook(db.books, id);
    if existing.None? {
      return Fail(BookNotFound);
    }
    var book := Book(name, author,
                     quantity + existing.value.totalQuantity,
                     quantity + existing.value.availableQuantity);
    var found := db.SetBookById(id, book);
    return Ok(book);
  }

  /** `GET /books/:id`: the book with that identity, `None` (null) when there is none. */
  function GetBook(books: seq<Book>, id: nat): (r: Option<Book>)
    ensures r.Some? <==> id < |books|
    ensures r.Some? ==> r.value == books[id]
  {
    if id < |books| then Some(books[id]) else None
  }

  /** `GET /books`: every book, in store order. */
  function ListBooks(books: seq<Book>): (r: seq<Book>)
    ensures |r| == |books| && forall i | 0 <= i < |r| :: r[i] == books[i]
  {
    books
  }

  /** A created book is balanced exactly when its total is not negative: the schema puts no bound on it. */
  lemma CreateBalancedIff(books: seq<Book>, caller: Payload, name: string, author: string, total: int)
    requires CreateOutcome(books, caller, name, author, total).1.Ok?
    ensures Balanced(CreateOutcome(books, caller, name, author, total).1.value) <==> total >= 0
  {
  }

  /** An update keeps a balanced book balanced exactly when it leaves the available count non-negative. */
  lemma UpdateBalancedIff(books: seq<Book>, caller: Payload, id: nat, name: string, author: string, quantity: int)
    requires id < |books| && Balanced(books[id])
    requires UpdateOutcome(books, caller, id, name, author, quantity).1.Ok?
    ensures Balanced(UpdateOutcome(books, caller, id, name, author, quantity).1.value)
        <==> books[id].availableQuantity + quantity >= 0
  {
  }

  /** Create keeps the catalog's names distinct. */
  lemma CreateKeepsNamesDistinct(books: seq<Book>, caller: Payload, name: string, author: string, total: int)
    requires DistinctNames(books)
    ensures DistinctNames(CreateOutcome(books, caller, name, author, total).0)
  {
  }

  /** Update does not re-check names: renaming a book to another book's name is accepted. */
  lemma UpdateCanDuplicateName()
    ensures var books := [Book("Dune", "Herbert", 1, 1), Book("Emma", "Austen", 1, 1)];
            var admin := Payload("admin@example.com", 0, true);
            var r := UpdateOutcome(books, admin, 1, "Dune", "Austen", 0);
            DistinctNames(books) && r.1.Ok? && !DistinctNames(r.0)
  {
    var books := [Book("Dune", "Herbert", 1, 1), Book("Emma", "Austen", 1, 1)];
    var r := UpdateOutcome(books, Payload("admin@example.com", 0, true), 1, "Dune", "Austen", 0);
    assert r.0[0].name == r.0[1].name;
  }
}
