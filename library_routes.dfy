/**
 * The loan routes of backend/Routes/libraryroute.js: borrow and return, each one atomic
 * step on the store, and the two ledger queries. The caller of borrow is the payload
 * `verifyToken` recorded; return does not look at the caller.
 */
module LibraryRoutes {

  import opened Wrappers
  import opened Replies
  import opened BookModel
  import opened LoanModel
  import opened Store
  import opened Auth

  /**
   * The effect of `POST /library/borrow` on the store and its reply. Only an admin may
   * lend. The checks run in order — user by email, book by name, a copy available — and
   * each failure leaves the store as it was. On success the book's available count
   * drops by one and one open loan of that user and book, borrowed now, is appended and
   * returned.
   */
  function BorrowOutcome(s: State, caller: Payload, email: string, name: string, now: int)
    : (r: (State, Reply<Transaction>))
    ensures !caller.isAdmin ==> r == (s, Fail(Forbidden))
    ensures r.1.Fail? ==> r.0 == s
    ensures r.1 == Fail(UserNotFound) <==> caller.isAdmin && FindUserByEmail(s.users, email).None?
    ensures r.1 == Fail(BookNotFound) <==>
      caller.isAdmin && FindUserByEmail(s.users, email).Some? && FindBookByName(s.books, name).None?
    ensures r.1 == Fail(NoAvailableCopies) <==>
      caller.isAdmin && FindUserByEmail(s.users, email).Some? && FindBookByName(s.books, name).Some? &&
      s.books[FindBookByName(s.books, name).value].availableQuantity <= 0
    ensures r.1.Ok? <==>
      caller.isAdmin && FindUserByEmail(s.users, email).Some? && FindBookByName(s.books, name).Some? &&
      s.books[FindBookByName(s.books, name).value].availableQuantity > 0
    ensures r.1.Ok? ==>
      var user := FindUserByEmail(s.users, email).value;
      var book := FindBookByName(s.books, name).value;
      && r.1.value.user == user && r.1.value.book == book
      && IsOpen(r.1.value) && r.1.value.borrowedAt == now
      && r.1.value.dueDate == now + LOAN_PERIOD_MS
      && r.0.ledger == s.ledger + [r.1.value]
      && AvailabilityShifted(s.books, r.0.books, book, -1)
      && r.0.users == s.users
  {
    if !caller.isAdmin then (s, Fail(Forbidden))
    else
      match FindUserByEmail(s.users, email)
      case None => (s, Fail(UserNotFound))
      case Some(user) =>
        match FindBookByName(s.books, name)
        case None => (s, Fail(BookNotFound))
        case Some(book) =>
          var b := s.books[book];
          if b.availableQuantity <= 0 then (s, Fail(NoAvailableCopies))
          else
            var loan := NewLoan(user, book, now);
            (s.(books := s.books[book := b.(availableQuantity := b.availableQuantity - 1)],
                ledger := s.ledger + [loan]),
             Ok(loan))
  }

  /**
   * `POST /library/borrow`. The book record updated is looked up again by the name of the
   * record just read; in one serial step that is the same record, so the handler's
   * "not updated" answer cannot occur.
   */
  method Borrow(db: Db, caller: Payload, email: string, name: string, now: int) returns (reply: Reply<Transaction>)
    modifies db
    ensures (db.Snapshot(), reply) == BorrowOutcome(old(db.Snapshot()), caller, email, name, now)
  {
    if !caller.isAdmin {
      return Fail(Forbidden);
    }
    var user := FindUserByEmail(db.users, email);
    if user.None? {
      return Fail(UserNotFound);
    }
    var found := FindBookByName(db.books, name);
    if found.None? {
      return Fail(BookNotFound);
    }
    var book := db.books[found.value];
    if book.availableQuantity <= 0 {
      return Fail(NoAvailableCopies);
    }
    var updated := db.SetAvailableByName(book.name, book.availableQuantity - 1);
    var loan := NewLoan(user.value, updated.value, now);
    var id := db.InsertLoan(loan);
    return Ok(loan);
  }

  /**
   * The effect of `POST /library/return` on the store and its reply. Anyone may return.
   * Unknown user or book, or a book with no copy lent out (available equal to total), is
   * refused with the store unchanged. Otherwise the available count rises by one and the
   * first open loan of that user and book, if any, is marked returned now; the reply is
   * that record, or `None` when the user had no open loan of the book.
   */
  function ReturnOutcome(s: State, email: string, name: string, now: int)
    : (r: (State, Reply<Option<Transaction>>))
    ensures r.1.Fail? ==> r.0 == s
    ensures r.1 == Fail(UserNotFound) <==> FindUserByEmail(s.users, email).None?
    ensures r.1 == Fail(BookNotFound) <==>
      FindUserByEmail(s.users, email).Some? && FindBookByName(s.books, name).None?
    ensures r.1 == Fail(UnableToReturn) <==>
      FindUserByEmail(s.users, email).Some? && FindBookByName(s.books, name).Some? &&
      var b := s.books[FindBookByName(s.books, name).value];
      b.availableQuantity == b.totalQuantity
    ensures r.1.Ok? <==>
      FindUserByEmail(s.users, email).Some? && FindBookByName(s.books, name).Some? &&
      var b := s.books[FindBookByName(s.books, name).value];
      b.availableQuantity != b.totalQuantity
    ensures r.1.Ok? ==>
      var user := FindUserByEmail(s.users, email).value;
      var book := FindBookByName(s.books, name).value;
      && AvailabilityShifted(s.books, r.0.books, book, 1)
      && r.0.users == s.users
      && |r.0.ledger| == |s.ledger|
      && match FindOpenLoan(s.ledger, user, book)
         case None =>
           r.1.value == None && r.0.ledger == s.ledger
         case Some(i) =>
           && r.1.value == Some(r.0.ledger[i])
           && SameLoan(s.ledger[i], r.0.ledger[i]) && r.0.ledger[i].returnedAt == Some(now)
           && forall j | 0 <= j < |s.ledger| && j != i :: r.0.ledger[j] == s.ledger[j]
  {
    match FindUserByEmail(s.users, email)
    case None => (s, Fail(UserNotFound))
    case Some(user) =>
      match FindBookByName(s.books, name)
      case None => (s, Fail(BookNotFound))
      case Some(book) =>
        var b := s.books[book];
        if b.availableQuantity == b.totalQuantity then (s, Fail(UnableToReturn))
        else
          var books := s.books[book := b.(availableQuantity := b.availableQuantity + 1)];
          match FindOpenLoan(s.ledger, user, book)
          case None => (s.(books := books), Ok(None))
          case Some(i) =>
            var closed := Closed(s.ledger[i], now);
            (s.(books := books, ledger := s.ledger[i := closed]), Ok(Some(closed)))
  }

  /** `POST /library/return`, with the same remark on the "not updated" answer as `Borrow`. */
  method Return(db: Db, email: string, name: string, now: int) returns (reply: Reply<Option<Transaction>>)
    modifies db
    ensures (db.Snapshot(), reply) == ReturnOutcome(old(db.Snapshot()), email, name, now)
  {
    var user := FindUserByEmail(db.users, email);
    if user.None? {
      return Fail(UserNotFound);
    }
    var found := FindBookByName(db.books, name);
    if found.None? {
      return Fail(BookNotFound);
    }
    var book := db.books[found.value];
    if book.availableQuantity == book.totalQuantity {
      return Fail(UnableToReturn);
    }
    var updated := db.SetAvailableByName(book.name, book.availableQuantity + 1);
    var closed := db.CloseOpenLoan(user.value, updated.value, now);
    return Ok(closed);
  }

  /**
   * `GET /library/:userid`: the transactions of one user, in ledger order; each
   * transaction of that user appears as often as in the ledger, and no other does.
   */
  function UserTransactions(ledger: seq<Transaction>, user: nat): (r: seq<Transaction>)
    ensures forall i | 0 <= i < |r| :: r[i].user == user
    ensures forall t: Transaction | t.user == user :: multiset(r)[t] == multiset(ledger)[t]
    decreases |ledger|
  {
    if |ledger| == 0 then []
    else
      var rest := UserTransactions(ledger[1..], user);
      assert ledger == [ledger[0]] + ledger[1..];
      if ledger[0].user == user then [ledger[0]] + rest else rest
  }

  /** `GET /library`: the whole ledger, in store order. */
  function AllTransactions(ledger: seq<Transaction>): (r: seq<Transaction>)
    ensures |r| == |ledger| && forall i | 0 <= i < |r| :: r[i] == ledger[i]
  {
    ledger
  }
}
