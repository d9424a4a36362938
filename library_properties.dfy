/**
 * What borrow and return guarantee over many requests served one after another: the
 * availability invariant, the one-way life of a loan, the borrow/return round trip, and
 * two concrete runs, one of them showing how a return by the wrong user strands a loan.
 */
module LibraryProperties {

  import opened Wrappers
  import opened Replies
  import opened BookModel
  import opened LoanModel
  import opened UserModel
  import opened Store
  import opened Auth
  import opened LibraryRoutes

  /**
   * The store is consistent when every book is balanced (`0 <= available <= total`) and
   * every transaction refers to a stored user and a stored book.
   */
  predicate Consistent(s: State)
  {
    && (forall i | 0 <= i < |s.books| :: Balanced(s.books[i]))
    && (forall i | 0 <= i < |s.ledger| :: s.ledger[i].user < |s.users| && s.ledger[i].book < |s.books|)
  }

  /** One loan request, as the two handlers receive it. */
  datatype LoanRequest =
    | BorrowRequest(caller: Payload, email: string, name: string, now: int)
    | ReturnRequest(email: string, name: string, now: int)

  function Step(s: State, q: LoanRequest): State
  {
    match q
    case BorrowRequest(caller, email, name, now) => BorrowOutcome(s, caller, email, name, now).0
    case ReturnRequest(email, name, now) => ReturnOutcome(s, email, name, now).0
  }

  /** The store after the requests are served one after another, each as one atomic step. */
  function Serve(s: State, qs: seq<LoanRequest>): State
    decreases |qs|
  {
    if |qs| == 0 then s else Serve(Step(s, qs[0]), qs[1..])
  }

  lemma BorrowKeepsConsistent(s: State, caller: Payload, email: string, name: string, now: int)
    requires Consistent(s)
    ensures Consistent(BorrowOutcome(s, caller, email, name, now).0)
  {
  }

  /** Return refuses when nothing is lent out, so a balanced book cannot exceed its total. */
  lemma ReturnKeepsConsistent(s: State, email: string, name: string, now: int)
    requires Consistent(s)
    ensures Consistent(ReturnOutcome(s, email, name, now).0)
  {
  }

  lemma StepKeepsConsistent(s: State, q: LoanRequest)
    requires Consistent(s)
    ensures Consistent(Step(s, q))
  {
    match q
    case BorrowRequest(caller, email, name, now) => BorrowKeepsConsistent(s, caller, email, name, now);
    case ReturnRequest(email, name, now) => ReturnKeepsConsistent(s, email, name, now);
  }

  /** Any serial run of borrows and returns keeps `0 <= available <= total` for every book. */
  lemma {:induction false} ServeKeepsConsistent(s: State, qs: seq<LoanRequest>)
    requires Consistent(s)
    ensures Consistent(Serve(s, qs))
    decreases |qs|
  {
    if |qs| > 0 {
      StepKeepsConsistent(s, qs[0]);
      ServeKeepsConsistent(Step(s, qs[0]), qs[1..]);
    }
  }

  /**
   * The ledger `after` extends `before`: no record is removed, every record keeps its
   * user, book and dates, and a returned loan is never touched again.
   */
  predicate LedgerEvolves(before: seq<Transaction>, after: seq<Transaction>)
  {
    |before| <= |after| && forall i | 0 <= i < |before| :: Evolves(before[i], after[i])
  }

  lemma LedgerEvolvesTransitive(a: seq<Transaction>, b: seq<Transaction>, c: seq<Transaction>)
    requires LedgerEvolves(a, b) && LedgerEvolves(b, c)
    ensures LedgerEvolves(a, c)
  {
    forall i | 0 <= i < |a|
      ensures Evolves(a[i], c[i])
    {
      assert Evolves(a[i], b[i]) && Evolves(b[i], c[i]);
    }
  }

  lemma StepEvolves(s: State, q: LoanRequest)
    ensures LedgerEvolves(s.ledger, Step(s, q).ledger)
  {
  }

  /** Over any serial run, loans only move from open to returned, never back. */
  lemma {:induction false} ServeNeverReopens(s: State, qs: seq<LoanRequest>)
    ensures LedgerEvolves(s.ledger, Serve(s, qs).ledger)
    decreases |qs|
  {
    if |qs| == 0 {
      assert LedgerEvolves(s.ledger, s.ledger);
    } else {
      StepEvolves(s, qs[0]);
      ServeNeverReopens(Step(s, qs[0]), qs[1..]);
      LedgerEvolvesTransitive(s.ledger, Step(s, qs[0]).ledger, Serve(s, qs).ledger);
    }
  }

  /**
   * A successful borrow followed by a return of the same book by the same user succeeds
   * and restores the catalog. When the user had no earlier open loan of that book, the
   * return closes exactly the loan just created; otherwise it closes the earliest older
   * one and the loan just created stays open.
   */
  lemma BorrowThenReturn(s: State, caller: Payload, email: string, name: string, lent: int, back: int)
    requires Consistent(s)
    requires BorrowOutcome(s, caller, email, name, lent).1.Ok?
    ensures
      var borrowed := BorrowOutcome(s, caller, email, name, lent);
      var returned := ReturnOutcome(borrowed.0, email, name, back);
      && returned.1.Ok?
      && returned.0.books == s.books
      && returned.0.users == s.users
    ensures
      var borrowed := BorrowOutcome(s, caller, email, name, lent);
      var returned := ReturnOutcome(borrowed.0, email, name, back);
      var user := FindUserByEmail(s.users, email).value;
      var book := FindBookByName(s.books, name).value;
      FindOpenLoan(s.ledger, user, book).None? ==>
        && returned.1 == Ok(Some(Closed(borrowed.1.value, back)))
        && returned.0.ledger == s.ledger + [Closed(borrowed.1.value, back)]
    ensures
      var borrowed := BorrowOutcome(s, caller, email, name, lent);
      var returned := ReturnOutcome(borrowed.0, email, name, back);
      var user := FindUserByEmail(s.users, email).value;
      var book := FindBookByName(s.books, name).value;
      var older := FindOpenLoan(s.ledger, user, book);
      older.Some? ==>
        && returned.1 == Ok(Some(Closed(s.ledger[older.value], back)))
        && returned.0.ledger == (s.ledger + [borrowed.1.value])[older.value := Closed(s.ledger[older.value], back)]
        && returned.0.ledger[|s.ledger|] == borrowed.1.value && IsOpen(returned.0.ledger[|s.ledger|])
  {
    var borrowed := BorrowOutcome(s, caller, email, name, lent);
    var s1 := borrowed.0;
    var user := FindUserByEmail(s.users, email).value;
    var book := FindBookByName(s.books, name).value;
    FindBookByNameAgrees(s.books, s1.books, name);
    assert Balanced(s.books[book]);
    var returned := ReturnOutcome(s1, email, name, back);
    assert returned.0.books == s.books;
    if FindOpenLoan(s.ledger, user, book).None? {
      var found := FindOpenLoan(s1.ledger, user, book);
      assert OpenLoanOf(s1.ledger[|s.ledger|], user, book);
      assert found.Some? && found.value == |s.ledger|;
      assert returned.0.ledger == s.ledger + [Closed(borrowed.1.value, back)];
    } else {
      var i := FindOpenLoan(s.ledger, user, book).value;
      var found := FindOpenLoan(s1.ledger, user, book);
      assert s1.ledger[i] == s.ledger[i];
      assert found.Some? && found.value == i;
    }
  }

  /** A registered member with the given email. */
  function Member(email: string): User
  {
    User(email, email, email, "hash", "", false)
  }

  /**
   * A sample run: "Dune" has two copies; u1 and u2 borrow them, u3 is
   * refused, and u1's return frees one copy and closes u1's loan.
   */
  lemma DuneScenario()
    ensures
      var admin := Payload("admin@example.com", 99, true);
      var s0 := State([Book("Dune", "Herbert", 2, 2)],
                      [Member("u1@x.io"), Member("u2@x.io"), Member("u3@x.io")], []);
      var b1 := BorrowOutcome(s0, admin, "u1@x.io", "Dune", 100);
      var b2 := BorrowOutcome(b1.0, admin, "u2@x.io", "Dune", 200);
      var b3 := BorrowOutcome(b2.0, admin, "u3@x.io", "Dune", 300);
      var r1 := ReturnOutcome(b3.0, "u1@x.io", "Dune", 400);
      && b1.1.Ok? && b1.0.books[0].availableQuantity == 1 && b1.0.ledger == [NewLoan(0, 0, 100)]
      && b2.1.Ok? && b2.0.books[0].availableQuantity == 0 && b2.0.ledger == [NewLoan(0, 0, 100), NewLoan(1, 0, 200)]
      && b3 == (b2.0, Fail(NoAvailableCopies))
      && r1.1 == Ok(Some(Closed(NewLoan(0, 0, 100), 400)))
      && r1.0.books[0].availableQuantity == 1
      && r1.0.ledger == [Closed(NewLoan(0, 0, 100), 400), NewLoan(1, 0, 200)]
  {
  }

  /**
   * Return checks availability per book, not per user: after u1 borrows the only copy,
   * u2's return succeeds with no record closed and frees the copy, and u1's own return
   * is then refused, so u1's loan stays open.
   */
  lemma ReturnByAnotherUserStrandsLoan()
    ensures
      var admin := Payload("admin@example.com", 99, true);
      var s0 := State([Book("Dune", "Herbert", 1, 1)], [Member("u1@x.io"), Member("u2@x.io")], []);
      var b := BorrowOutcome(s0, admin, "u1@x.io", "Dune", 100);
      var r2 := ReturnOutcome(b.0, "u2@x.io", "Dune", 200);
      var r1 := ReturnOutcome(r2.0, "u1@x.io", "Dune", 300);
      && b.1.Ok?
      && r2.1 == Ok(None) && r2.0.books == s0.books
      && r1.1 == Fail(UnableToReturn)
      && r1.0.ledger == [NewLoan(0, 0, 100)] && IsOpen(r1.0.ledger[0])
  {
  }

  /**
   * The loan stranded above is not stranded for good: once another member borrows the
   * freed copy, the count is below the total again and u1's return closes u1's loan.
   */
  lemma StrandedLoanClosedAfterNextBorrow()
    ensures
      var admin := Payload("admin@example.com", 99, true);
      var s0 := State([Book("Dune", "Herbert", 1, 1)],
                      [Member("u1@x.io"), Member("u2@x.io"), Member("u3@x.io")], []);
      var b1 := BorrowOutcome(s0, admin, "u1@x.io", "Dune", 100);
      var r2 := ReturnOutcome(b1.0, "u2@x.io", "Dune", 200);
      var b3 := BorrowOutcome(r2.0, admin, "u3@x.io", "Dune", 300);
      var r1 := ReturnOutcome(b3.0, "u1@x.io", "Dune", 400);
      && r2.1 == Ok(None)
      && b3.1 == Ok(NewLoan(2, 0, 300))
      && r1.1 == Ok(Some(Closed(NewLoan(0, 0, 100), 400)))
      && r1.0.ledger == [Closed(NewLoan(0, 0, 100), 400), NewLoan(2, 0, 300)]
      && r1.0.books == [Book("Dune", "Herbert", 1, 1)]
  {
    var admin := Payload("admin@example.com", 99, true);
    var s0 := State([Book("Dune", "Herbert", 1, 1)],
                    [Member("u1@x.io"), Member("u2@x.io"), Member("u3@x.io")], []);
    var b1 := BorrowOutcome(s0, admin, "u1@x.io", "Dune", 100);
    assert b1.0 == State([Book("Dune", "Herbert", 1, 0)], s0.users, [NewLoan(0, 0, 100)]);
    var r2 := ReturnOutcome(b1.0, "u2@x.io", "Dune", 200);
    assert r2.0 == State(s0.books, s0.users, [NewLoan(0, 0, 100)]);
    var b3 := BorrowOutcome(r2.0, admin, "u3@x.io", "Dune", 300);
    assert b3.0 == State([Book("Dune", "Herbert", 1, 0)], s0.users, [NewLoan(0, 0, 100), NewLoan(2, 0, 300)]);
  }
}
