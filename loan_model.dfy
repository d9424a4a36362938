/** The Transaction record of the ledger (backend/Models/library.js). */
module LoanModel {

  import opened Wrappers

  /** One day in milliseconds. */
  const DAY_MS: int := 24 * 60 * 60 * 1000

  /** The loan period used by the `duedate` default: ten days. */
  const LOAN_PERIOD_MS: int := 10 * DAY_MS

  /**
   * A borrow record: references to a user and a book (both required), the due date,
   * the borrow time and the return time; `returnedAt == None` is an open loan.
   * Times are milliseconds since the epoch.
   */
  datatype Transaction = Transaction(
    user: nat,
    book: nat,
    dueDate: int,
    borrowedAt: int,
    returnedAt: Option<int>)

  predicate IsOpen(t: Transaction)
  {
    t.returnedAt.None?
  }

  /**
   * The record the ledger stores when it is created at time `now` with only `user`, `book`
   * and `returnedAt: null` given: `duedate` and `borrowedAt` take their schema defaults.
   */
  function NewLoan(user: nat, book: nat, now: int): (t: Transaction)
    ensures t.user == user && t.book == book && IsOpen(t)
    ensures t.borrowedAt == now
    ensures t.dueDate - t.borrowedAt == 864_000_000
  {
    Transaction(user, book, now + LOAN_PERIOD_MS, now, None)
  }

  /** Both records describe the same loan: same user, book, due date and borrow time. */
  predicate SameLoan(t: Transaction, u: Transaction)
  {
    t.user == u.user && t.book == u.book && t.dueDate == u.dueDate && t.borrowedAt == u.borrowedAt
  }

  /** The record after it is marked returned at time `at`. */
  function Closed(t: Transaction, at: int): (r: Transaction)
    ensures SameLoan(t, r) && !IsOpen(r) && r.returnedAt == Some(at)
  {
    t.(returnedAt := Some(at))
  }

  /**
   * `u` is a later state of the loan `t`: the loan is the same, and a returned loan
   * stays exactly as it was (open -> returned is the only transition).
   */
  predicate Evolves(t: Transaction, u: Transaction)
  {
    SameLoan(t, u) && (!IsOpen(t) ==> u == t)
  }
}
