# Library backend: loans, catalog and registration

A Dafny model of the back end of a small library system. Admins lend books to
registered users; anyone holding a valid token may return one. The store has three
collections: a catalog of books, the registered users, and a ledger of loan
transactions. Each route handler is modelled as one atomic step on that store.

The model has these modules:

- `BookModel` and `LoanModel` hold the Book and Transaction records.
  `LoanModel` also has the schema defaults: a loan is due ten days (864,000,000 ms)
  after it is borrowed.
- `UserModel` is the user record that registration stores. Its schema file is not
  part of this model.
- `Store` is the document store. The class `Store.Db` holds the three collections as
  sequences, and its methods are the store calls the handlers make (`create`,
  `findOneAndUpdate`). `findOne` is `FirstIndex`: the first record in store order that
  matches the filter. A record's identity is its position in its collection. Nothing is
  ever deleted, so positions never change.
- `Auth` covers the two middleware functions. `ensureToken` takes the second
  space-separated piece of the `authorization` header, and `Split` models JavaScript's
  `split(" ")`. `verifyToken` uses a verification oracle passed in by the caller.
- `UserRoutes` has `validateInputs` and the register handler.
- `BookRoutes` has the catalog handlers: create, additive update, get and list.
- `LibraryRoutes` has borrow, return and the two ledger queries.
- `LibraryProperties` proves what holds over a whole serial run of loan requests.

Each state-changing handler is a module-level method that takes the store, a `Store.Db`,
and updates it in place. Its postcondition equates the
new store and the reply with a pure function of the old store: `BorrowOutcome`,
`ReturnOutcome`, `CreateOutcome`, `UpdateOutcome` or `RegisterOutcome`. The contracts of
those functions state the handler's rules, and the lemmas build on them.

Behaviour of the code that the model keeps as written:

- Return checks availability per book, not per user. A user with no open loan of a book
  can still return it. The available count goes up and no record is closed.
  `LibraryProperties.ReturnByAnotherUserStrandsLoan` shows that the real borrower's own
  return is then refused and the loan stays open. It stays open until someone borrows the
  book again; after that the borrower's return closes it
  (`LibraryProperties.StrandedLoanClosedAfterNextBorrow`).
- Return closes the first open loan of that user and book in store order, which is the
  earliest one created. After a borrow and a return, the new loan is closed exactly when
  that user had no older open loan of the same book. Otherwise the oldest open loan is
  closed and the new one stays open (`LibraryProperties.BorrowThenReturn`).
- Book names are unique only because create checks them. Update does not check names
  again, so two books can end up with the same name (`BookRoutes.UpdateCanDuplicateName`).
- Quantities have no bounds. Create accepts a negative total, and update accepts any
  quantity to add. The invariant `0 <= available <= total` holds only under the
  conditions that `BookRoutes.CreateBalancedIff` and `BookRoutes.UpdateBalancedIff` state.
- Registration stores the `isAdmin` flag taken from the request body, so anyone who
  registers can make themselves an admin.
- Borrow identifies the user by email. Create answers 404 "Book already exists" for a
  duplicate name.

## Model

| member | source | states |
|---|---|---|
| `LoanModel.NewLoan` | backend/Models/library.js:3-25 | a new record references the given user and book, is open, is borrowed at `now`, and is due 864,000,000 ms (ten days) later |
| `LoanModel.Closed` | backend/Routes/libraryroute.js:108-112 | marking a loan returned at `at` keeps its user, book and dates and sets `returnedAt` to `at` |
| `Store.FirstIndex` | backend/Routes/libraryroute.js:26 | `findOne`: the result is a matching position with no match before it, or `None` exactly when nothing matches |
| `Store.FindUserByEmail` | backend/Routes/libraryroute.js:26 | `usermodel.findOne({ email })`: the first user with that email, or `None` when there is none |
| `Store.FindBookByName` | backend/Routes/libraryroute.js:31 | `bookmodel.findOne({ name })`: the first book with that name, or `None` when there is none |
| `Store.FindBookByNameAgrees` | backend/Routes/libraryroute.js:41-45 | looking a name up again after only availability changed finds the same record |
| `Store.FindOpenLoan` | backend/Routes/libraryroute.js:108-109 | the filter `{ user, book, returnedAt: null }`: the first open loan of that user and book, or `None` |
| `Store.Db.InsertBook` | backend/Routes/bookroute.js:27-32 | `create` appends the record, returns its identity, and leaves the users and the ledger unchanged |
| `Store.Db.SetAvailableByName` | backend/Routes/libraryroute.js:41-45 | sets the available count of the first book with that name and changes nothing else; `None` when no book has that name |
| `Store.Db.SetBookById` | backend/Routes/bookroute.js:66-75 | replaces the four fields of the book with that identity, without schema validation; false when there is no such book |
| `Store.Db.InsertLoan` | backend/Routes/libraryroute.js:51-55 | appends the transaction to the ledger and changes nothing else |
| `Store.Db.CloseOpenLoan` | backend/Routes/libraryroute.js:108-112 | marks the first open loan of that user and book returned and gives back the updated record; with no open loan, gives `None` and changes nothing |
| `Store.Db.InsertUser` | backend/Routes/userroute.js:73-80 | appends the user and changes nothing else |
| `Auth.Split` | backend/auth/auth.js:15 | `split(" ")`: at least one piece, no piece holds a space, a single piece exactly when the string has no space, and joining the pieces with spaces gives back the string |
| `Auth.SplitJoin` | backend/auth/auth.js:15 | the other round trip: splitting space-free fields joined by spaces gives back the fields |
| `Auth.SplitAfterField` | backend/auth/auth.js:15 | a space-free first field followed by a space splits off as the first piece |
| `Auth.SplitHead` | backend/auth/auth.js:15-16 | a space-free field followed by nothing or by a space is the first piece |
| `Auth.SplitWithoutSpace` | backend/auth/auth.js:15-16 | a string without a space splits into itself alone |
| `Auth.BearerToken` | backend/auth/auth.js:15-16 | the token is undefined exactly when the header holds no space, and it never holds a space |
| `Auth.BearerTokenOf` | backend/auth/auth.js:15-17 | for `"<scheme> <token>"`, optionally followed by more space-separated text, the token is `<token>` |
| `Auth.Request.EnsureToken` | backend/auth/auth.js:12-24 | the next handler is called exactly when the header is present, even without a space; then `token` is the header's second piece; without a header it answers 403 and changes nothing |
| `Auth.Request.VerifyToken` | backend/auth/auth.js:33-44 | the next handler is called exactly when the oracle accepts the token; only then is `decoded` set, to the payload |
| `Auth.Request.Authenticate` | backend/auth/auth.js:12-44 | on a fresh request, the two middleware functions in a row yield a caller only if the header is present and the oracle accepts its token |
| `UserRoutes.SpecialCharsArePunctuation` | backend/Routes/userroute.js:40 | the special-character class is exactly the 32 ASCII punctuation characters |
| `UserRoutes.ValidateInputs` | backend/Routes/userroute.js:22-44 | input is accepted exactly when all six checks hold; a rejection names a failing check, and every check before it in the chain holds |
| `UserRoutes.EmailPatternAccepts` | backend/Routes/userroute.js:26-30 | "me@ex.com" matches the email pattern |
| `UserRoutes.EmailPatternAcceptsDots` | backend/Routes/userroute.js:26 | dots and dashes are allowed in the local part and the domain ("a.b-c@d.e.fr") |
| `UserRoutes.EmailPatternRefuses` | backend/Routes/userroute.js:26-30 | no `@`, a one-letter or a seven-letter top-level domain, or an empty local part fails the pattern |
| `UserRoutes.ShortPasswordRefused` | backend/Routes/userroute.js:34-36 | with a valid email, "short1" fails on length |
| `UserRoutes.PasswordWithoutSpecialRefused` | backend/Routes/userroute.js:37-43 | with a valid email, "password1" passes the digit check and fails the special-character check |
| `UserRoutes.StrongPasswordAccepted` | backend/Routes/userroute.js:22-44 | with a valid email, "password1!" passes every check |
| `UserRoutes.RegisterOutcome` | backend/Routes/userroute.js:58-88 | invalid input is answered with the first validation message and stores nothing; a registered email is refused and stores nothing; otherwise exactly one user is appended, with the given fields and the hashed password |
| `UserRoutes.RegisterKeepsEmailsDistinct` | backend/Routes/userroute.js:67-70 | registration keeps all emails distinct |
| `UserRoutes.Register` | backend/Routes/userroute.js:58-88 | the handler's effect on the users and its reply are those of `RegisterOutcome`; the catalog and the ledger are unchanged |
| `BookRoutes.CreateOutcome` | backend/Routes/bookroute.js:18-40 | a non-admin gets Forbidden; an existing name gets "Book already exists"; an empty name or author is refused by the store; each failure leaves the catalog unchanged; an admin's create with a new, non-empty name and a non-empty author always succeeds and appends one book with available equal to total |
| `BookRoutes.CreateBook` | backend/Routes/bookroute.js:18-40 | the handler's effect on the catalog and its reply are those of `CreateOutcome`; the users and the ledger are unchanged |
| `BookRoutes.UpdateOutcome` | backend/Routes/bookroute.js:54-84 | a non-admin gets Forbidden, an unknown identity gets not-found, and both leave the catalog unchanged; an admin's update of an existing identity always succeeds and changes only that book: name and author overwritten, the input added to both total and available, the number lent out unchanged |
| `BookRoutes.UpdateBook` | backend/Routes/bookroute.js:54-84 | the handler's effect on the catalog and its reply are those of `UpdateOutcome`; the users and the ledger are unchanged |
| `BookRoutes.GetBook` | backend/Routes/bookroute.js:119-127 | the book with that identity, `None` exactly when there is none |
| `BookRoutes.ListBooks` | backend/Routes/bookroute.js:98-105 | every book of the catalog, in store order |
| `BookRoutes.CreateBalancedIff` | backend/Models/book.js:12-17 | a created book satisfies `0 <= available <= total` exactly when its total is not negative, since the schema sets no bound |
| `BookRoutes.UpdateBalancedIff` | backend/Routes/bookroute.js:71-72 | an update keeps a balanced book balanced exactly when its available count stays non-negative |
| `BookRoutes.CreateKeepsNamesDistinct` | backend/Routes/bookroute.js:23-26 | create keeps all names distinct |
| `BookRoutes.UpdateCanDuplicateName` | backend/Routes/bookroute.js:66-75 | update does not check names again: renaming a book to another book's name is accepted and makes the names clash |
| `LibraryRoutes.BorrowOutcome` | backend/Routes/libraryroute.js:20-67 | a non-admin gets Forbidden; then unknown user, unknown book and no available copy are refused, in that order; every failure leaves the store unchanged; when all checks pass the borrow succeeds, lowers that book's available count by one, changes nothing else in the catalog, and appends and returns one open loan of the found user and book, borrowed now and due ten days later |
| `LibraryRoutes.Borrow` | backend/Routes/libraryroute.js:20-67 | the handler's effect on the store and its reply are those of `BorrowOutcome` |
| `LibraryRoutes.ReturnOutcome` | backend/Routes/libraryroute.js:81-119 | there is no role check; unknown user, unknown book, or available equal to total is refused and leaves the store unchanged; otherwise the return succeeds, raises that book's available count by one and marks returned only the first open loan of that user and book, leaving every other record as it was; without such a loan the reply is `None` |
| `LibraryRoutes.Return` | backend/Routes/libraryroute.js:81-119 | the handler's effect on the store and its reply are those of `ReturnOutcome` |
| `LibraryRoutes.UserTransactions` | backend/Routes/libraryroute.js:133-145 | only transactions of the given user, and each one as many times as in the ledger |
| `LibraryRoutes.AllTransactions` | backend/Routes/libraryroute.js:159-170 | the whole ledger, in store order |
| `LibraryProperties.BorrowKeepsConsistent` | backend/Routes/libraryroute.js:37-55 | a borrow keeps every book balanced and every transaction's references valid |
| `LibraryProperties.ReturnKeepsConsistent` | backend/Routes/libraryroute.js:94-112 | a return keeps every book balanced, because it refuses when nothing is lent out |
| `LibraryProperties.StepKeepsConsistent` | backend/Routes/libraryroute.js:20-119 | either request keeps the store consistent |
| `LibraryProperties.ServeKeepsConsistent` | backend/Routes/libraryroute.js:37-112 | any serial run of borrows and returns from a consistent store keeps `0 <= available <= total` for every book |
| `LibraryProperties.LedgerEvolvesTransitive` | backend/Models/library.js:22-24 | "the ledger only moves forward" composes across steps |
| `LibraryProperties.StepEvolves` | backend/Routes/libraryroute.js:51-55 | one request never removes a record, never changes a loan's user, book or dates, and never touches a returned loan |
| `LibraryProperties.ServeNeverReopens` | backend/Routes/libraryroute.js:108-112 | over any serial run, `returnedAt` is never reset to null and no record is lost |
| `LibraryProperties.BorrowThenReturn` | backend/Routes/libraryroute.js:41-112 | after a borrow, a return of the same book by the same user succeeds and restores the catalog; if that user had no older open loan of the book, it closes exactly the new loan, otherwise it closes the oldest open one and the new loan stays open |
| `LibraryProperties.DuneScenario` | backend/Routes/libraryroute.js:20-119 | two copies of "Dune": two borrows succeed and bring availability to 0, the third is refused, and the first user's return frees one copy and closes that user's loan |
| `LibraryProperties.ReturnByAnotherUserStrandsLoan` | backend/Routes/libraryroute.js:94-112 | after u1 borrows the only copy, u2's return succeeds with `None` and frees the copy; u1's own return is then refused and u1's loan stays open |
| `LibraryProperties.StrandedLoanClosedAfterNextBorrow` | backend/Routes/libraryroute.js:41-112 | after u2's stray return frees u1's copy, a borrow by u3 brings the count below the total again, and u1's return then succeeds and closes u1's loan |

## Left out

- The server setup in backend/index.js (Express, CORS, router mounting, database connection, listening port) is not part of this model. `Auth.Request.Authenticate` models only the order in which the middleware runs.
- Login (`POST /users/login`), `GET /users`, `GET /users/:id` and `GET /users/getuser` are not modelled. They depend on bcrypt and jwt or only read the user store.
- bcrypt and jwt are foreign libraries. The password hash is a function parameter, and token verification is an oracle parameter. The secret key and token expiry are not modelled.
- Auth.Request.VerifyToken: the oracle may accept `None`, the undefined token of a header without a space. `jwt.verify` always rejects a missing or empty token, so with the real library such a header never authenticates. The model does not promise that.
- UserRoutes.Register: the `hash` parameter is a deterministic function, but `bcrypt.hash` salts, so two registrations with the same password store different hashes in the source.
- `Date.now()` is a parameter `now` in milliseconds. JavaScript numbers and dates are modelled as unbounded integers.
- Concurrency is not modelled. Each handler is one atomic step, so the race between reading `availablequantity` and writing it back does not occur.
- `LibraryRoutes.Borrow` and `LibraryRoutes.Return` have no branch for the "Book not found or not updated" answer. The update runs in the same step, with the same name filter, as the read just before it, so it always finds the record.
- `populate` joins are left out. The queries return the transaction records themselves.
- HTTP status codes, JSON bodies and logging are left out. Replies are the `Replies.Reply` datatype; the comment on each failure gives its status and message.
- The `catch` blocks (500 on store errors) are left out, except for one case: create with an empty name or author, which the schema's `required` fields make the store refuse (`Replies.StoreRejected`).
- Request bodies are modelled as typed values. Missing fields (`undefined`), numbers sent as strings (where `+` would concatenate), and malformed identities (a cast error, which answers 500) are not modelled.
- LoanModel.NewLoan: gives `duedate` and `borrowedAt` the same `now`. The schema evaluates `Date.now()` separately for each, so the two can differ by a few milliseconds.
- Store.FirstIndex: takes the store's natural order to be insertion order. MongoDB does not promise this order without a sort.
- String lengths count Dafny characters, while JavaScript's `length` counts UTF-16 code units. The two agree on ASCII input.
- The user schema file is not part of this model. It is assumed to impose no validation of its own.
