/**
 * Registration (backend/Routes/userroute.js): the input validator `validateInputs` and the
 * `POST /users/register` handler. Login and the user queries are not part of this model.
 */
module UserRoutes {

  import opened Wrappers
  import opened Replies
  import opened UserModel
  import opened Store

  /** The errors `validateInputs` throws, in the order it checks for them. */
  datatype ValidationError =
    | EmailEmpty
    | InvalidEmail
    | PasswordEmpty
    | PasswordTooShort
    | NoDigit
    | NoSpecialChar

  /** The message of each error; registration answers 400 with it. */
  function Message(e: ValidationError): string
  {
    match e
    case EmailEmpty => "EmailId is empty"
    case InvalidEmail => "Invalid email address"
    case PasswordEmpty => "Password is empty"
    case PasswordTooShort => "Minimum 8 characters"
    case NoDigit => "Minimum one number required"
    case NoSpecialChar => "Minimum one special character required"
  }

  predicate IsLetter(c: char) { 'a' <= c <= 'z' || 'A' <= c <= 'Z' }

  /** `\d` of a JavaScript regular expression: an ASCII digit. */
  predicate IsDigit(c: char) { '0' <= c <= '9' }

  /** `[a-zA-Z0-9_\.\-]`, the characters of the part before the `@`. */
  predicate IsLocalChar(c: char) { IsLetter(c) || IsDigit(c) || c == '_' || c == '.' || c == '-' }

  /** `[\da-zA-Z\.\-]`, the characters of the domain. */
  predicate IsDomainChar(c: char) { IsDigit(c) || IsLetter(c) || c == '.' || c == '-' }

  /** `[a-zA-Z\.]`, the characters of the top-level domain. */
  predicate IsTldChar(c: char) { IsLetter(c) || c == '.' }

  /**
   * The email pattern `^([a-zA-Z0-9_\.\-]+)@([\da-zA-Z\.\-]+)\.([a-zA-Z\.]{2,6})$`:
   * the string splits at some `@` and some later `.` into a non-empty local part, a
   * non-empty domain and a top-level domain of 2 to 6 characters.
   */
  predicate MatchesEmailPattern(s: string)
  {
    exists at, dot | 0 < at && at + 1 < dot < |s| ::
      && s[at] == '@'
      && s[dot] == '.'
      && 2 <= |s| - dot - 1 <= 6
      && (forall c | c in s[..at] :: IsLocalChar(c))
      && (forall c | c in s[at + 1..dot] :: IsDomainChar(c))
      && (forall c | c in s[dot + 1..] :: IsTldChar(c))
  }

  /** The characters of the special-character class of the password check. */
  const SPECIAL_CHARS: string := "`!@#$%^&*()_+-=[]{};':\"\\|,.<>/?~"

  predicate HasDigit(p: string) { exists c | c in p :: IsDigit(c) }

  predicate HasSpecialChar(p: string) { exists c | c in p :: c in SPECIAL_CHARS }

  /** The special-character class is exactly the 32 ASCII punctuation characters. */
  lemma SpecialCharsArePunctuation(c: char)
    ensures c in SPECIAL_CHARS <==> '!' <= c <= '/' || ':' <= c <= '@' || '[' <= c <= '`' || '{' <= c <= '~'
  {
  }

  /** The condition whose failure makes `validateInputs` throw `e`. */
  predicate Holds(e: ValidationError, email: string, password: string)
  {
    match e
    case EmailEmpty => email != ""
    case InvalidEmail => MatchesEmailPattern(email)
    case PasswordEmpty => password != ""
    case PasswordTooShort => |password| >= 8
    case NoDigit => HasDigit(password)
    case NoSpecialChar => HasSpecialChar(password)
  }

  /** The position of the check for `e` in the chain. */
  function Rank(e: ValidationError): nat
  {
    match e
    case EmailEmpty => 0
    case InvalidEmail => 1
    case PasswordEmpty => 2
    case PasswordTooShort => 3
    case NoDigit => 4
    case NoSpecialChar => 5
  }

  datatype Verdict = Accepted | Rejected(error: ValidationError)

  /**
   * `validateInputs(email, password)`: the inputs are accepted exactly when every check
   * holds; otherwise the error reported is that of the first check, in chain order, that fails.
   */
  function ValidateInputs(email: string, password: string): (r: Verdict)
    ensures r.Rejected? ==> !Holds(r.error, email, password)
    ensures r.Rejected? ==> forall e | Rank(e) < Rank(r.error) :: Holds(e, email, password)
    ensures r.Accepted? <==> forall e :: Holds(e, email, password)
  {
    if email == "" then Rejected(EmailEmpty)
    else if !MatchesEmailPattern(email) then Rejected(InvalidEmail)
    else if password == "" then Rejected(PasswordEmpty)
    else if |password| < 8 then Rejected(PasswordTooShort)
    else if !HasDigit(password) then Rejected(NoDigit)
    else if !HasSpecialChar(password) then Rejected(NoSpecialChar)
    else Accepted
  }

  /** The body of `POST /users/register`. */
  datatype Registration = Registration(
    username: string,
    name: string,
    email: string,
    password: string,
    contactNo: string,
    isAdmin: bool)

  /** The record registration stores; `hash` stands for `bcrypt.hash(password, 10)`. */
  function NewUser(form: Registration, hash: string -> string): User
  {
    User(form.username, form.name, form.email, hash(form.password), form.contactNo, form.isAdmin)
  }

  /**
   * The effect of `POST /users/register` on the users and its reply: invalid input is
   * answered with the first validation message and nothing is stored; a registered email
   * is refused; otherwise exactly one user, with the given fields and the hashed
   * password, is appended.
   */
  function RegisterOutcome(users: seq<User>, form: Registration, hash: string -> string): (r: (seq<User>, Reply<()>))
    ensures ValidateInputs(form.email, form.password).Rejected? ==>
      r == (users, Fail(BadRequest(Message(ValidateInputs(form.email, form.password).error))))
    ensures ValidateInputs(form.email, form.password).Accepted? ==>
      (r.1 == Fail(UserAlreadyExists) <==> exists i | 0 <= i < |users| :: users[i].email == form.email)
    ensures r.1.Ok? <==>
      ValidateInputs(form.email, form.password).Accepted? &&
      forall i | 0 <= i < |users| :: users[i].email != form.email
    ensures r.1.Fail? ==> r.0 == users
    ensures r.1.Ok? ==> r.0 == users + [NewUser(form, hash)]
  {
    match ValidateInputs(form.email, form.password)
    case Rejected(e) => (users, Fail(BadRequest(Message(e))))
    case Accepted =>
      if FindUserByEmail(users, form.email).Some? then (users, Fail(UserAlreadyExists))
      else (users + [NewUser(form, hash)], Ok(()))
  }

  /** Registration never lets two users share an email. */
  lemma RegisterKeepsEmailsDistinct(users: seq<User>, form: Registration, hash: string -> string)
    requires DistinctEmails(users)
    ensures DistinctEmails(RegisterOutcome(users, form, hash).0)
  {
  }

  /**
   * `POST /users/register`: validation runs before the store is read, the duplicate
   * lookup before anything is written.
   */
  method Register(db: Db, form: Registration, hash: string -> string) returns (reply: Reply<()>)
    modifies db
    ensures (db.users, reply) == RegisterOutcome(old(db.users), form, hash)
    ensures db.books == old(db.books) && db.ledger == old(db.ledger)
  {
    var verdict := ValidateInputs(form.email, form.password);
    if verdict.Rejected? {
      return Fail(BadRequest(Message(verdict.error)));
    }
    var existing := FindUserByEmail(db.users, form.email);
    if existing.Some? {
      return Fail(UserAlreadyExists);
    }
    var id := db.InsertUser(NewUser(form, hash));
    return Ok(());
  }

  /** An address the email pattern accepts. */
  lemma EmailPatternAccepts()
    ensures MatchesEmailPattern("me@ex.com")
  {
    var s := "me@ex.com";
    assert s[2] == '@' && s[5] == '.';
    assert s[..2] == "me";
    assert s[3..5] == "ex";
    assert s[6..] == "com";
  }

  /** Dots and dashes may appear in the local part and the domain. */
  lemma EmailPatternAcceptsDots()
    ensures MatchesEmailPattern("a.b-c@d.e.fr")
  {
    var t := "a.b-c@d.e.fr";
    assert t[5] == '@' && t[9] == '.';
    assert t[..5] == "a.b-c";
    assert t[6..9] == "d.e";
    assert t[10..] == "fr";
  }

  /** Addresses the email pattern refuses: no `@`, a top-level domain too short or too long, an empty local part. */
  lemma EmailPatternRefuses()
    ensures !MatchesEmailPattern("user.example.com")
    ensures !MatchesEmailPattern("user@example.c")
    ensures !MatchesEmailPattern("user@example.abcdefg")
    ensures !MatchesEmailPattern("@example.com")
  {
  }

  /** "short1" is refused for its length. */
  lemma ShortPasswordRefused()
    ensures ValidateInputs("me@ex.com", "short1") == Rejected(PasswordTooShort)
  {
    EmailPatternAccepts();
  }

  /** "password1" is refused for want of a special character. */
  lemma PasswordWithoutSpecialRefused()
    ensures ValidateInputs("me@ex.com", "password1") == Rejected(NoSpecialChar)
  {
    EmailPatternAccepts();
    assert '1' in "password1";
    forall c | c in "password1"
      ensures c !in SPECIAL_CHARS
    {
      SpecialCharsArePunctuation(c);
    }
  }

  /** "password1!" passes every check. */
  lemma StrongPasswordAccepted()
    ensures ValidateInputs("me@ex.com", "password1!") == Accepted
  {
    EmailPatternAccepts();
    assert '1' in "password1!" && '!' in "password1!";
  }
}
