/**
 * The User record that registration stores. Its schema file is not part of this model;
 * the record holds the fields the register route writes, the password as an opaque hash.
 */
module UserModel {

  datatype User = User(
    username: string,
    name: string,
    email: string,
    passwordHash: string,
    contactNo: string,
    isAdmin: bool)

  /** No two users share an email address. */
  predicate DistinctEmails(users: seq<User>)
  {
    forall i, j | 0 <= i < j < |users| :: users[i].email != users[j].email
  }
}
