/**
 * What a route handler answers, without HTTP status codes or JSON bodies.
 * Each failure is commented with the status and message the handler sends.
 */
module Replies {

  datatype Failure =
    | Forbidden                   // 403 "Forbidden"
    | UserNotFound                // 404 "User not found"
    | BookNotFound                // 404 "Book not found"
    | NoAvailableCopies           // 404 "No available copies of the book so unable to borrow"
    | UnableToReturn              // 404 "Unable to return"
    | BookAlreadyExists           // 404 "Book already exists"
    | UserAlreadyExists           // 400 "User already exists"
    | BadRequest(message: string) // 400 with the validation message
    | StoreRejected               // 500: the store refused the document (schema validation)

  datatype Reply<+T> = Ok(value: T) | Fail(failure: Failure)
}
