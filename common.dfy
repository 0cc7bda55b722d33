/** Values shared by every part of the catalog model. */
module Common {

  /** A MongoDB ObjectId; records and users are both identified by one. */
  type Id = nat

  /** One octet of a Node `Buffer`. */
  type byte = x: int | 0 <= x < 256

  datatype Option<+T> = None | Some(value: T)

  /** The ways a request can end without changing the store as asked. */
  datatype Error =
    | Unauthenticated    // `checkAuthenticated` sends the caller to /login
    | NotFound           // `findById` found no record
    | NotOwner           // the owner check sends the caller back to /
    | ValidationFailed   // a required schema field is missing or blank
    | DuplicateName      // the unique index on Author.name
    | DuplicateTitle     // the unique index on Book.title
    | HasDependentBooks  // the pre("remove") hook of Author found books
    | StoreError         // the hook's own Book.find failed

  datatype Result<+T> = Ok(value: T) | Err(error: Error)

  datatype Outcome = Pass | Fail(error: Error)

  /** Mongoose's `required` check for a String path: set, and not the empty string. */
  predicate Present(s: Option<string>)
  {
    s.Some? && s.value != ""
  }
}
