/** Vocabulary shared by every part of the club store: identifiers, optional
    request values, roles, and the HTTP outcomes a controller action answers
    with. */
module Common {

  /** A database identifier (a MongoDB ObjectId). Identifiers are only ever
      compared for equality; the store hands out fresh ones from a counter,
      which is why they are numbers here. */
  type Id = nat

  datatype Option<T> = None | Some(value: T)

  /** The role recorded on a user account. */
  datatype Role = Student | Admin

  /** The outcome of a controller action, one constructor per HTTP status
      the controllers send: 200, 201, 400, 401, 404 and 500. */
  datatype Status = Ok | Created | BadRequest | Unauthorized | NotFound | ServerError

  /** The schema default for the `banner` path of clubs and events. */
  const PlaceholderBanner: string := "https://via.placeholder.com/400x200"

  /** A string field of a request body: `None` when the field is absent.
      JavaScript treats an absent field and the empty string as falsy. */
  predicate Truthy(v: Option<string>) {
    v.Some? && v.value != ""
  }

  /** `supplied || current` for a string field of a request body. */
  function Or(supplied: Option<string>, current: string): (r: string)
    ensures Truthy(supplied) ==> r == supplied.value
    ensures !Truthy(supplied) ==> r == current
    ensures current != "" ==> r != ""
  {
    if Truthy(supplied) then supplied.value else current
  }

  /** The value Mongoose stores for a string field built from a request
      field: an absent field leaves the path unset, which the model writes
      as the empty string (the `required` validator rejects both alike). */
  function ValueOf(supplied: Option<string>): (r: string)
    ensures r != "" <==> Truthy(supplied)
  {
    if supplied.Some? then supplied.value else ""
  }
}
