/**
 * What the handlers receive and answer. A request body is reduced to the fields the
 * handlers destructure; a field is missing when it is absent or the empty string (both
 * are falsy in JavaScript). A response is a status code and the shape of its JSON
 * payload; message strings are not modelled.
 */
module Http {
  import opened Wrappers
  import opened Oracles
  import opened Users

  const Ok := 200
  const Created := 201
  const BadRequest := 400
  const Unauthorized := 401
  const Forbidden := 403
  const NotFound := 404
  const Conflict := 409
  const InternalError := 500

  /** `{ name, email, password } = req.body` */
  datatype UserBody = UserBody(name: Option<string>, email: Option<string>, password: Option<string>)

  /** `{ email, password } = req.body` for sign-in. */
  datatype Credentials = Credentials(email: Option<string>, password: Option<string>)

  /** JavaScript truthiness of a string field. */
  predicate Present(field: Option<string>)
    ensures Present(field) <==> field != None && field != Some("")
  {
    field.Some? && field.value != ""
  }

  /** `name && email && password`, the shared first rung of createUser and signup. */
  predicate AllPresent(b: UserBody)
    ensures AllPresent(b) ==> b.name.Some? && b.email.Some? && b.password.Some?
    ensures AllPresent(b) <==> None !in [b.name, b.email, b.password] && Some("") !in [b.name, b.email, b.password]
  {
    Present(b.name) && Present(b.email) && Present(b.password)
  }

  /** `field || fallback` on a string field. */
  function OrElse(field: Option<string>, fallback: string): (r: string)
    ensures Present(field) ==> r == field.value
    ensures !Present(field) ==> r == fallback
  {
    if Present(field) then field.value else fallback
  }

  /** The row an INSERT of `(name, email, hashedPassword)` creates under serial id `id`. */
  function InsertedRow(id: int, b: UserBody, hasher: PasswordHasher, salt: nat, now: int): Row
    requires AllPresent(b)
  {
    Row(id, b.name.value, b.email.value, hasher.hash(b.password.value, salt), now)
  }

  datatype Body =
    | Failure                                 // { success: false, message }
    | UserList(rows: seq<Row>, count: nat)    // { success, data: rows, count }
    | FullUser(row: Row)                      // { success, data: row } with its password
    | PublicUser(user: PublicRow)             // { success, message, data: user }
    | Message                                 // { success, message }
    | Session(user: PublicRow, token: Token)  // { success, message, data: { user, token } }
    | Identity(user: PublicRow)               // { success, message, data: { user } }

  datatype Response = Response(status: int, body: Body)

  /** Every error status carries the failure envelope and no success status does. */
  predicate Enveloped(r: Response) {
    r.body.Failure? <==> r.status >= 400
  }

  /** The rungs of the validation ladders of createUser and signup. */
  datatype Rejection = MissingField | MalformedEmail | ShortPassword | EmailTaken

  function StatusOf(rejection: Rejection): (status: int)
    ensures status == BadRequest || status == Conflict
    ensures status == Conflict <==> rejection == EmailTaken
  {
    if rejection == EmailTaken then Conflict else BadRequest
  }
}
