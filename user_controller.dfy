/**
 * The five CRUD handlers over the users table. The two reads are functions of the
 * table; create, update and delete are methods on the store. Every handler answers
 * with a status code and a payload shape; the reads return rows with their password
 * column, the writes return rows without it.
 */
module UserController {
  import opened Wrappers
  import opened JsStrings
  import opened EmailFormat
  import opened Oracles
  import opened Users
  import opened Http

  /** getAllUsers: every row, ascending by id, and their number. */
  function GetAllUsers(t: Table): (r: Response)
    requires WellKeyed(t)
    ensures r.status == Ok && r.body.UserList?
    ensures r.body.count == |r.body.rows| == |t|
    ensures forall i, j :: 0 <= i < j < |r.body.rows| ==> r.body.rows[i].id < r.body.rows[j].id
    ensures forall i :: 0 <= i < |r.body.rows| ==> r.body.rows[i].id in t && t[r.body.rows[i].id] == r.body.rows[i]
    ensures forall k :: k in t ==> t[k] in r.body.rows
  {
    var rows := RowsById(t);
    Response(Ok, UserList(rows, |rows|))
  }

  /** getUserById: 400 for an id that parses to NaN, 404 for an id with no row, else the
      whole row including its password digest. */
  function GetUserById(t: Table, rawId: string): (r: Response)
    ensures Enveloped(r)
    ensures ParseInt(rawId).None? ==> r.status == BadRequest
    ensures ParseInt(rawId).Some? && ParseInt(rawId).value !in t ==> r.status == NotFound
    ensures ParseInt(rawId).Some? && ParseInt(rawId).value in t ==>
      r == Response(Ok, FullUser(t[ParseInt(rawId).value]))
  {
    match ParseInt(rawId)
    case None => Response(BadRequest, Failure)
    case Some(id) => if id in t then Response(Ok, FullUser(t[id])) else Response(NotFound, Failure)
  }

  /** The validation ladder of createUser: presence, then the address pattern, then
      uniqueness. No minimum password length. */
  function CreateRejection(t: Table, b: UserBody): (r: Option<Rejection>)
    ensures r != Some(ShortPassword)
    ensures r == Some(MissingField) <==> !AllPresent(b)
    ensures r == Some(MalformedEmail) <==> AllPresent(b) && !MatchesPattern(b.email.value)
    ensures r == Some(EmailTaken) <==>
      AllPresent(b) && MatchesPattern(b.email.value) && EmailInUse(t, b.email.value)
    ensures r == None <==>
      AllPresent(b) && MatchesPattern(b.email.value) && !EmailInUse(t, b.email.value)
  {
    if !AllPresent(b) then Some(MissingField)
    else
      IsEmailMatchesPattern(b.email.value);
      if !IsEmail(b.email.value) then Some(MalformedEmail)
      else if EmailInUse(t, b.email.value) then Some(EmailTaken)
      else None
  }

  /** createUser: on any rejection the table is untouched; otherwise exactly one row is
      added under a fresh serial id, holding the digest of the given password, and the
      answer is that row without its password. */
  method CreateUser(store: UserStore, b: UserBody, hasher: PasswordHasher, salt: nat, now: int)
    returns (r: Response)
    requires store.Valid()
    modifies store
    ensures store.Valid() && Enveloped(r)
    ensures CreateRejection(old(store.rows), b).Some? ==>
      && r == Response(StatusOf(CreateRejection(old(store.rows), b).value), Failure)
      && store.rows == old(store.rows) && store.nextId == old(store.nextId)
    ensures CreateRejection(old(store.rows), b).None? ==>
      var row := InsertedRow(old(store.nextId), b, hasher, salt, now);
      && row.id !in old(store.rows)
      && store.rows == old(store.rows)[row.id := row]
      && store.nextId == old(store.nextId) + 1
      && r == Response(Created, PublicUser(PublicView(row)))
      && GetUserById(store.rows, DecimalString(row.id)) == Response(Ok, FullUser(row))
  {
    var rejection := CreateRejection(store.rows, b);
    if rejection.Some? {
      return Response(StatusOf(rejection.value), Failure);
    }
    var hashed := hasher.hash(b.password.value, salt);
    var inserted := store.Insert(b.name.value, b.email.value, hashed, now);
    match inserted
    case None =>
      r := Response(InternalError, Failure);
    case Some(row) =>
      ParseIntDecimal(row.id, "");
      assert DecimalString(row.id) + "" == DecimalString(row.id);
      r := Response(Created, PublicUser(PublicView(row)));
  }

  /** updateUser: 400 for a NaN id, 404 for an absent one; otherwise name and email fall
      back to their stored values when missing, the stored digest is kept unless a password
      is given, and no other row changes. An email another row holds is refused by the
      table's unique constraint, which the handler reports as 500. */
  method UpdateUser(store: UserStore, rawId: string, b: UserBody, hasher: PasswordHasher, salt: nat)
    returns (r: Response)
    requires store.Valid()
    modifies store
    ensures store.Valid() && Enveloped(r) && store.nextId == old(store.nextId)
    ensures ParseInt(rawId).None? ==> r.status == BadRequest && store.rows == old(store.rows)
    ensures ParseInt(rawId).Some? && ParseInt(rawId).value !in old(store.rows) ==>
      r.status == NotFound && store.rows == old(store.rows)
    ensures ParseInt(rawId).Some? && ParseInt(rawId).value in old(store.rows) ==>
      var id := ParseInt(rawId).value;
      var before := old(store.rows)[id];
      var email := OrElse(b.email, before.email);
      var after := Row(id, OrElse(b.name, before.name), email,
        if Present(b.password) then hasher.hash(b.password.value, salt) else before.password,
        before.createdAt);
      if EmailHeldByOther(old(store.rows), id, email) then
        r.status == InternalError && store.rows == old(store.rows)
      else
        && r == Response(Ok, PublicUser(PublicView(after)))
        && store.rows == old(store.rows)[id := after]
        && GetUserById(store.rows, rawId) == Response(Ok, FullUser(after))
    ensures r.status == Ok && !Present(b.password) ==>
      var id := ParseInt(rawId).value;
      id in store.rows && store.rows[id].password == old(store.rows)[id].password
    ensures forall k :: k in old(store.rows) && Some(k) != ParseInt(rawId) ==>
      k in store.rows && store.rows[k] == old(store.rows)[k]
  {
    var parsed := ParseInt(rawId);
    if parsed.None? {
      return Response(BadRequest, Failure);
    }
    var id := parsed.value;
    if id !in store.rows {
      return Response(NotFound, Failure);
    }
    var existing := store.rows[id];
    var hashed := existing.password;
    if Present(b.password) {
      hashed := hasher.hash(b.password.value, salt);
    }
    var updated := store.Update(id, OrElse(b.name, existing.name), OrElse(b.email, existing.email), hashed);
    match updated
    case None =>
      r := Response(InternalError, Failure);
    case Some(row) =>
      r := Response(Ok, PublicUser(PublicView(row)));
  }

  /** deleteUser: 400 for a NaN id, 404 when no row was removed, else that row and only it
      is gone; afterwards getUserById with the same path segment finds nothing. */
  method DeleteUser(store: UserStore, rawId: string) returns (r: Response)
    requires store.Valid()
    modifies store
    ensures store.Valid() && Enveloped(r) && store.nextId == old(store.nextId)
    ensures ParseInt(rawId).None? ==> r.status == BadRequest && store.rows == old(store.rows)
    ensures ParseInt(rawId).Some? && ParseInt(rawId).value !in old(store.rows) ==>
      r.status == NotFound && store.rows == old(store.rows)
    ensures ParseInt(rawId).Some? && ParseInt(rawId).value in old(store.rows) ==>
      r == Response(Ok, Message) && store.rows == old(store.rows) - {ParseInt(rawId).value}
    ensures GetUserById(store.rows, rawId).status == if ParseInt(rawId).None? then BadRequest else NotFound
  {
    r := DeleteParsed(store, ParseInt(rawId));
  }

  /** deleteUser from the point where `parseInt` has read the id (None for NaN). */
  method DeleteParsed(store: UserStore, parsed: Option<int>) returns (r: Response)
    requires store.Valid()
    modifies store
    ensures store.Valid() && Enveloped(r) && store.nextId == old(store.nextId)
    ensures parsed.None? ==> r.status == BadRequest && store.rows == old(store.rows)
    ensures parsed.Some? && parsed.value !in old(store.rows) ==>
      r.status == NotFound && store.rows == old(store.rows)
    ensures parsed.Some? && parsed.value in old(store.rows) ==>
      r == Response(Ok, Message) && store.rows == old(store.rows) - {parsed.value}
    ensures parsed.Some? ==> parsed.value !in store.rows
  {
    if parsed.None? {
      return Response(BadRequest, Failure);
    }
    var count := store.Delete(parsed.value);
    if count == 0 {
      return Response(NotFound, Failure);
    }
    r := Response(Ok, Message);
  }
}
