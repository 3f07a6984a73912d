/**
 * signup, signin and verifyAuth. signup shares createUser's ladder with one more rung (a
 * password of at least six characters, checked before the table is consulted) and
 * answers with a signed token; signin looks the address up, compares the password with
 * the stored digest and answers with a token; verifyAuth re-reads the row a decoded
 * claim names.
 */
module AuthController {
  import opened Wrappers
  import opened JsStrings
  import opened EmailFormat
  import opened Oracles
  import opened Users
  import opened Http
  import opened AuthMiddleware
  import UserController

  const MinPasswordLength := 6

  /** The validation ladder of signup: presence, the address pattern, the password
      length, then uniqueness. */
  function SignupRejection(t: Table, b: UserBody): (r: Option<Rejection>)
    ensures r == Some(MissingField) <==> !AllPresent(b)
    ensures r == Some(MalformedEmail) <==> AllPresent(b) && !MatchesPattern(b.email.value)
    ensures r == Some(ShortPassword) <==>
      AllPresent(b) && MatchesPattern(b.email.value) && |b.password.value| < MinPasswordLength
    ensures r == Some(EmailTaken) <==>
      AllPresent(b) && MatchesPattern(b.email.value) && |b.password.value| >= MinPasswordLength
      && EmailInUse(t, b.email.value)
    ensures r == None <==>
      AllPresent(b) && MatchesPattern(b.email.value) && |b.password.value| >= MinPasswordLength
      && !EmailInUse(t, b.email.value)
  {
    if !AllPresent(b) then Some(MissingField)
    else
      IsEmailMatchesPattern(b.email.value);
      if !IsEmail(b.email.value) then Some(MalformedEmail)
      else if |b.password.value| < MinPasswordLength then Some(ShortPassword)
      else if EmailInUse(t, b.email.value) then Some(EmailTaken)
      else None
  }

  /** The two ladders differ in one rung only: signup adds the length check, and puts it
      ahead of the uniqueness check. */
  lemma SignupLadderExtendsCreate(t: Table, b: UserBody)
    ensures var c := UserController.CreateRejection(t, b);
      SignupRejection(t, b) ==
        if (c.None? || c == Some(EmailTaken)) && |b.password.value| < MinPasswordLength
        then Some(ShortPassword) else c
  {
    var c := UserController.CreateRejection(t, b);
    var s := SignupRejection(t, b);
    if c == Some(MissingField) {
      assert s == Some(MissingField);
    } else if c == Some(MalformedEmail) {
      assert s == Some(MalformedEmail);
    } else if |b.password.value| < MinPasswordLength {
      assert s == Some(ShortPassword);
    } else if c == Some(EmailTaken) {
      assert s == Some(EmailTaken);
    } else {
      assert s == None;
    }
  }

  /** signup: on any rejection the table is untouched; otherwise exactly one row is added,
      and the answer is that row without its password plus a token over its id and email. */
  method Signup(store: UserStore, b: UserBody, hasher: PasswordHasher, salt: nat, now: int,
                signer: TokenSigner)
    returns (r: Response)
    requires store.Valid()
    modifies store
    ensures store.Valid() && Enveloped(r)
    ensures SignupRejection(old(store.rows), b).Some? ==>
      && r == Response(StatusOf(SignupRejection(old(store.rows), b).value), Failure)
      && store.rows == old(store.rows) && store.nextId == old(store.nextId)
    ensures SignupRejection(old(store.rows), b).None? ==>
      var row := InsertedRow(old(store.nextId), b, hasher, salt, now);
      && row.id !in old(store.rows)
      && store.rows == old(store.rows)[row.id := row]
      && store.nextId == old(store.nextId) + 1
      && r == Response(Created, Session(PublicView(row), signer.sign(Claim(row.id, row.email))))
  {
    var rejection := SignupRejection(store.rows, b);
    if rejection.Some? {
      return Response(StatusOf(rejection.value), Failure);
    }
    var hashed := hasher.hash(b.password.value, salt);
    var inserted := store.Insert(b.name.value, b.email.value, hashed, now);
    match inserted
    case None =>
      r := Response(InternalError, Failure);
    case Some(newUser) =>
      var token := signer.sign(Claim(newUser.id, newUser.email));
      r := Response(Created, Session(PublicView(newUser), token));
  }

  /** signin: 400 without both fields, 404 when no row has the address, 401 when the
      password does not match the stored digest, else the row without its password and a
      token over its id and email. The table is only read. */
  function Signin(t: Table, c: Credentials, hasher: PasswordHasher, signer: TokenSigner): (r: Response)
    requires UniqueEmails(t)
    ensures Enveloped(r)
    ensures !Present(c.email) || !Present(c.password) ==> r == Response(BadRequest, Failure)
    ensures Present(c.email) && Present(c.password) && !EmailInUse(t, c.email.value) ==>
      r == Response(NotFound, Failure)
    ensures forall k :: Present(c.email) && Present(c.password) && k in t && t[k].email == c.email.value ==>
      r == if hasher.compare(c.password.value, t[k].password)
           then Response(Ok, Session(PublicView(t[k]), signer.sign(Claim(t[k].id, t[k].email))))
           else Response(Unauthorized, Failure)
  {
    if !Present(c.email) || !Present(c.password) then Response(BadRequest, Failure)
    else
      match FindByEmail(t, c.email.value)
      case None => Response(NotFound, Failure)
      case Some(user) =>
        if !hasher.compare(c.password.value, user.password) then Response(Unauthorized, Failure)
        else
          var token := signer.sign(Claim(user.id, user.email));
          Response(Ok, Session(PublicView(user), token))
  }

  /** verifyAuth: the row the claim's id names, without its password; 404 if it is gone.
      The claim's email is not consulted. */
  function VerifyAuth(t: Table, user: Claim): (r: Response)
    ensures Enveloped(r)
    ensures user.id !in t ==> r == Response(NotFound, Failure)
    ensures user.id in t ==> r == Response(Ok, Identity(PublicView(t[user.id])))
  {
    if user.id in t then Response(Ok, Identity(PublicView(t[user.id]))) else Response(NotFound, Failure)
  }

  lemma AddRowKeepsUnique(t: Table, id: int, row: Row)
    requires UniqueEmails(t) && id !in t && !EmailInUse(t, row.email)
    ensures UniqueEmails(t[id := row])
  {
  }

  /** After a successful signup, signing in with the same address and password succeeds
      and returns the new row and a token over its id and email. */
  lemma SigninAfterSignup(t: Table, b: UserBody, id: int, hasher: PasswordHasher, salt: nat,
                          now: int, signer: TokenSigner)
    requires UniqueEmails(t) && id !in t && SignupRejection(t, b).None? && HashRoundTrip(hasher)
    ensures var row := InsertedRow(id, b, hasher, salt, now);
      && UniqueEmails(t[id := row])
      && Signin(t[id := row], Credentials(b.email, b.password), hasher, signer)
         == Response(Ok, Session(PublicView(row), signer.sign(Claim(id, b.email.value))))
  {
    var row := InsertedRow(id, b, hasher, salt, now);
    var t' := t[id := row];
    AddRowKeepsUnique(t, id, row);
    assert t'[id].email == b.email.value;
    assert hasher.compare(b.password.value, row.password);
  }

  /** After a successful signup, a second signup with the same address is a conflict. */
  lemma SecondSignupConflicts(t: Table, b: UserBody, id: int, hasher: PasswordHasher, salt: nat,
                              now: int, again: UserBody)
    requires SignupRejection(t, b).None? && again.email == b.email
    requires Present(again.name) && Present(again.password) && |again.password.value| >= MinPasswordLength
    ensures SignupRejection(t[id := InsertedRow(id, b, hasher, salt, now)], again) == Some(EmailTaken)
  {
    var t' := t[id := InsertedRow(id, b, hasher, salt, now)];
    assert t'[id].email == again.email.value;
  }

  /** The token signup or signin hands out, sent back as `Authorization: <scheme> <token>`,
      passes verifyToken and lets verifyAuth answer with the same row. */
  lemma IssuedTokenVerifies(t: Table, row: Row, scheme: string, signer: TokenSigner)
    requires row.id in t && t[row.id] == row
    requires ' ' !in scheme && SignRoundTrip(signer)
    ensures var gate := VerifyToken(Some(scheme + " " + signer.sign(Claim(row.id, row.email))), signer);
      gate == Next(Claim(row.id, row.email))
      && VerifyAuth(t, gate.user) == Response(Ok, Identity(PublicView(row)))
  {
    SignedTokenPasses(scheme, signer, Claim(row.id, row.email));
  }
}
