# Users and authentication backend, modelled in Dafny

This project models the request-handling logic of a small Express backend. The backend has sign-up/sign-in with bcrypt digests and JSON Web Tokens, and CRUD handlers over one `users` table. Each handler becomes one operation over an in-memory model of the table. The operation gives back a status code and the shape of its JSON payload, and it may change the table.

- `users.dfy` (`Users`) holds the table and its rows. `Row` is a row as `SELECT *` returns it. `PublicRow` is the same row without the password column. `Table` maps each serial id to its row. `UserStore` is a class whose `rows` and `nextId` fields stand for the table and its `serial` sequence. Its `Insert`, `Update` and `Delete` methods are the three SQL statements the handlers issue. `Valid()` is the table's invariant: every key is its row's id, no two rows share an email, and every id is below the sequence's next value.
- `user_controller.dfy` (`UserController`) has getAllUsers, getUserById, createUser, updateUser and deleteUser.
- `auth_controller.dfy` (`AuthController`) has signup, signin and verifyAuth, plus lemmas that chain them: sign in after sign up, a second sign-up with the same address, and a token handed out and then presented.
- `auth_middleware.dfy` (`AuthMiddleware`) has verifyToken. It either answers itself (`Reject(status)`) or hands on to the next handler with the decoded claim set as `req.user` (`Next(claim)`).
- `email_format.dfy` (`EmailFormat`) models the address check `^[^\s@]+@[^\s@]+\.[^\s@]+$`. `IsEmail` is the procedure the handlers call. `MatchesPattern` reads the expression as a grammar. A lemma proves the two agree on every string.
- `js_strings.dfy` (`JsStrings`) models three JavaScript built-ins. The first is the white-space class that `\s` and `parseInt` share. The second is `parseInt` followed by `isNaN`, where None stands for NaN. The third is `split(" ")`.
- `oracles.dfy` (`Oracles`) stands for bcrypt and jsonwebtoken. They appear only as function-valued parameters. `PasswordHasher` holds `hash(plaintext, salt)` and `compare(plaintext, digest)`. `TokenSigner` holds `sign(claim)` and `verify(token)`. bcrypt draws its salt at random, so the salt is a parameter of every operation that hashes; the row creation time (`now`) is a parameter too. `HashRoundTrip` and `SignRoundTrip` state what these libraries promise. Only the lemmas that need those promises assume them.
- `http.dfy` (`Http`) holds the request bodies, the response shapes and the status codes. A body field is an `Option<string>`. It counts as missing when it is absent or `""`, as JavaScript truthiness does.

Behaviour of the handlers worth noting:
- An id is whatever leading integer `parseInt` finds (src/controllers/userController.js:32-34), so the segment `"12abc"` is id 12, and `" -3"` is id -3.
- updateUser falls back with `||` (src/controllers/userController.js:160), so an empty name or email keeps the stored value, just as an omitted one does.
- verifyToken takes `split(" ")[1]` as the token and never looks at the scheme word (src/middlewares/authMiddleware.js:16), so `Basic tok` gives the token `tok`.
- deleteUser's 200 answer carries only `success` and a message (src/controllers/userController.js:199-202). The id appears only inside the message text, which is not modelled.
- updateUser checks neither the address format nor its uniqueness (src/controllers/userController.js:127-167). The table's unique constraint on `email` then refuses a clash, the handler's catch block answers 500, and nothing changes. That is the one 500 path in the model.

## Model

| member | source | states |
|---|---|---|
| `JsStrings.ParseInt` | src/controllers/userController.js:32-34 | `parseInt` then `isNaN`: a number is found only in a string that holds a decimal digit |
| `JsStrings.ParseIntDecimal` | src/controllers/userController.js:32-34 | parseInt of an id's decimal numeral gives the id back (not NaN) when the text after it does not continue the number: it is empty or starts with no digit, and after the numeral `0` it starts with no `x` or `X` (`"0x1A"` is hexadecimal 26) |
| `JsStrings.ParseIntNegatedDecimal` | src/controllers/userController.js:32-34 | with a leading minus sign, and the same condition on the text after the numeral, it parses to the negated id |
| `JsStrings.ParseIntTrailingText` | src/controllers/userController.js:32 | `"12abc"` parses to 12: the leading integer, with the rest ignored |
| `JsStrings.ParseIntLetters` | src/controllers/userController.js:32-34 | `"abc"` parses to NaN, so the handler takes its 400 branch |
| `JsStrings.ParseIntNaN` | src/controllers/userController.js:32-39 | a string whose first character is no digit, no sign and no white space is NaN |
| `JsStrings.Split` | src/middlewares/authMiddleware.js:16 | `split(" ")` gives one more piece than the string has spaces, and no piece holds a space |
| `JsStrings.JoinSplit` | src/middlewares/authMiddleware.js:16 | `split(" ")` loses nothing: joining its pieces with single spaces gives the header back |
| `JsStrings.SplitWordThenSpace` | src/middlewares/authMiddleware.js:16 | the text before the first space is the first piece, and the rest is split independently |
| `EmailFormat.IsEmail` | src/controllers/userController.js:81-82 | an accepted address has at least five characters, holds an `@` and a `.`, and holds no white space |
| `EmailFormat.IsEmailMatchesPattern` | src/controllers/userController.js:81-82 | the address test accepts a string exactly when it is a run, `@`, a run, `.`, a run, where each run is one or more characters that are neither white space nor `@` |
| `EmailFormat.IsEmailExample` | src/controllers/authController.js:23-24 | `ana@x.com` passes the address test |
| `Http.Present` | src/controllers/userController.js:73 | a body field is truthy exactly when it is neither absent (`undefined`) nor the empty string |
| `Http.AllPresent` | src/controllers/authController.js:15 | `name && email && password` holds exactly when none of the three fields is absent or empty |
| `Http.OrElse` | src/controllers/userController.js:160 | `field || fallback` is the field when it is truthy and the fallback otherwise |
| `Users.FindByEmail` | src/controllers/authController.js:102-114 | under unique emails, the lookup finds nothing exactly when no row has the address, and otherwise the one row that has it |
| `Users.RowsById` | src/controllers/userController.js:10-12 | lists every row of the table exactly once, in strictly ascending id order, and nothing else |
| `Users.UserStore.Insert` | src/controllers/userController.js:106-109 | adds one row under the next serial id with created_at = now and leaves the other rows alone; a taken email is refused and nothing changes |
| `Users.UserStore.Update` | src/controllers/userController.js:158-161 | replaces name, email and password of that one row and keeps its id and created_at; an absent id or an email another row holds changes nothing |
| `Users.UserStore.Delete` | src/controllers/userController.js:190-192 | removes exactly the row with that id; the row count is 1 if it existed and 0 otherwise |
| `UserController.GetAllUsers` | src/controllers/userController.js:8-18 | status 200; `count` equals the number of rows returned, which is the number in the table; rows ascend by id; every table row appears with its password column |
| `UserController.GetUserById` | src/controllers/userController.js:30-56 | 400 when the id is NaN; 404 when no row has it; otherwise 200 with that whole row, password included |
| `UserController.CreateRejection` | src/controllers/userController.js:73-100 | the ladder's order: missing field (400) before a malformed address (400) before an address in use (409); there is no password-length rung |
| `UserController.CreateUser` | src/controllers/userController.js:68-115 | on a rejection the ladder's status is returned and the table and sequence are unchanged; on success exactly one row is added under a fresh id, holding the digest of the given password, and the sequence advances by one; the answer is 201 with that row minus its password, and getUserById of the id's numeral then returns the row |
| `UserController.UpdateUser` | src/controllers/userController.js:127-167 | 400 for a NaN id and 404 for an absent one, both with no change; otherwise name and email use `||` fallback to the stored values; the stored digest is kept unless a password is given; only that row changes; the answer is 200 with the row minus its password; if another row holds the new email, 500 and no change |
| `UserController.DeleteUser` | src/controllers/userController.js:179-202 | 400 for a NaN id and 404 when no row was removed, both with no change; otherwise exactly that row is removed; afterwards getUserById with the same segment answers 400 or 404 |
| `UserController.DeleteParsed` | src/controllers/userController.js:183-202 | deleteUser once the id is parsed: NaN gives 400 and a missing id 404, both with no change; otherwise exactly that row is removed and the answer is 200 with a message; afterwards no row has the id |
| `AuthController.SignupRejection` | src/controllers/authController.js:15-50 | the ladder's order: missing field, then malformed address, then a password under 6 characters (all 400), then an address in use (409); the first three need no table lookup |
| `AuthController.SignupLadderExtendsCreate` | src/controllers/authController.js:31-37 | signup's ladder is createUser's with one rung added: a short password becomes a 400 where createUser would accept it or answer 409 |
| `AuthController.Signup` | src/controllers/authController.js:10-77 | on a rejection the ladder's status is returned and the table is unchanged; on success exactly one row is added with the hashed password, and the sequence advances by one; the answer is 201 with the row minus its password and a token signed over the new row's `{id, email}` |
| `AuthController.Signin` | src/controllers/authController.js:89-143 | 400 without email and password; 404 when no row has the address; 401 and no token when compare fails; otherwise 200 with the row minus its password and a token over its `{id, email}`; the table is only read |
| `AuthController.VerifyAuth` | src/controllers/authController.js:155-176 | 404 when the claim's id has no row; otherwise 200 with only that row's id, name, email and created_at |
| `AuthController.SigninAfterSignup` | src/controllers/authController.js:53-68 | if bcrypt's compare accepts its own digests, signing in with the address and password just signed up gives 200, the new row and a token over its id and email |
| `AuthController.SecondSignupConflicts` | src/controllers/authController.js:40-50 | after a successful signup, a second well-formed signup with the same address gets 409 |
| `AuthController.IssuedTokenVerifies` | src/middlewares/authMiddleware.js:16-34 | a token signed over a row's `{id, email}` and sent after any scheme word passes verifyToken with that claim, and verifyAuth then answers 200 with the row |
| `AuthMiddleware.BearerToken` | src/middlewares/authMiddleware.js:16-18 | a token is only found when the second piece is non-empty, and it holds no space |
| `AuthMiddleware.VerifyToken` | src/middlewares/authMiddleware.js:5-35 | no header or an empty one gives 401; no second piece gives 401; a verifier error gives 403; only a verified token goes on (`Next`), carrying exactly the decoded claim |
| `AuthMiddleware.NoSpaceIsUnauthorized` | src/middlewares/authMiddleware.js:16-23 | a header with no space gives 401 |
| `AuthMiddleware.DoubleSpaceIsUnauthorized` | src/middlewares/authMiddleware.js:16-23 | two spaces after the scheme leave the second piece empty, which gives 401 |
| `AuthMiddleware.SchemeIsIgnored` | src/middlewares/authMiddleware.js:16 | for any scheme word, the token is the text between the first space and the next space or the end |
| `AuthMiddleware.SignedTokenPasses` | src/middlewares/authMiddleware.js:25-34 | a token the verifier accepts leads to `Next` with its claim as `req.user` |

## Left out

- Express wiring is not modelled: routes, body parsing, CORS, the health endpoint and the fallback 404. In that wiring verifyToken is not mounted on any route, so the model treats it as a separate operation.
- The database pool, connection failures and every other 500 catch path are not modelled. The one exception is the UPDATE refused by the unique email constraint. The unique constraint and the `serial` id come from the table's schema, which is not part of this model.
- A refused INSERT consuming a sequence value is not modelled. The handlers check the address first, so their INSERT is never refused.
- bcrypt's salting and cost factor 10, and jsonwebtoken's signing, secret, `iat`/`exp` and 24-hour expiry, are oracles. An expired or forged token is simply one that `verify` maps to None.
- Concurrency is not modelled. In particular, two simultaneous signups with one address can both pass the application check; here each request runs alone.
- Response message strings, the `success` flag's text and console logging are not modelled. Only the status code and the payload shape are.
- Body fields that are JSON numbers, objects or arrays are not modelled: a field is a string or missing.
- `JsStrings.ParseInt`: JavaScript's result is a double. Here it is an unbounded integer, so numerals beyond 2^53 keep digits that JavaScript rounds away.
- `UserController.GetUserById`: an id outside PostgreSQL's 32-bit `integer` range is an ordinary miss (404) here. The database would reject it, and the handler would answer 500. The same holds for updateUser and deleteUser.
- `AuthController.SignupRejection`: the length rung counts Unicode scalar values. JavaScript counts UTF-16 code units, so a password with characters outside the Basic Multilingual Plane is measured shorter here than in the source.
