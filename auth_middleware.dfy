/**
 * verifyToken: reads the Authorization header, takes the second space-separated piece
 * as the token, and asks the token verifier about it. The handler either answers (401
 * when there is no header or no token, 403 when verification fails) or hands on to the
 * next handler with the decoded claim as `req.user`; Gate is that outcome.
 */
module AuthMiddleware {
  import opened Wrappers
  import opened JsStrings
  import opened Oracles
  import opened Http

  /** Reject: the middleware answered with this status and `next` is not called.
      Next: `req.user` is set to the claim and `next` is called, once. */
  datatype Gate = Reject(status: int) | Next(user: Claim)

  /** `authHeader.split(" ")[1]`, when it is a non-empty string. The first piece, the
      scheme, is not looked at. */
  function BearerToken(header: string): (r: Option<Token>)
    ensures r.Some? ==> r.value != [] && ' ' !in r.value
  {
    var pieces := Split(header);
    if |pieces| >= 2 && pieces[1] != [] then Some(pieces[1]) else None
  }

  function VerifyToken(header: Option<string>, signer: TokenSigner): (g: Gate)
    ensures !Present(header) ==> g == Reject(Unauthorized)
    ensures Present(header) && BearerToken(header.value).None? ==> g == Reject(Unauthorized)
    ensures Present(header) && BearerToken(header.value).Some? ==>
      g == match signer.verify(BearerToken(header.value).value)
           case None => Reject(Forbidden)
           case Some(c) => Next(c)
  {
    if !Present(header) then Reject(Unauthorized)
    else
      match BearerToken(header.value)
      case None => Reject(Unauthorized)
      case Some(token) =>
        match signer.verify(token)
        case None => Reject(Forbidden)
        case Some(decoded) => Next(decoded)
  }

  /** A header with no space has no second piece: 401. */
  lemma NoSpaceIsUnauthorized(header: string, signer: TokenSigner)
    requires ' ' !in header
    ensures VerifyToken(Some(header), signer) == Reject(Unauthorized)
  {
    SplitWord(header);
  }

  /** Two spaces after the scheme leave the second piece empty: 401. */
  lemma DoubleSpaceIsUnauthorized(scheme: string, rest: string, signer: TokenSigner)
    requires ' ' !in scheme
    ensures VerifyToken(Some(scheme + "  " + rest), signer) == Reject(Unauthorized)
  {
    assert scheme + "  " + rest == scheme + " " + ([] + " " + rest);
    SplitWordThenSpace(scheme, [] + " " + rest);
    SplitWordThenSpace([], rest);
  }

  /** Whatever the scheme word, the token is the text between the first space and the next
      space (or the end). */
  lemma {:induction false} SchemeIsIgnored(scheme: string, token: Token, tail: string)
    requires ' ' !in scheme && ' ' !in token && token != []
    requires tail == [] || tail[0] == ' '
    ensures BearerToken(scheme + " " + token + tail) == Some(token)
  {
    assert scheme + " " + token + tail == scheme + " " + (token + tail);
    SplitWordThenSpace(scheme, token + tail);
    if tail == [] {
      assert token + tail == token;
      SplitWord(token);
    } else {
      assert token + tail == token + " " + tail[1..];
      SplitWordThenSpace(token, tail[1..]);
    }
  }

  /** A header carrying a token the verifier accepts hands that token's claim on. */
  lemma SignedTokenPasses(scheme: string, signer: TokenSigner, c: Claim)
    requires ' ' !in scheme && SignRoundTrip(signer)
    ensures VerifyToken(Some(scheme + " " + signer.sign(c)), signer) == Next(c)
  {
    assert scheme + " " + signer.sign(c) + [] == scheme + " " + signer.sign(c);
    SchemeIsIgnored(scheme, signer.sign(c), []);
  }
}
