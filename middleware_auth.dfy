/**
 * The `verifyToken` middleware guarding every protected route: read the
 * `Authorization` header, take the second space-separated piece as the token,
 * verify it, and either answer the request or pass it on with the payload.
 * JWT verification (signature and expiry under the access secret) is the
 * `verify` parameter.
 */
module AuthMiddleware {
  import opened Wrappers
  import opened Js

  /** The payload login and refresh sign into every token: `{ id }`. */
  datatype Claims = Claims(id: nat)

  /** The guard either answers with an error status or calls `next()` once with `req.user` set. */
  datatype Guard = Reject(status: int) | Next(user: Claims)

  /** `authHeader.split(' ')[1]`: None when the header has no space. */
  function BearerToken(header: string): (t: Option<string>)
    ensures t.Some? ==> ' ' !in t.value
    ensures t.None? <==> ' ' !in header
  {
    SplitSingle(header, ' ');
    Piece(Split(header, ' '), 1)
  }

  /** The token is the word right after the first space: "Bearer abc" gives "abc". */
  lemma BearerTokenOf(scheme: string, token: string, tail: string)
    requires ' ' !in scheme && ' ' !in token
    requires tail == [] || tail[0] == ' '
    ensures BearerToken(scheme + " " + token + tail) == Some(token)
  {
    var h := scheme + " " + token + tail;
    assert h == scheme + [' '] + (token + tail);
    SplitAfterWord(scheme, ' ', token + tail);
    SplitFirstWord(token, ' ', tail);
  }

  /** Conversely, a token read from a header sits between the first space and the next one. */
  lemma BearerTokenShape(header: string, t: string) returns (scheme: string, tail: string)
    requires BearerToken(header) == Some(t)
    ensures header == scheme + " " + t + tail
    ensures ' ' !in scheme && (tail == [] || tail[0] == ' ')
  {
    var parts := Split(header, ' ');
    assert |parts| >= 2 && parts[1] == t;
    JoinSplit(header, ' ');
    var rest := parts[1..];
    assert Join(parts, ' ') == parts[0] + [' '] + Join(rest, ' ');
    tail := if |rest| == 1 then "" else [' '] + Join(rest[1..], ' ');
    assert Join(rest, ' ') == t + tail;
    scheme := parts[0];
    assert ' ' !in scheme;
    assert header == scheme + " " + t + tail;
  }

  /** `verifyToken(req, res, next)`. */
  function VerifyToken(header: Option<string>, verify: string -> Option<Claims>): (g: Guard)
    ensures !Truthy(header) ==> g == Reject(401)
    ensures Truthy(header) ==> (g == Reject(401) <==> !Truthy(BearerToken(header.value)))
    ensures g == Reject(403) <==>
      Truthy(header) && Truthy(BearerToken(header.value)) && verify(BearerToken(header.value).value).None?
    ensures g.Next? ==>
      Truthy(header) && Truthy(BearerToken(header.value)) && verify(BearerToken(header.value).value) == Some(g.user)
    ensures g.Reject? ==> g.status == 401 || g.status == 403
  {
    if !Truthy(header) then Reject(401)
    else
      var token := BearerToken(header.value);
      if !Truthy(token) then Reject(401)
      else
        match verify(token.value)
        case None => Reject(403)
        case Some(decoded) => Next(decoded)
  }

  /** A well-formed `Bearer <token>` header is decided by verifying exactly that token. */
  lemma VerifyBearer(scheme: string, token: string, verify: string -> Option<Claims>)
    requires ' ' !in scheme && ' ' !in token && token != ""
    ensures VerifyToken(Some(scheme + " " + token), verify)
            == if verify(token).Some? then Next(verify(token).value) else Reject(403)
  {
    BearerTokenOf(scheme, token, "");
    assert scheme + " " + token + "" == scheme + " " + token;
  }
}
