/**
 * The two middleware functions of backend/auth/auth.js: `ensureToken` takes the bearer
 * token out of the `authorization` header, `verifyToken` checks it and records its payload.
 * Token verification itself is an oracle passed in by the caller.
 */
module Auth {

  import opened Wrappers

  /** What a verified token carries (it is signed at login with these three claims). */
  datatype Payload = Payload(email: string, id: nat, isAdmin: bool)

  /** The inverse of `Split`: the fields glued back together with single spaces. */
  function Join(fields: seq<string>): string
    requires |fields| >= 1
  {
    if |fields| == 1 then fields[0] else fields[0] + " " + Join(fields[1..])
  }

  /**
   * JavaScript's `s.split(" ")`: the pieces between single spaces, empty pieces included,
   * so that a string with k spaces has k + 1 pieces.
   */
  function Split(s: string): (r: seq<string>)
    ensures |r| >= 1
    ensures forall i | 0 <= i < |r| :: ' ' !in r[i]
    ensures |r| == 1 <==> ' ' !in s
    ensures Join(r) == s
    decreases |s|
  {
    if |s| == 0 then [""]
    else
      var rest := Split(s[1..]);
      assert s == [s[0]] + s[1..];
      if s[0] == ' ' then
        [""] + rest
      else
        assert |rest| > 1 ==> ([s[0]] + rest[0]) + " " + Join(rest[1..]) == [s[0]] + Join(rest);
        [[s[0]] + rest[0]] + rest[1..]
  }

  lemma {:induction false} SplitWithoutSpace(a: string)
    requires ' ' !in a
    ensures Split(a) == [a]
  {
  }

  /** Splitting after a first field that holds no space peels that field off. */
  lemma {:induction false} SplitAfterField(a: string, x: string)
    requires ' ' !in a
    ensures Split(a + " " + x) == [a] + Split(x)
    decreases |a|
  {
    var s := a + " " + x;
    if |a| == 0 {
      assert s[0] == ' ' && s[1..] == x;
    } else {
      assert s[0] == a[0] && s[1..] == a[1..] + " " + x;
      SplitAfterField(a[1..], x);
      assert [a[0]] + a[1..] == a;
    }
  }

  /** `Split` and `Join` are inverse: splitting the joined fields gives the fields back. */
  lemma {:induction false} SplitJoin(fields: seq<string>)
    requires |fields| >= 1
    requires forall i | 0 <= i < |fields| :: ' ' !in fields[i]
    ensures Split(Join(fields)) == fields
    decreases |fields|
  {
    if |fields| == 1 {
      SplitWithoutSpace(fields[0]);
    } else {
      SplitJoin(fields[1..]);
      SplitAfterField(fields[0], Join(fields[1..]));
      assert [fields[0]] + fields[1..] == fields;
    }
  }

  /** A field followed by nothing or by a space is the first piece of the split. */
  lemma {:induction false} SplitHead(t: string, rest: string)
    requires ' ' !in t
    requires rest == "" || rest[0] == ' '
    ensures Split(t + rest)[0] == t
    decreases |t|
  {
    if |t| == 0 {
      assert t + rest == rest;
    } else {
      SplitHead(t[1..], rest);
      assert (t + rest)[1..] == t[1..] + rest;
      assert [t[0]] + t[1..] == t;
    }
  }

  /**
   * `bearerHeader.split(" ")[1]`: the second space-separated piece of the header, or
   * `None` (JavaScript's `undefined`) when the header holds no space.
   */
  function BearerToken(header: string): (r: Option<string>)
    ensures r.None? <==> ' ' !in header
    ensures r.Some? ==> ' ' !in r.value
  {
    var pieces := Split(header);
    if |pieces| >= 2 then Some(pieces[1]) else None
  }

  /** In `"<scheme> <token>..."` the token is the piece after the first space. */
  lemma BearerTokenOf(scheme: string, token: string, rest: string)
    requires ' ' !in scheme && ' ' !in token
    requires rest == "" || rest[0] == ' '
    ensures BearerToken(scheme + " " + token + rest) == Some(token)
  {
    assert scheme + " " + token + rest == scheme + " " + (token + rest);
    SplitAfterField(scheme, token + rest);
    SplitHead(token, rest);
  }

  /** The request as the middleware sees it. */
  class Request {
    /** `req.headers['authorization']`, `None` when the header is absent. */
    const authorization: Option<string>
    /** `req.token`, `None` while unset or `undefined`. */
    var token: Option<string>
    /** `req.decoded`, `None` while unset. */
    var decoded: Option<Payload>

    constructor (authorization: Option<string>)
      ensures this.authorization == authorization && token == None && decoded == None
    {
      this.authorization := authorization;
      token, decoded := None, None;
    }

    /**
     * `ensureToken`: `next` tells whether the next handler is called; when it is not,
     * 403 has been sent. Any header, even one without a space, passes.
     */
    method EnsureToken() returns (next: bool)
      modifies this
      ensures next <==> authorization.Some?
      ensures token == if next then BearerToken(authorization.value) else old(token)
      ensures decoded == old(decoded)
    {
      if authorization.Some? {
        token := BearerToken(authorization.value);
        next := true;
      } else {
        next := false;
      }
    }

    /**
     * `verifyToken`, with `verify` standing for `jwt.verify` under the server's secret
     * (`None` is a verification error): on failure 403 is sent and `decoded` is left as it
     * was; on success `decoded` is the payload and the next handler is called.
     */
    method VerifyToken(verify: Option<string> -> Option<Payload>) returns (next: bool)
      modifies this
      ensures next <==> verify(token).Some?
      ensures decoded == if next then verify(token) else old(decoded)
      ensures token == old(token)
    {
      var result := verify(token);
      if result.Some? {
        decoded := result;
        next := true;
      } else {
        next := false;
      }
    }

    /**
     * The two middleware functions in a row, as the `/books` and `/library` routes run them
     * on a fresh request: the handler sees a caller only when there is a header and the
     * oracle accepts the token taken from it.
     */
    method Authenticate(verify: Option<string> -> Option<Payload>) returns (caller: Option<Payload>)
      requires token == None && decoded == None
      modifies this
      ensures caller == decoded
      ensures authorization.None? ==> caller == None
      ensures authorization.Some? ==> caller == verify(BearerToken(authorization.value))
    {
      var present := EnsureToken();
      if !present {
        return None;
      }
      var verified := VerifyToken(verify);
      caller := decoded;
    }
  }
}
