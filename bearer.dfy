/**
 * The token extraction of the `authenticateToken` middleware:
 * `req.headers.authorization?.split(" ")[1]`, followed by the `!token` test.
 */
module Bearer {
  import opened Wrappers

  /** The fields of `s` between single spaces, as `String.prototype.split(" ")`
      returns them: there is always at least one field, fields may be empty,
      no field contains a space, and joining them with spaces gives `s` back. */
  function Split(s: string): (fields: seq<string>)
    ensures |fields| >= 1
    ensures forall i :: 0 <= i < |fields| ==> ' ' !in fields[i]
    ensures Join(fields) == s
    decreases |s|
  {
    if ' ' !in s then [s]
    else
      var i := FirstSpace(s);
      [s[..i]] + Split(s[i + 1..])
  }

  /** The index of the first space. */
  function FirstSpace(s: string): (i: nat)
    requires ' ' in s
    ensures i < |s| && s[i] == ' ' && ' ' !in s[..i]
  {
    if s[0] == ' ' then 0 else
      assert s == [s[0]] + s[1..];
      var j := FirstSpace(s[1..]);
      assert s[..j + 1] == [s[0]] + s[1..][..j];
      j + 1
  }

  /** `fields.join(" ")`. */
  function Join(fields: seq<string>): string
    requires |fields| >= 1
  {
    if |fields| == 1 then fields[0] else fields[0] + " " + Join(fields[1..])
  }

  /** The other direction: fields free of spaces come back from splitting
      their join, so `Split` is the only such decomposition of a string. */
  lemma {:induction false} SplitJoin(fields: seq<string>)
    requires |fields| >= 1
    requires forall i :: 0 <= i < |fields| ==> ' ' !in fields[i]
    ensures Split(Join(fields)) == fields
  {
    if |fields| > 1 {
      var s := Join(fields);
      var f := fields[0];
      assert s == f + " " + Join(fields[1..]);
      assert s[|f|] == ' ' && s[..|f|] == f;
      assert ' ' in s;
      var i := FirstSpace(s);
      assert i == |f|;
      assert s[i + 1..] == Join(fields[1..]);
      SplitJoin(fields[1..]);
      assert fields == [f] + fields[1..];
    } else {
      assert ' ' !in fields[0];
    }
  }

  /** `authorization?.split(" ")[1]`: `None` (undefined) when the header is
      absent or has no space; otherwise the text between the first and the
      second space. */
  function ExtractToken(authorization: Option<string>): (token: Option<string>)
    ensures token.Some? ==> authorization.Some? && ' ' in authorization.value && ' ' !in token.value
    ensures authorization.Some? && ' ' in authorization.value ==> token.Some?
  {
    match authorization
    case None => None
    case Some(h) =>
      var fields := Split(h);
      if |fields| >= 2 then Some(fields[1]) else None
  }

  /** `!token`: undefined or the empty string; the middleware answers 401 for both. */
  predicate TokenMissing(token: Option<string>) {
    token == None || token == Some("")
  }

  /** Whatever the first word is, the second field is the token: the scheme
      `Bearer` is never checked, and anything after a further space is dropped. */
  lemma {:induction false} SchemeIgnored(scheme: string, token: string, more: seq<string>)
    requires ' ' !in scheme && ' ' !in token
    requires forall i :: 0 <= i < |more| ==> ' ' !in more[i]
    ensures ExtractToken(Some(Join([scheme, token] + more))) == Some(token)
  {
    var fields := [scheme, token] + more;
    forall i | 0 <= i < |fields| ensures ' ' !in fields[i] {
      if i >= 2 {
        assert fields[i] == more[i - 2];
      }
    }
    SplitJoin(fields);
  }

  /** The header the client sends, `Bearer ${token}`, yields exactly the token
      when the token has no space. */
  lemma {:induction false} ClientHeaderYieldsToken(token: string)
    requires ' ' !in token
    ensures ExtractToken(Some("Bearer " + token)) == Some(token)
  {
    SchemeIgnored("Bearer", token, []);
    assert Join(["Bearer", token] + []) == "Bearer " + token by {
      assert (["Bearer", token] + [])[1..] == [token];
    }
  }

  /** A header that is a single word, such as a bare "Bearer", has no token. */
  lemma {:induction false} BareSchemeHasNoToken(scheme: string)
    requires ' ' !in scheme
    ensures ExtractToken(Some(scheme)) == None
  {
  }

  /** Two spaces after the scheme give an empty token, which counts as missing. */
  lemma {:induction false} DoubleSpaceHasEmptyToken(scheme: string, rest: string)
    requires ' ' !in scheme
    ensures ExtractToken(Some(scheme + "  " + rest)) == Some("")
    ensures TokenMissing(ExtractToken(Some(scheme + "  " + rest)))
  {
    var s := scheme + "  " + rest;
    var i := FirstSpace(s);
    assert s[|scheme|] == ' ' && s[..|scheme|] == scheme;
    assert i == |scheme|;
    var tail := s[i + 1..];
    assert tail == " " + rest;
    assert FirstSpace(tail) == 0;
    assert Split(tail)[0] == "";
  }
}
