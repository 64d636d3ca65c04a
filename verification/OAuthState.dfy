/** The signed state parameter of the OAuth connect flow. */
module OAuthState {
  import opened Common
  import opened Base64Url

  /** The serializer, the keyed digest and the timestamp field, taken as given functions. */
  datatype Codec<!P> = Codec(
    dump: P -> seq<byte>, load: seq<byte> -> Option<P>, digest: seq<byte> -> seq<byte>, ts: P -> int)

  datatype Verified<P> =
    | Payload(payload: P)
    | BadFormat      // no separator
    | BadEncoding    // the decoder's own error, not caught here
    | BadSignature
    | BadPayload
    | Expired

  function Sign<P>(c: Codec<P>, p: P): string {
    var body := c.dump(p);
    Encode(body) + "." + Encode(c.digest(body))
  }

  /** Position of the first separator, or the length. */
  function FirstDot(s: string): (i: nat)
    ensures i <= |s| && (i < |s| ==> s[i] == '.') && forall j :: 0 <= j < i ==> s[j] != '.'
  {
    if s == "" || s[0] == '.' then 0 else 1 + FirstDot(s[1..])
  }

  function Verify<P>(c: Codec<P>, state: string, now: int, maxAge: int): Verified<P> {
    var dot := FirstDot(state);
    if dot == |state| then BadFormat
    else
      match Decode(state[..dot])
      case None => BadEncoding
      case Some(body) =>
        match Decode(state[dot + 1..])
        case None => BadEncoding
        case Some(sig) =>
          if sig != c.digest(body) then BadSignature
          else
            match c.load(body)
            case None => BadPayload
            case Some(payload) =>
              var ts := c.ts(payload);
              if ts <= 0 || now - ts > maxAge then Expired else Payload(payload)
  }

  /** Round trip: a signed payload verifies to itself exactly while its timestamp is positive and not too old;
      otherwise it is reported as expired. */
  lemma VerifyInvertsSign<P>(c: Codec<P>, p: P, now: int, maxAge: int)
    requires c.load(c.dump(p)) == Some(p)
    ensures Verify(c, Sign(c, p), now, maxAge)
            == if c.ts(p) > 0 && now - c.ts(p) <= maxAge then Payload(p) else Expired
  {
    var body := c.dump(p);
    var a, b := Encode(body), Encode(c.digest(body));
    DecodeInvertsEncode(body);
    DecodeInvertsEncode(c.digest(body));
    var s := a + "." + b;
    DotAfter(a, b);
    assert s[..|a|] == a && s[|a| + 1..] == b;
  }

  lemma DotAfter(a: string, b: string)
    requires '.' !in a
    ensures FirstDot(a + "." + b) == |a|
  {
    var s := a + "." + b;
    assert s[|a|] == '.' && forall j :: 0 <= j < |a| ==> s[j] == a[j];
  }

  /** The two parts of a state decode to a body that loads to p and to that body's digest. */
  ghost predicate Carries<P>(c: Codec<P>, p: P, body: string, sig: string) {
    && Decode(body).Some? && c.load(Decode(body).value) == Some(p)
    && Decode(sig) == Some(c.digest(Decode(body).value))
  }

  predicate InTime(ts: int, now: int, maxAge: int) { ts > 0 && now - ts <= maxAge }

  lemma VerifyBySplit<P>(c: Codec<P>, body: string, sig: string, p: P, now: int, maxAge: int)
    requires '.' !in body
    ensures Verify(c, body + "." + sig, now, maxAge) == Payload(p) <==>
            Carries(c, p, body, sig) && InTime(c.ts(p), now, maxAge)
  {
    var state := body + "." + sig;
    DotAfter(body, sig);
    assert state[..|body|] == body && state[|body| + 1..] == sig;
  }

  /** A payload is accepted exactly when its timestamp is positive and not too old and the state splits at its
      first separator into an encoded body that loads to it and the encoded digest of that body. */
  lemma AcceptedIff<P>(c: Codec<P>, state: string, p: P, now: int, maxAge: int)
    ensures Verify(c, state, now, maxAge) == Payload(p) <==>
            && InTime(c.ts(p), now, maxAge)
            && exists body: string, sig: string :: state == body + "." + sig && '.' !in body && Carries(c, p, body, sig)
  {
    var dot := FirstDot(state);
    if dot < |state| {
      var body, sig := state[..dot], state[dot + 1..];
      assert state == body + "." + sig && '.' !in body;
      VerifyBySplit(c, body, sig, p, now, maxAge);
    }
    forall body: string, sig: string | state == body + "." + sig && '.' !in body
      ensures Verify(c, state, now, maxAge) == Payload(p) <==> Carries(c, p, body, sig) && InTime(c.ts(p), now, maxAge)
    {
      VerifyBySplit(c, body, sig, p, now, maxAge);
    }
  }
}
