/** Signing and verifying tokens (src/backend/auth.rs, `sign_with`, `verify`;
    the compact form of section 7.1 of RFC 7515).

    HMAC-SHA256 and the JSON library are parameters: any function of the secret
    and the signing input, and any encoder/decoder pair that round-trips. */
module Tokens {
  import opened Basics
  import opened Base64Url
  import opened Claims
  import opened Text

  const MAX_TOKEN_BYTES: nat := 8 * 1024

  datatype Header = Header(alg: string, typ: string, kid: string)

  datatype World = World(
    headerToJson: Header -> seq<byte>, headerFromJson: seq<byte> -> Option<Header>,
    claimsToJson: Claims -> seq<byte>, claimsFromJson: seq<byte> -> Option<Claims>,
    mac: (seq<byte>, string) -> seq<byte>)

  /** What is asked of the JSON library and of the MAC. */
  ghost predicate Sound(w: World) {
    (forall h :: w.headerFromJson(w.headerToJson(h)) == Some(h)) &&
    (forall c :: w.claimsFromJson(w.claimsToJson(c)) == Some(c)) &&
    forall k, m :: |w.mac(k, m)| == 32
  }

  datatype Keyring = Keyring(keys: map<string, seq<byte>>, active: string)

  datatype AuthError =
    | TooLong | NotThreeParts | HeaderNotBase64 | HeaderNotJson | UnknownKeyId(kid: string)
    | SignatureNotBase64 | BadSignature | WrongAlgorithm | PayloadNotBase64 | PayloadNotJson
    | WrongIssuer | Expired | NotYetValid

  datatype Verdict = Accept(claims: Claims) | Refuse(error: AuthError)

  // ----- sign and verify -----

  function Compact(h: string, c: string, s: string): string {
    h + "." + c + "." + s
  }

  /** The key id a token is signed under: the one named, else the active one. */
  function SigningKid(ring: Keyring, kid: Option<string>): string {
    match kid
    case Some(k) => k
    case None => ring.active
  }

  /** `sign_with`; None is a key id the ring does not hold. */
  function SignWith(w: World, ring: Keyring, kid: Option<string>, claims: Claims): Option<string> {
    var k := SigningKid(ring, kid);
    if k !in ring.keys then None
    else
      var h := Encode(w.headerToJson(Header("HS256", "JWT", k)));
      var c := Encode(w.claimsToJson(claims));
      Some(Compact(h, c, Encode(w.mac(ring.keys[k], h + "." + c))))
  }

  function Verify(w: World, ring: Keyring, token: string, leeway: u64, now: u64): Verdict {
    if |token| > MAX_TOKEN_BYTES then Refuse(TooLong)
    else
      var parts := Split(token, '.');
      if |parts| != 3 then Refuse(NotThreeParts)
      else VerifyParts(w, ring, parts[0], parts[1], parts[2], leeway, now)
  }

  function VerifyParts(w: World, ring: Keyring, h: string, c: string, s: string, leeway: u64, now: u64): Verdict {
    var hb := Decode(h);
    if hb.None? then Refuse(HeaderNotBase64)
    else
      var header := w.headerFromJson(hb.value);
      if header.None? then Refuse(HeaderNotJson)
      else if header.value.kid !in ring.keys then Refuse(UnknownKeyId(header.value.kid))
      else
        var presented := Decode(s);
        if presented.None? then Refuse(SignatureNotBase64)
        else if presented.value != w.mac(ring.keys[header.value.kid], h + "." + c) then Refuse(BadSignature)
        else if header.value.alg != "HS256" then Refuse(WrongAlgorithm)
        else VerifyPayload(w, c, leeway, now)
  }

  /** The part that trusts its input: the signature has been checked. */
  function VerifyPayload(w: World, c: string, leeway: u64, now: u64): Verdict {
    var cb := Decode(c);
    if cb.None? then Refuse(PayloadNotBase64)
    else
      var claims := w.claimsFromJson(cb.value);
      if claims.None? then Refuse(PayloadNotJson)
      else if claims.value.iss != ISSUER then Refuse(WrongIssuer)
      else if claims.value.exp.Some? && SatAdd(claims.value.exp.value, leeway) < now then Refuse(Expired)
      else if claims.value.nbf > SatAdd(now, leeway) then Refuse(NotYetValid)
      else Accept(claims.value)
  }

  // ----- what is accepted -----

  /** The token is the compact form of a header and a payload, signed under the
      key its header names, by this server, and live. */
  ghost predicate Genuine(
    w: World, ring: Keyring, token: string, leeway: u64, now: u64, claims: Claims, hb: seq<byte>, cb: seq<byte>)
  {
    w.headerFromJson(hb).Some? && w.headerFromJson(hb).value.kid in ring.keys &&
    w.headerFromJson(hb).value.alg == "HS256" &&
    w.claimsFromJson(cb) == Some(claims) && claims.iss == ISSUER && claims.Live(leeway, now) &&
    var secret := ring.keys[w.headerFromJson(hb).value.kid];
    token == Compact(Encode(hb), Encode(cb), Encode(w.mac(secret, Encode(hb) + "." + Encode(cb))))
  }

  lemma CompactSplits(h: string, c: string, s: string)
    requires '.' !in h && '.' !in c && '.' !in s
    ensures Split(Compact(h, c, s), '.') == [h, c, s]
  {
    assert Compact(h, c, s) == h + "." + (c + "." + s);
    SplitAtSeparator(h, '.', c + "." + s);
    SplitAtSeparator(c, '.', s);
    SplitWithout(s, '.');
  }

  lemma GenuineIsAccepted(
    w: World, ring: Keyring, token: string, leeway: u64, now: u64, claims: Claims, hb: seq<byte>, cb: seq<byte>)
    requires |token| <= MAX_TOKEN_BYTES && Genuine(w, ring, token, leeway, now, claims, hb, cb)
    ensures Verify(w, ring, token, leeway, now) == Accept(claims)
  {
    var mac := w.mac(ring.keys[w.headerFromJson(hb).value.kid], Encode(hb) + "." + Encode(cb));
    DecodeOfEncode(hb);
    DecodeOfEncode(cb);
    DecodeOfEncode(mac);
    CompactSplits(Encode(hb), Encode(cb), Encode(mac));
  }

  lemma ThreePartsJoin(token: string)
    requires |Split(token, '.')| == 3
    ensures token == Compact(Split(token, '.')[0], Split(token, '.')[1], Split(token, '.')[2])
  {
    var parts := Split(token, '.');
    JoinOfSplit(token, '.');
    assert Join(parts[1..][1..], '.') == parts[2];
    assert Join(parts[1..], '.') == parts[1] + "." + parts[2];
    assert Join(parts, '.') == parts[0] + "." + (parts[1] + "." + parts[2]);
    assert Compact(parts[0], parts[1], parts[2]) == parts[0] + "." + (parts[1] + "." + parts[2]);
  }

  lemma AcceptedIsGenuine(w: World, ring: Keyring, token: string, leeway: u64, now: u64, claims: Claims)
    returns (hb: seq<byte>, cb: seq<byte>)
    requires Verify(w, ring, token, leeway, now) == Accept(claims)
    ensures |token| <= MAX_TOKEN_BYTES && Genuine(w, ring, token, leeway, now, claims, hb, cb)
  {
    ThreePartsJoin(token);
    var parts := Split(token, '.');
    hb, cb := Decode(parts[0]).value, Decode(parts[1]).value;
    EncodeOfDecode(parts[0]);
    EncodeOfDecode(parts[1]);
    EncodeOfDecode(parts[2]);
  }

  /** A token is accepted exactly when it is genuine and short enough; there is no
      second spelling of a signature, a header or a payload. */
  lemma AcceptsExactlyGenuine(w: World, ring: Keyring, token: string, leeway: u64, now: u64, claims: Claims)
    ensures Verify(w, ring, token, leeway, now) == Accept(claims) <==>
      |token| <= MAX_TOKEN_BYTES && exists hb, cb :: Genuine(w, ring, token, leeway, now, claims, hb, cb)
  {
    if Verify(w, ring, token, leeway, now) == Accept(claims) {
      var hb, cb := AcceptedIsGenuine(w, ring, token, leeway, now, claims);
    }
    if |token| <= MAX_TOKEN_BYTES {
      if hb, cb :| Genuine(w, ring, token, leeway, now, claims, hb, cb) {
        GenuineIsAccepted(w, ring, token, leeway, now, claims, hb, cb);
      }
    }
  }

  /** Length of the compact form before it is built. */
  function SignedLength(w: World, kid: string, claims: Claims): nat {
    (4 * |w.headerToJson(Header("HS256", "JWT", kid))| + 2) / 3 + (4 * |w.claimsToJson(claims)| + 2) / 3 + 43 + 2
  }

  lemma SignedTokenLength(w: World, ring: Keyring, kid: string, claims: Claims)
    requires Sound(w) && kid in ring.keys
    ensures |SignWith(w, ring, Some(kid), claims).value| == SignedLength(w, kid, claims)
  {
    var hb, cb := w.headerToJson(Header("HS256", "JWT", kid)), w.claimsToJson(claims);
    var m := w.mac(ring.keys[kid], Encode(hb) + "." + Encode(cb));
    assert |m| == 32;
    DecodeOfEncode(hb);
    DecodeOfEncode(cb);
    DecodeOfEncode(m);
  }

  lemma SignedIsGenuine(w: World, signing: Keyring, ring: Keyring, kid: string, claims: Claims, leeway: u64, now: u64)
    requires Sound(w) && claims.iss == ISSUER && claims.Live(leeway, now)
    requires kid in signing.keys && kid in ring.keys && ring.keys[kid] == signing.keys[kid]
    ensures Genuine(w, ring, SignWith(w, signing, Some(kid), claims).value, leeway, now, claims,
      w.headerToJson(Header("HS256", "JWT", kid)), w.claimsToJson(claims))
  {
    var h := Header("HS256", "JWT", kid);
    assert w.headerFromJson(w.headerToJson(h)) == Some(h);
  }

  /** The round trip: a token signed under a key still in the ring, for claims of
      this issuer, verifies to exactly those claims if and only if they are live and
      the computed length is within the limit. */
  lemma TokenRoundTrip(
    w: World, signing: Keyring, ring: Keyring, kid: Option<string>, claims: Claims, leeway: u64, now: u64)
    requires Sound(w) && claims.iss == ISSUER && SigningKid(signing, kid) in signing.keys
    requires SameKey(signing, ring, SigningKid(signing, kid))
    ensures SignWith(w, signing, kid, claims).Some?
    ensures Verify(w, ring, SignWith(w, signing, kid, claims).value, leeway, now) == Accept(claims) <==>
      SignedLength(w, SigningKid(signing, kid), claims) <= MAX_TOKEN_BYTES && claims.Live(leeway, now)
  {
    var k := SigningKid(signing, kid);
    var token := SignWith(w, signing, kid, claims).value;
    assert token == SignWith(w, signing, Some(k), claims).value;
    SignedTokenLength(w, signing, k, claims);
    if claims.Live(leeway, now) && |token| <= MAX_TOKEN_BYTES {
      SignedIsGenuine(w, signing, ring, k, claims, leeway, now);
      GenuineIsAccepted(w, ring, token, leeway, now, claims,
        w.headerToJson(Header("HS256", "JWT", k)), w.claimsToJson(claims));
    }
    if Verify(w, ring, token, leeway, now) == Accept(claims) {
      var hb, cb := AcceptedIsGenuine(w, ring, token, leeway, now, claims);
    }
  }

  // ----- which key decides -----

  /** The key id the verifier will look up, if it gets that far. */
  function KidOf(w: World, token: string): Option<string> {
    if |token| > MAX_TOKEN_BYTES || |Split(token, '.')| != 3 then None
    else
      match Decode(Split(token, '.')[0])
      case None => None
      case Some(hb) =>
        match w.headerFromJson(hb)
        case None => None
        case Some(h) => Some(h.kid)
  }

  predicate SameKey(a: Keyring, b: Keyring, kid: string) {
    (kid in a.keys <==> kid in b.keys) && (kid in a.keys ==> a.keys[kid] == b.keys[kid])
  }

  /** A verdict depends on the ring only through the key the token names. */
  lemma VerdictDependsOnlyOnNamedKey(w: World, a: Keyring, b: Keyring, token: string, leeway: u64, now: u64)
    requires KidOf(w, token).Some? ==> SameKey(a, b, KidOf(w, token).value)
    ensures Verify(w, a, token, leeway, now) == Verify(w, b, token, leeway, now)
  {
  }

  // ----- what is signed, and why a token is refused -----

  /** Signing refuses exactly a key id the ring does not hold, the active one when none
      is named. Otherwise the three parts are, decoded, the HS256 header naming that key,
      the claims, and the MAC under that key of the first two parts with their dot. */
  lemma SignedParts(w: World, ring: Keyring, kid: Option<string>, claims: Claims)
    ensures var k := if kid.Some? then kid.value else ring.active;
      SignWith(w, ring, kid, claims).Some? <==> k in ring.keys
    ensures var k := if kid.Some? then kid.value else ring.active;
      k in ring.keys ==>
        var parts := Split(SignWith(w, ring, kid, claims).value, '.');
        |parts| == 3 &&
        Decode(parts[0]) == Some(w.headerToJson(Header("HS256", "JWT", k))) &&
        Decode(parts[1]) == Some(w.claimsToJson(claims)) &&
        Decode(parts[2]) == Some(w.mac(ring.keys[k], parts[0] + "." + parts[1]))
  {
    var k := SigningKid(ring, kid);
    if k in ring.keys {
      var hb, cb := w.headerToJson(Header("HS256", "JWT", k)), w.claimsToJson(claims);
      var m := w.mac(ring.keys[k], Encode(hb) + "." + Encode(cb));
      DecodeOfEncode(hb);
      DecodeOfEncode(cb);
      DecodeOfEncode(m);
      CompactSplits(Encode(hb), Encode(cb), Encode(m));
    }
  }

  /** The token names a key of the ring, and its third part is the MAC of the other two. */
  ghost predicate ProperlySigned(w: World, ring: Keyring, token: string) {
    KidOf(w, token).Some? && KidOf(w, token).value in ring.keys &&
    var parts := Split(token, '.');
    Decode(parts[2]) == Some(w.mac(ring.keys[KidOf(w, token).value], parts[0] + "." + parts[1]))
  }

  /** Its payload, once it may be read: signed, by the right algorithm, and by this server. */
  ghost predicate Carries(w: World, ring: Keyring, token: string, claims: Claims) {
    ProperlySigned(w, ring, token) &&
    var parts := Split(token, '.');
    w.headerFromJson(Decode(parts[0]).value).value.alg == "HS256" &&
    Decode(parts[1]).Some? && w.claimsFromJson(Decode(parts[1]).value) == Some(claims) && claims.iss == "mindex"
  }

  /** The refusals that do not depend on a readable payload. */
  lemma RefusedUnread(w: World, ring: Keyring, token: string, leeway: u64, now: u64)
    ensures Verify(w, ring, token, leeway, now) == Refuse(TooLong) <==> |token| > 8192
    ensures Verify(w, ring, token, leeway, now) == Refuse(NotThreeParts) <==> |token| <= 8192 && |Split(token, '.')| != 3
    ensures forall k :: Verify(w, ring, token, leeway, now) == Refuse(UnknownKeyId(k)) <==>
      KidOf(w, token) == Some(k) && k !in ring.keys
    ensures Verify(w, ring, token, leeway, now) == Refuse(BadSignature) <==>
      KidOf(w, token).Some? && KidOf(w, token).value in ring.keys &&
      Decode(Split(token, '.')[2]).Some? && !ProperlySigned(w, ring, token)
    ensures Verify(w, ring, token, leeway, now) == Refuse(SignatureNotBase64) <==>
      KidOf(w, token).Some? && KidOf(w, token).value in ring.keys && Decode(Split(token, '.')[2]).None?
  {
  }

  /** And those that do: a token is told that it has expired, or has not begun, or is
      accepted, exactly by the clock, and only once everything else about it holds. */
  lemma RefusedByTheClock(w: World, ring: Keyring, token: string, leeway: u64, now: u64)
    ensures Verify(w, ring, token, leeway, now) == Refuse(Expired) <==>
      exists c :: Carries(w, ring, token, c) && c.exp.Some? && now > c.exp.value + leeway
    ensures Verify(w, ring, token, leeway, now) == Refuse(NotYetValid) <==>
      exists c :: Carries(w, ring, token, c) && (c.exp.Some? ==> now <= c.exp.value + leeway) && c.nbf > now + leeway
    ensures forall c :: Verify(w, ring, token, leeway, now) == Accept(c) <==>
      Carries(w, ring, token, c) && (c.exp.Some? ==> now <= c.exp.value + leeway) && c.nbf <= now + leeway
  {
  }
}
