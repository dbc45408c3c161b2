/** Issuing, and the end-to-end result: what is issued is decoded and verified. */
module Issue {
  import opened Bytes
  import opened Keys
  import opened Compact
  import opened Verify
  import opened BigNum
  import Base64url
  import CompactJson
  import Der
  import Ecdsa

  // ---------------------------------------------------------------- the pieces

  /** nxe_jwx_privkey_compatible. */
  predicate PrivkeyCompatible(k: PrivateKey, a: Alg)
  {
    match a.family
    case Rsa => k.pub.RsaKey?
    case RsaPss => k.pub.RsaKey?
    case Ecdsa => k.pub.EcKey? && a.curve != "" && CurveMatches(Some(k.pub), a.curve)
    case EdDsa => k.pub.OkpKey?
    case Hmac => false
  }

  /** The signature octets for a row of the table; nonce stands for the signer's randomness. */
  function SignatureFor(env: Env, a: Alg, key: bytes, input: bytes, nonce: nat): Option<bytes>
  {
    if a.family == Hmac then env.mac(key, a.digest, input)
    else
      var k := env.loadPrivate(key);
      if k.None? || !PrivkeyCompatible(k.value, a) then None
      else
        var sig := env.sign(k.value, a.digest, a.family == RsaPss, input, nonce);
        if a.family != Ecdsa || sig.None? then sig
        else
          var raw := Ecdsa.DerToRaw(sig.value, a.coordLen);
          if raw.Converted? then Some(raw.value) else None
  }

  predicate IsObject(env: Env, text: bytes)
  {
    env.parse(text).Some? && env.parse(text).value.Object?
  }

  /** The segments nxe_jwx_encode assembles, when every check before the last one passes. */
  function Assemble(env: Env, alg: bytes, kid: bytes, claims: bytes, key: bytes, nonce: nat): Option<Segments>
  {
    var a := Lookup(env, alg);
    if |claims| > MAX_JWT_SIZE || a.None? || !IsObject(env, claims) then None
    else
      var header := HeaderFor(env, a.value.name, kid);
      if header.None? || |Base64url.Encode(header.value)| > MAX_JWT_HEADER then None
      else
        var s := Segments(Base64url.Encode(header.value), Base64url.Encode(claims), []);
        var sig := SignatureFor(env, a.value, key, s.Signing(), nonce);
        if sig.None? then None else Some(s.(signature := Base64url.Encode(sig.value)))
  }

  /** The token nxe_jwx_encode issues. */
  function Issued(env: Env, alg: bytes, kid: bytes, claims: bytes, key: bytes, nonce: nat): Option<bytes>
  {
    var s := Assemble(env, alg, kid, claims, key, nonce);
    if s.None? || |s.value.Join()| > MAX_JWT_SIZE then None else Some(s.value.Join())
  }

  // ---------------------------------------------------------------- the code

  /** nxe_jwx_build_header: the size is computed first, then filled exactly. */
  method BuildHeader(env: Env, alg: string, kid: bytes) returns (r: Option<bytes>)
    ensures r == HeaderFor(env, alg, kid)
    ensures r == if kid == [] then Some(CompactJson.HeaderText(Ascii(alg), None))
                 else if env.quote(kid).None? then None
                 else Some(CompactJson.HeaderText(Ascii(alg), env.quote(kid)))
  {
    CompactJson.HeaderForIsText(env, alg, kid);
    hide Ascii, CompactJson.HeaderText, HeaderJson;
    var start, mid, kidKey, end := Ascii("{\"alg\":\""), Ascii("\",\"typ\":\"JWT\""), Ascii(",\"kid\":"), Ascii("}");
    var name := Ascii(alg);
    var quoted: Option<bytes> := None;
    if kid != [] {
      quoted := env.quote(kid);
      if quoted.None? {
        return None;
      }
    }
    var total := |start| + |name| + |mid| + |end|;
    if quoted.Some? {
      total := total + |kidKey| + |quoted.value|;
    }
    var header := new byte[total];
    var p := Append(header, 0, start);
    p := Append(header, p, name);
    p := Append(header, p, mid);
    if quoted.Some? {
      p := Append(header, p, kidKey);
      p := Append(header, p, quoted.value);
    }
    p := Append(header, p, end);
    assert p == total;
    HeaderSpliced(alg, quoted);
    assert header[..p] == HeaderJson(alg, quoted);
    return Some(header[..p]);
  }

  /** The header as the pieces that are copied one after the other. */
  lemma HeaderSpliced(alg: string, quoted: Option<bytes>)
    ensures var start, mid, end := Ascii("{\"alg\":\""), Ascii("\",\"typ\":\"JWT\""), Ascii("}");
      HeaderJson(alg, quoted) ==
      if quoted.None? then start + Ascii(alg) + mid + end
      else start + Ascii(alg) + mid + Ascii(",\"kid\":") + quoted.value + end
  {
    hide Ascii;
  }

  /** The caller's ngx_str_t. */
  class Output {
    var data: array?<byte>
    var len: nat

    /** Empty, or a token followed by its terminating zero. */
    predicate Holds(token: Option<bytes>)
      reads this, data
    {
      if token.None? then data == null && len == 0
      else data != null && data.Length == len + 1 && data[..len] == token.value && data[len] == 0
    }
  }

  /** The signing input, written into a buffer of exactly its size. */
  method WriteInput(header: bytes, payload: bytes) returns (input: array<byte>)
    ensures input[..] == header + [DOT] + payload
  {
    input := new byte[|header| + 1 + |payload|];
    var p := Append(input, 0, header);
    p := Append(input, p, [DOT]);
    p := Append(input, p, payload);
    assert input[..] == input[..p];
  }

  /** The token and its terminating zero, written into the caller's string when the size permits. */
  method WriteToken(out: Output, input: bytes, sigB64: bytes) returns (rc: Rc)
    requires out.data == null && out.len == 0
    modifies out
    ensures var token := input + [DOT] + sigB64;
      && out.Holds(if |token| > MAX_JWT_SIZE then None else Some(token))
      && rc == if |token| > MAX_JWT_SIZE then Error else Ok
    ensures rc == Ok ==> fresh(out.data)
  {
    out.len := |input| + 1 + |sigB64|;
    if out.len > MAX_JWT_SIZE {
      out.len := 0;
      return Error;
    }
    var data := new byte[out.len + 1];
    var p := Append(data, 0, input);
    p := Append(data, p, [DOT]);
    p := Append(data, p, sigB64);
    data[p] := 0;
    out.data := data;
    assert data[..p] == input + [DOT] + sigB64;
    return Ok;
  }

  /** The family switch of nxe_jwx_encode: the signature octets that go into the token. */
  method Sign(env: Env, a: Alg, key: bytes, input: bytes, nonce: nat) returns (r: Option<bytes>)
    ensures r == SignatureFor(env, a, key, input, nonce)
  {
    hide Ecdsa.DerToRaw, PrivkeyCompatible;
    if a.family == Hmac {
      return env.mac(key, a.digest, input);
    }
    var k := env.loadPrivate(key);
    if k.None? || !PrivkeyCompatible(k.value, a) {
      return None;
    }
    r := env.sign(k.value, a.digest, a.family == RsaPss, input, nonce);
    if a.family == Ecdsa && r.Some? {
      var raw := Ecdsa.WriteRaw(r.value, a.coordLen);
      r := if raw.Converted? then Some(raw.value) else None;
    }
  }

  /** nxe_jwx_encode. */
  method Encode(env: Env, alg: bytes, kid: bytes, claims: bytes, key: bytes, nonce: nat, out: Output) returns (rc: Rc)
    modifies out
    ensures alg == [] || claims == [] || key == [] ==> rc == Error && out.data == old(out.data) && out.len == old(out.len)
    ensures alg != [] && claims != [] && key != [] ==>
              out.Holds(Issued(env, alg, kid, claims, key, nonce))
              && rc == if Issued(env, alg, kid, claims, key, nonce).Some? then Ok else Error
    ensures rc == Ok ==> fresh(out.data)
  {
    hide Lookup, SignatureFor, HeaderFor, Base64url.Encode;
    if alg == [] || claims == [] || key == [] {
      return Error;
    }
    out.data, out.len := null, 0;
    if |claims| > MAX_JWT_SIZE {
      return Error;
    }
    if alg == Ascii("none") {
      NamesInTable(env, alg);
      return Error;
    }
    var a := LookupAlg(env, alg);
    if a.None? || !IsObject(env, claims) {
      return Error;
    }
    var header := BuildHeader(env, a.value.name, kid);
    if header.None? {
      return Error;
    }
    var headerB64 := Base64url.EncodeBuffer(header.value);
    var payloadB64 := Base64url.EncodeBuffer(claims);
    if |headerB64| > MAX_JWT_HEADER {
      return Error;
    }
    var input := WriteInput(headerB64, payloadB64);
    var sig := Sign(env, a.value, key, input[..], nonce);
    if sig.None? {
      return Error;
    }
    var sigB64 := Base64url.EncodeBuffer(sig.value);
    rc := WriteToken(out, input[..], sigB64);
  }

  // ---------------------------------------------------------------- what is issued decodes

  lemma EncodedDotFree(b: bytes)
    ensures FreeOf(DOT, Base64url.Encode(b))
  {
    hide Base64url.Encode;
    Base64url.EncodeSextets(b);
  }

  lemma AssembledValid(env: Env, alg: bytes, kid: bytes, claims: bytes, key: bytes, nonce: nat)
    requires Assemble(env, alg, kid, claims, key, nonce).Some? && claims != []
    ensures Assemble(env, alg, kid, claims, key, nonce).value.Valid()
  {
    hide Base64url.Encode, Ascii, SignatureFor, Lookup;
    var header := HeaderFor(env, Lookup(env, alg).value.name, kid).value;
    var s := Assemble(env, alg, kid, claims, key, nonce).value;
    var sig := SignatureFor(env, Lookup(env, alg).value, key, s.Signing(), nonce);
    EncodedDotFree(header);
    EncodedDotFree(claims);
    EncodedDotFree(sig.value);
    assert header != [] by { assert Ascii("}") != []; }
    Base64url.EncodeFits(header);
    Base64url.EncodeFits(claims);
  }

  /** The signature octets inside an issued token. */
  function IssuedSignature(env: Env, alg: bytes, kid: bytes, claims: bytes, key: bytes, nonce: nat): bytes
    requires Assemble(env, alg, kid, claims, key, nonce).Some?
  {
    var s := Assemble(env, alg, kid, claims, key, nonce).value;
    SignatureFor(env, Lookup(env, alg).value, key, s.Signing(), nonce).value
  }

  /** Decoding an issued token gives back the header, the claims, the signed octets and the signature. */
  lemma IssuedDecodes(env: Env, alg: bytes, kid: bytes, claims: bytes, key: bytes, nonce: nat)
    requires HeaderLaw(env) && claims != [] && Issued(env, alg, kid, claims, key, nonce).Some?
    ensures var s := Assemble(env, alg, kid, claims, key, nonce).value;
      DecodeToken(env, Issued(env, alg, kid, claims, key, nonce).value)
      == Some(Decoded(env.parse(HeaderFor(env, Lookup(env, alg).value.name, kid).value).value,
                      env.parse(claims).value,
                      Claim(alg, kid, s.Signing(), IssuedSignature(env, alg, kid, claims, key, nonce))))
  {
    hide Base64url.Encode, Base64url.Decode, SignatureFor, Lookup, Split, HeaderFor;
    var a := Lookup(env, alg).value;
    var s := Assemble(env, alg, kid, claims, key, nonce).value;
    LookupRow(env, alg);
    AssembledValid(env, alg, kid, claims, key, nonce);
    SplitJoin(s);
    Base64url.RoundTrip(HeaderFor(env, a.name, kid).value);
    Base64url.RoundTrip(claims);
    Base64url.RoundTrip(IssuedSignature(env, alg, kid, claims, key, nonce));
  }

  // ---------------------------------------------------------------- what is issued verifies

  /** pkey checks what the private side of pub signs under a: pub itself, for PSS padding also its plain form. */
  predicate Serves(a: Alg, pub: PKey, pkey: PKey)
  {
    pkey == pub || (a.family == RsaPss && pub.RsaKey? && pkey == pub.(form := Plain))
  }

  /** k serves the issuing key and may be used with a. */
  predicate Matches(env: Env, k: Key, a: Alg, key: bytes)
  {
    && (k.alg == [] || k.alg == Ascii(a.name))
    && if a.family == Hmac then k.kty == OCT && k.secret == key
       else
         && env.loadPrivate(key).Some?
         && k.pkey.Some? && Serves(a, env.loadPrivate(key).value.pub, k.pkey.value)
         && k.kty == match a.family { case Ecdsa => EC case EdDsa => OKP case _ => RSA }
  }

  /** An EC signature survives the trip through the fixed-width form. */
  lemma EcSignatureSurvives(env: Env, a: Alg, k: PrivateKey, input: bytes, nonce: nat)
    requires SignLaw(env) && k.pub.EcKey?
    requires env.sign(k, a.digest, false, input, nonce).Some?
    requires Ecdsa.DerToRaw(env.sign(k, a.digest, false, input, nonce).value, a.coordLen).Converted?
    ensures var der := env.sign(k, a.digest, false, input, nonce).value;
      Ecdsa.RawToDer(Ecdsa.DerToRaw(der, a.coordLen).value, a.coordLen) == Ecdsa.Converted(der)
  {
    hide Ecdsa.DerToRaw, Ecdsa.RawToDer, Der.EncodeSig, Der.Parse, Der.Canonical;
    var der := env.sign(k, a.digest, false, input, nonce).value;
    var r: nat, t: nat :| Der.EncodeSig(r, t) == Some(der);
    Der.SigRoundTrip(r, t, []);
    Ecdsa.DerRoundTripIff(der, a.coordLen);
  }

  lemma CoordLenPositive(env: Env, a: Alg)
    requires a in Algs(env.hmac)
    ensures a.family == Ecdsa ==> a.coordLen > 0
    ensures a.family == EdDsa ==> a.digest == ""
  {
    RowsByFamily(env.hmac, a);
  }

  /**
   * For ECDSA the token carries the signer's two integers, each in the curve's
   * width; a token is refused exactly when one of them does not fit.
   */
  lemma EcSignatureOctets(env: Env, a: Alg, key: bytes, input: bytes, nonce: nat) returns (r: nat, s: nat)
    requires SignLaw(env) && a.family == Ecdsa && env.loadPrivate(key).Some?
    requires PrivkeyCompatible(env.loadPrivate(key).value, a)
    requires env.sign(env.loadPrivate(key).value, a.digest, false, input, nonce).Some?
    ensures Der.EncodeSig(r, s) == env.sign(env.loadPrivate(key).value, a.digest, false, input, nonce)
    ensures SignatureFor(env, a, key, input, nonce).Some? <==> r < Pow256(a.coordLen) && s < Pow256(a.coordLen)
    ensures SignatureFor(env, a, key, input, nonce).Some? ==>
              var raw, w := SignatureFor(env, a, key, input, nonce).value, a.coordLen;
              |raw| == 2 * w && ToNat(raw[..w]) == r && ToNat(raw[w..]) == s
  {
    hide Der.EncodeSig, Der.DecodeSig, Der.Parse, Der.Canonical, Padded, ToNat;
    var w, k := a.coordLen, env.loadPrivate(key).value;
    assert env.sign(k, a.digest, false, input, nonce).Some?;
    var der := env.sign(k, a.digest, false, input, nonce).value;
    r, s :| Der.EncodeSig(r, s) == Some(der);
    Der.SigRoundTrip(r, s, []);
    assert der + [] == der;
    Ecdsa.DerToRawIff(der, w);
    if SignatureFor(env, a, key, input, nonce).Some? {
      var raw := SignatureFor(env, a, key, input, nonce).value;
      NatOfPadded(r, w);
      NatOfPadded(s, w);
      assert raw[..w] == Padded(r, w).value && raw[w..] == Padded(s, w).value;
    }
  }

  /** Every matching key verifies the signature, and there is something to verify. */
  lemma SignatureVerifies(env: Env, a: Alg, k: Key, key: bytes, input: bytes, nonce: nat)
    requires SignLaw(env) && MacLaw(env) && a in Algs(env.hmac)
    requires SignatureFor(env, a, key, input, nonce).Some? && Matches(env, k, a, key)
    ensures SignatureFor(env, a, key, input, nonce).value != []
    ensures Verifies(env, k, a, input, SignatureFor(env, a, key, input, nonce).value)
  {
    hide Ecdsa.DerToRaw, Ecdsa.RawToDer, Algs, Ascii;
    CoordLenPositive(env, a);
    if a.family == Ecdsa {
      var p := env.loadPrivate(key).value;
      EcSignatureSurvives(env, a, p, input, nonce);
      Ecdsa.DerRoundTripIff(env.sign(p, a.digest, false, input, nonce).value, a.coordLen);
    }
  }

  /**
   * Issue, then verify: the token decodes, and it verifies against every keyset
   * in which some eligible key matches the issuing key and is unpinned or pinned
   * to the same algorithm.
   */
  lemma IssuedVerifies(env: Env, alg: bytes, kid: bytes, claims: bytes, key: bytes, nonce: nat, keys: seq<Key>, i: nat)
    requires Lawful(env) && claims != [] && Issued(env, alg, kid, claims, key, nonce).Some?
    requires i < |keys| && Eligible(keys, kid, keys[i]) && Matches(env, keys[i], Lookup(env, alg).value, key)
    ensures var d := DecodeToken(env, Issued(env, alg, kid, claims, key, nonce).value);
      d.Some? && Policy(env, d.value.claim, keys)
  {
    hide Base64url.Encode, SignatureFor, Lookup, HeaderFor, DecodeToken, Verifies,
        SignLaw, MacLaw, HeaderLaw, Eligible, Matches;
    IssuedDecodes(env, alg, kid, claims, key, nonce);
    LookupRow(env, alg);
    var s := Assemble(env, alg, kid, claims, key, nonce).value;
    SignatureVerifies(env, Lookup(env, alg).value, keys[i], key, s.Signing(), nonce);
  }
}
