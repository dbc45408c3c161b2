/** Keysets written out as JWKS documents and read again, and the issuing key published to its verifiers. */
module Publish {
  import opened Bytes
  import opened BigNum
  import opened Keys
  import opened Verify
  import opened Thumbprint
  import opened Jwks
  import opened JwkRoundTrip
  import opened Compact
  import opened Issue
  import Base64url
  import Ecdsa

  // ---------------------------------------------------------------- what was parsed can be published

  lemma RsaRebuildable(env: Env, k: Key)
    requires WellTyped(k) && k.kty == RSA && RangeKept(k)
    ensures CanonicalJson(k).Some? <==> k.pkey.value.e != 0
  {
    hide Base64url.Encode, Minimal, RsaJson;
    assert k.pkey.value.n != 0;
  }

  lemma EcRebuildable(env: Env, k: Key, jwk: Json)
    requires jwk.Object? && WellTyped(k) && k.kty == EC && EcPart(env, k.crv, jwk) == Built(k.pkey.value)
    ensures CanonicalJson(k).Some? && Rebuildable(env, k)
  {
    hide Ascii, B64Field, Base64url.Encode, ToNat, CoordLen, BnToB64url, EcJson;
    EcEntryCoordinates(env, k.crv, jwk);
  }

  lemma OkpRebuildable(env: Env, k: Key, jwk: Json)
    requires jwk.Object? && WellTyped(k) && k.kty == OKP && OkpPart(env, k.crv, jwk) == Built(k.pkey.value)
    ensures CanonicalJson(k).Some? && Rebuildable(env, k)
  {
    hide Ascii, B64Field, Base64url.Encode, OkpJson;
    var c := CurveByCrv(OKP_CURVES, k.crv).value;
    forall d | d in OKP_CURVES && k.crv == Ascii(d.crv)
      ensures d == c
    {
      CurveByName(OKP_CURVES, c, d);
    }
  }

  /** A key read from a JWK can be built again, and has a text unless its RSA exponent is zero. */
  lemma ReadRebuildable(env: Env, jwk: Json)
    requires jwk.Object? && ReadJwk(env, jwk).Usable?
    ensures var k := ReadJwk(env, jwk).key;
      && WellTyped(k) && Rebuildable(env, k)
      && (CanonicalJson(k).Some? <==> !ZeroExponent(k))
  {
    hide Ascii, Base64url.Encode, B64Field, EcPart, OkpPart, BnToB64url, ThumbprintOf, HasString, StringMember,
         CoordLen;
    JwkKeyInvariant(env, jwk);
    var k := ReadJwk(env, jwk).key;
    match k.kty {
      case RSA => RsaRebuildable(env, k);
      case EC => EcRebuildable(env, k, jwk);
      case OKP => OkpRebuildable(env, k, jwk);
      case OCT =>
    }
  }

  predicate ZeroExponent(k: Key)
  {
    k.pkey.Some? && k.pkey.value.RsaKey? && k.pkey.value.e == 0
  }

  /** A parsed keyset can be published, exactly when no RSA exponent in it is zero. */
  lemma ParsedIsPublishable(env: Env, doc: bytes)
    requires JwksKeys(env, doc).Some?
    ensures Publishable(env, JwksKeys(env, doc).value) <==>
            forall k <- JwksKeys(env, doc).value :: !ZeroExponent(k)
  {
    hide ReadJwk, FromJwk, CanonicalJson, Rebuildable, ThumbprintOf;
    var entries := JwksEntries(env, doc).value;
    var ps := ReadAll(env, entries);
    KeysComeFrom(ps);
    JwksKeysInvariant(env, doc);
    forall k | k in JwksKeys(env, doc).value
      ensures WellTyped(k) && Rebuildable(env, k)
      ensures CanonicalJson(k).Some? <==> !ZeroExponent(k)
    {
      var i :| 0 <= i < |ps| && ps[i] == Usable(k);
      ReadRebuildable(env, entries[i]);
    }
  }

  // ---------------------------------------------------------------- publishing changes no verdict

  lemma NormalVerifies(env: Env, k: Key, a: Alg, msg: bytes, sig: bytes)
    requires WellTyped(k)
    ensures Verifies(env, Normal(env, k), a, msg, sig) <==> Verifies(env, k, a, msg, sig)
  {
    hide Ascii, ThumbprintOf;
  }

  /** Reading a published keyset gives verdicts as the keyset itself does, on every token. */
  lemma PublishedSamePolicy(env: Env, doc: bytes, keys: seq<Key>, t: Claim)
    requires Publishable(env, keys) && Publishes(env, doc, keys)
    ensures JwksKeys(env, doc).Some?
    ensures Policy(env, t, JwksKeys(env, doc).value) <==> Policy(env, t, keys)
  {
    hide JwksKeys, Normal, Lookup, Verifies, WellTyped, CanonicalJson, Rebuildable, Publishes;
    DocumentRoundTrip(env, doc, keys);
    var keys' := NormalAll(env, keys);
    forall i | 0 <= i < |keys|
      ensures keys'[i].kid == keys[i].kid
      ensures forall a, msg, sig :: Verifies(env, keys'[i], a, msg, sig) <==> Verifies(env, keys[i], a, msg, sig)
    {
      assert keys[i] in keys;
      NormalKid(env, keys[i]);
      forall a, msg, sig ensures Verifies(env, keys'[i], a, msg, sig) <==> Verifies(env, keys[i], a, msg, sig) {
        NormalVerifies(env, keys[i], a, msg, sig);
      }
    }
    assert HasKid(keys', t.kid) <==> HasKid(keys, t.kid);
  }

  lemma NormalKid(env: Env, k: Key)
    requires WellTyped(k)
    ensures Normal(env, k).kid == k.kid
  {
  }

  /** Republishing what was parsed: the second document verifies exactly what the first one does. */
  lemma RepublishedSamePolicy(env: Env, doc: bytes, doc': bytes, t: Claim)
    requires JwksKeys(env, doc).Some?
    requires Publishable(env, JwksKeys(env, doc).value) && Publishes(env, doc', JwksKeys(env, doc).value)
    ensures JwksKeys(env, doc').Some?
    ensures Policy(env, t, JwksKeys(env, doc').value) <==> Policy(env, t, JwksKeys(env, doc).value)
    ensures |JwksKeys(env, doc').value| == |JwksKeys(env, doc).value|
    ensures forall i :: 0 <= i < |JwksKeys(env, doc).value| ==>
              JwksKeys(env, doc').value[i].thumbprint == JwksKeys(env, doc).value[i].thumbprint
  {
    hide JwksKeys, Normal, Policy, WellTyped, CanonicalJson, Rebuildable, Publishes, FromJwk;
    var keys := JwksKeys(env, doc).value;
    PublishedSamePolicy(env, doc', keys, t);
    DocumentRoundTrip(env, doc', keys);
    JwksKeysInvariant(env, doc);
    forall i | 0 <= i < |keys|
      ensures NormalAll(env, keys)[i].thumbprint == keys[i].thumbprint
    {
      assert keys[i] in keys;
      NormalThumbprint(env, keys[i]);
    }
  }

  lemma NormalThumbprint(env: Env, k: Key)
    requires FromJwk(env, k)
    ensures WellTyped(k) && Normal(env, k).thumbprint == k.thumbprint
  {
    hide WellTyped, ThumbprintOf;
  }

  // ---------------------------------------------------------------- a short modulus does not reject a document

  /** A published RSA key whose modulus is out of range is an out-of-range entry. */
  lemma PublishedOutOfRange(k: Key)
    requires WellTyped(k) && k.kty == RSA && CanonicalJson(k).Some? && !InRange(k.pkey.value.n)
    ensures OutOfRange(Published(k))
  {
    hide Ascii, B64Field, Minimal, ToNat, Published, InRange, CanonicalJson, Labels;
    RsaReads(k);
    RsaFieldsFound(k);
    NatOfMinimal(k.pkey.value.n);
  }

  lemma ShortText(k: Key)
    requires k.kty == RSA && k.pkey == Some(RsaKey(Plain, 3, 1))
    ensures WellTyped(k) && CanonicalJson(k).Some?
    ensures !InRange(3)
  {
    hide BnToB64url;
    RsaTextIsMinimal(3);
    RsaTextIsMinimal(1);
  }

  /** An RSA key with a modulus of two bits. */
  function ShortKey(): (k: Key)
    ensures WellTyped(k) && CanonicalJson(k).Some?
    ensures k.kty == RSA && k.pkey == Some(RsaKey(Plain, 3, 1))
  {
    var k := Key(RSA, [], [], [], [], Some(RsaKey(Plain, 3, 1)), []);
    ShortText(k);
    k
  }

  function SecretKey(): (k: Key)
    ensures WellTyped(k) && CanonicalJson(k).Some? && k.kty == OCT
  {
    Key(OCT, [], [], [], [], None, [1])
  }

  /** A build with MACs, whose JSON library reads every text as the short key and the secret. */
  function ShortEnv(): Env
  {
    Env(true, (_, _, _, _, _) => Rejected, (_, _, _, _, _) => None, (_, _, _) => None, b => Some(b),
        _ => None, _ => None, (_, _) => true, (_, _, _) => true, (_, _) => true,
        _ => Some(Object([(Ascii("keys"), Array([Published(ShortKey()), Published(SecretKey())]))])), _ => None)
  }

  lemma ShortEntries(doc: bytes)
    requires 0 < |doc| <= MAX_JWKS_SIZE
    ensures JwksEntries(ShortEnv(), doc) == Some([Published(ShortKey()), Published(SecretKey())])
  {
    hide Published, ShortKey, SecretKey, Ascii;
  }

  /** A document with a two-bit modulus is not rejected: its other key is stored. */
  lemma ShortModulusIsNoRejection(doc: bytes)
    requires 0 < |doc| <= MAX_JWKS_SIZE
    ensures JwksEntries(ShortEnv(), doc).Some? && OutOfRange(JwksEntries(ShortEnv(), doc).value[0])
    ensures JwksKeys(ShortEnv(), doc) == Some([Normal(ShortEnv(), SecretKey())])
  {
    hide CanonicalJson, WellTyped, Published, OutOfRange, Normal, Ascii, InRange, ReadJwk, ShortKey, JwksEntries;
    var env, es := ShortEnv(), [Published(ShortKey()), Published(SecretKey())];
    ShortEntries(doc);
    ShortText(ShortKey());
    PublishedOutOfRange(ShortKey());
    OutOfRangeEntryIsDropped(env, doc, 0);
    assert Without(es, 0) == [Published(SecretKey())];
    PublishedKeyRoundTrip(env, SecretKey());
    CollectUsable(ReadAll(env, Without(es, 0)), [Normal(env, SecretKey())]);
  }

  // ---------------------------------------------------------------- the issuing key, published

  /**
   * The public key a JWK carries for an issuing key: an RSA key's n and e, which do
   * for a PSS-typed key as long as the algorithm's padding is PSS too.
   */
  function PublicSide(a: Alg, pub: PKey): Option<PKey>
  {
    if pub.RsaKey? then (if pub.form.Plain? || a.family == RsaPss then Some(pub.(form := Plain)) else None)
    else if Supported(pub) then Some(pub)
    else None
  }

  /** The public side of an issuing key, labelled and perhaps pinned; for a MAC the secret itself. */
  function IssuerKey(env: Env, a: Alg, key: bytes, name: bytes, pin: bytes): Option<Key>
  {
    if a.family == Hmac then Some(ZERO_KEY.(kty := OCT, kid := name, alg := pin, secret := key))
    else
      var p := env.loadPrivate(key);
      if p.None? || PublicSide(a, p.value.pub).None? then None
      else Some(PemKey(name, PublicSide(a, p.value.pub).value).(alg := pin))
  }

  /** A stored public key that serves the issuing key matches it. */
  lemma PemMatches(env: Env, a: Alg, key: bytes, pkey: PKey, name: bytes, pin: bytes, tp: bytes,
                   input: bytes, nonce: nat)
    requires SignatureFor(env, a, key, input, nonce).Some? && a.family != Hmac
    requires Serves(a, env.loadPrivate(key).value.pub, pkey) && Supported(pkey)
    requires pin == [] || pin == Ascii(a.name)
    ensures Matches(env, PemKey(name, pkey).(alg := pin, thumbprint := tp), a, key)
  {
    hide Ascii, Ecdsa.DerToRaw;
  }

  lemma IssuerMatches(env: Env, a: Alg, key: bytes, name: bytes, pin: bytes, input: bytes, nonce: nat)
    requires SignatureFor(env, a, key, input, nonce).Some? && IssuerKey(env, a, key, name, pin).Some?
    requires pin == [] || pin == Ascii(a.name)
    ensures Matches(env, IssuerKey(env, a, key, name, pin).value, a, key)
  {
    hide Ascii, SignatureFor;
    if a.family != Hmac {
      hide Matches;
      PemMatches(env, a, key, PublicSide(a, env.loadPrivate(key).value.pub).value, name, pin, [], input, nonce);
    }
  }

  /**
   * Publish, issue, verify: a document that publishes the issuing key's public
   * side, with or without a pin, parses to a keyset that verifies every token issued
   * with it, whatever other keys it holds. The key stands under the token's kid, or
   * unlabelled when no key has that kid, or under any label for a token without. A PSS-typed
   * key is published by its n and e, when the algorithm's padding is PSS.
   */
  lemma IssuedVerifiesAgainstPublished(env: Env, alg: bytes, kid: bytes, claims: bytes, key: bytes, nonce: nat,
                                       name: bytes, pin: bytes, keys: seq<Key>, i: nat, doc: bytes)
    requires Lawful(env) && claims != [] && Issued(env, alg, kid, claims, key, nonce).Some?
    requires pin == [] || pin == alg
    requires kid == [] || name == kid || (name == [] && forall k <- keys :: k.kid != kid)
    requires i < |keys| && IssuerKey(env, Lookup(env, alg).value, key, name, pin) == Some(keys[i])
    requires Publishable(env, keys) && Publishes(env, doc, keys)
    ensures JwksKeys(env, doc).Some?
    ensures var d := DecodeToken(env, Issued(env, alg, kid, claims, key, nonce).value);
      d.Some? && Policy(env, d.value.claim, JwksKeys(env, doc).value)
  {
    hide Base64url.Encode, SignatureFor, Lookup, HeaderFor, DecodeToken, Policy, Lawful, Matches,
         JwksKeys, Publishable, Publishes;
    LookupRow(env, alg);
    var a, s := Lookup(env, alg).value, Assemble(env, alg, kid, claims, key, nonce).value;
    IssuerMatches(env, a, key, name, pin, s.Signing(), nonce);
    IssuerLabel(env, a, key, name, pin);
    assert Eligible(keys, kid, keys[i]);
    IssuedVerifies(env, alg, kid, claims, key, nonce, keys, i);
    PublishedSamePolicy(env, doc, keys, DecodeToken(env, Issued(env, alg, kid, claims, key, nonce).value).value.claim);
  }

  lemma IssuerLabel(env: Env, a: Alg, key: bytes, name: bytes, pin: bytes)
    requires IssuerKey(env, a, key, name, pin).Some?
    ensures IssuerKey(env, a, key, name, pin).value.kid == name
  {
  }

  /** The same for a keyval document, with a PEM text that serves the issuing key under the token's kid. */
  lemma IssuedVerifiesAgainstKeyval(env: Env, alg: bytes, kid: bytes, claims: bytes, key: bytes, nonce: nat,
                                    doc: bytes, i: nat)
    requires Lawful(env) && claims != [] && Issued(env, alg, kid, claims, key, nonce).Some?
    requires KeyvalEntries(env, doc).Some? && i < |KeyvalEntries(env, doc).value|
    requires var (member, pem) := KeyvalEntries(env, doc).value[i];
      && member != [] && (kid == [] || kid == member) && pem.String? && pem.text != []
      && Lookup(env, alg).value.family != Hmac && env.loadPrivate(key).Some?
      && env.loadPublic(pem.text).Some? && Supported(env.loadPublic(pem.text).value)
      && Serves(Lookup(env, alg).value, env.loadPrivate(key).value.pub, env.loadPublic(pem.text).value)
    ensures KeyvalKeys(env, doc).Some?
    ensures var d := DecodeToken(env, Issued(env, alg, kid, claims, key, nonce).value);
      d.Some? && Policy(env, d.value.claim, KeyvalKeys(env, doc).value)
  {
    hide Base64url.Encode, SignatureFor, Lookup, HeaderFor, DecodeToken, Policy, Lawful, Matches, ThumbprintOf;
    LookupRow(env, alg);
    var a, s := Lookup(env, alg).value, Assemble(env, alg, kid, claims, key, nonce).value;
    var (member, pem) := KeyvalEntries(env, doc).value[i];
    var ps := ReadAllPem(env, KeyvalEntries(env, doc).value);
    var k := ps[i].key;
    var from := CollectIsStableFilter(ps);
    KeysComeFrom(ps);
    assert Usable(k) in ps;
    var keys := KeyvalKeys(env, doc).value;
    var j :| 0 <= j < |keys| && keys[j] == k;
    PemMatches(env, a, key, env.loadPublic(pem.text).value, member, [], k.thumbprint, s.Signing(), nonce);
    assert Eligible(keys, kid, keys[j]);
    IssuedVerifies(env, alg, kid, claims, key, nonce, keys, j);
  }
}
