/** What is stored as a thumbprint, and that looking a key up under its RFC 7638 thumbprint finds it. */
module ThumbprintLookup {
  import opened Bytes
  import opened BigNum
  import opened Keys
  import opened Thumbprint
  import opened Jwks
  import opened Raw
  import opened FirstMatch
  import CompactJson
  import Base64url

  /** A key has a text unless an RSA number is zero or a coordinate does not fit its curve. */
  lemma TextIff(k: Key)
    requires WellTyped(k)
    ensures CanonicalJson(k).Some? <==>
            && (k.kty == RSA ==> k.pkey.value.n != 0 && k.pkey.value.e != 0)
            && (k.kty == EC ==> var w := CoordLen(k.pkey.value.group);
                                w > 0 ==> k.pkey.value.x < Pow256(w) && k.pkey.value.y < Pow256(w))
  {
    hide Ascii, Base64url.Encode, Padded, Minimal, CoordLen, Pow256;
    if k.kty == EC {
      PaddedIff(k.pkey.value.x, CoordLen(k.pkey.value.group));
      PaddedIff(k.pkey.value.y, CoordLen(k.pkey.value.group));
      CurveHasWidth(k);
    }
  }

  lemma CurveHasWidth(k: Key)
    requires WellTyped(k) && k.kty == EC
    ensures CoordLen(k.pkey.value.group) > 0
  {
    hide Ascii, CoordLen;
    var c :| c in EC_CURVES && k.crv == Ascii(c.crv) && k.pkey.value.group == c.group;
    EcWidth(c);
  }

  /** SHA-256 of the compact object of exactly the required members, RFC 7638 section 3. */
  function Digest(env: Env, k: Key): Option<bytes>
    requires WellTyped(k) && CanonicalJson(k).Some?
  {
    env.sha256(CompactJson.Object(CompactJson.MembersOf(k)))
  }

  lemma StoredDigest(env: Env, k: Key)
    requires Stored(env, k)
    ensures CanonicalJson(k).Some? && Digest(env, k).Some? ==>
              k.thumbprint == Base64url.Encode(Digest(env, k).value)
              && Base64url.Decode(k.thumbprint) == Digest(env, k)
    ensures CanonicalJson(k).None? || Digest(env, k).None? ==> k.thumbprint == []
  {
    hide CanonicalJson, WellTyped, Base64url.Encode, Base64url.Decode, CompactJson.Object, CompactJson.MembersOf;
    if CanonicalJson(k).Some? {
      CompactJson.CanonicalJsonIsCanonical(k);
      if Digest(env, k).Some? {
        Base64url.RoundTrip(Digest(env, k).value);
      }
    }
  }

  /** The keyset comes from a document of either kind. */
  predicate Parsed(env: Env, doc: bytes, keys: seq<Key>)
  {
    JwksKeys(env, doc) == Some(keys) || KeyvalKeys(env, doc) == Some(keys)
  }

  lemma ParsedIsStored(env: Env, doc: bytes, keys: seq<Key>)
    requires Parsed(env, doc, keys)
    ensures forall k <- keys :: Stored(env, k)
  {
    hide JwksKeys, KeyvalKeys, Stored;
    if JwksKeys(env, doc) == Some(keys) {
      JwksKeysInvariant(env, doc);
    } else {
      KeyvalKeysInvariant(env, doc);
    }
  }

  /** Every parsed key carries the base64url of the digest of its canonical text, or nothing where there is none. */
  lemma ThumbprintIsDigest(env: Env, doc: bytes, keys: seq<Key>, k: Key)
    requires Parsed(env, doc, keys) && k in keys
    ensures WellTyped(k)
    ensures CanonicalJson(k).Some? && Digest(env, k).Some? ==> Base64url.Decode(k.thumbprint) == Digest(env, k)
    ensures CanonicalJson(k).None? || Digest(env, k).None? ==> k.thumbprint == []
  {
    hide Stored, Parsed, CanonicalJson, Digest;
    ParsedIsStored(env, doc, keys);
    StoredDigest(env, k);
    StoredTyped(env, k);
  }

  /** Looked up under the encoded digest of its canonical text, a parsed key is found, or one of the same material. */
  lemma DigestFinds(env: Env, doc: bytes, keys: seq<Key>, k: Key)
    requires Parsed(env, doc, keys) && k in keys && CollisionFree(env)
    requires WellTyped(k) && CanonicalJson(k).Some? && Digest(env, k).Some? && Digest(env, k).value != []
    ensures var f := FindByThumbprint(keys, Base64url.Encode(Digest(env, k).value));
      f.Some? && WellTyped(f.value) && f.value.kty == k.kty && MaterialOf(f.value) == MaterialOf(k)
  {
    hide Stored, Parsed, CanonicalJson, Digest, WellTyped, Base64url.Encode;
    ParsedIsStored(env, doc, keys);
    StoredDigest(env, k);
    Base64url.EncodeFits(Digest(env, k).value);
    FoundIsStored(env, keys, k.thumbprint, k);
  }

  /** And under a digest that is no key's, nothing is found. */
  lemma ForeignDigestFindsNothing(env: Env, doc: bytes, keys: seq<Key>, digest: bytes)
    requires Parsed(env, doc, keys) && digest != []
    requires forall k <- keys :: WellTyped(k) && (CanonicalJson(k).Some? ==> Digest(env, k) != Some(digest))
    ensures FindByThumbprint(keys, Base64url.Encode(digest)) == None
  {
    hide Stored, Parsed, CanonicalJson, Digest, WellTyped, Base64url.Encode;
    ParsedIsStored(env, doc, keys);
    Base64url.EncodeFits(digest);
    var f := FindByThumbprint(keys, Base64url.Encode(digest));
    if f.Some? {
      StoredDigest(env, f.value);
      Base64url.EncodeInjective(digest, Digest(env, f.value).value);
    }
  }
}
