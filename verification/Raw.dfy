/** Detached verification: the key is named by thumbprint or by kid, and alg may be left out. */
module Raw {
  import opened Bytes
  import opened Keys
  import opened Verify
  import opened Thumbprint

  // ---------------------------------------------------------------- deriving the algorithm

  /** nxe_jwx_alg_from_key: the first row of the table that suits the key's type and curve. */
  function FirstSuited(table: seq<Alg>, k: Key): (r: Option<Alg>)
    requires k.kty == OKP || k.kty == EC
    ensures r.Some? ==> r.value in table && Suited(k, r.value)
    ensures r.None? ==> forall a <- table :: !Suited(k, a)
  {
    if table == [] then None
    else if Suited(k, table[0]) then Some(table[0])
    else FirstSuited(table[1..], k)
  }

  predicate Suited(k: Key, a: Alg)
  {
    if k.kty == OKP then a.family == EdDsa else a.family == Ecdsa && CurveMatches(k.pkey, a.curve)
  }

  function AlgFromKey(env: Env, k: Key): Option<Alg>
  {
    if k.kty == OKP || k.kty == EC then FirstSuited(Algs(env.hmac), k) else None
  }

  /** The loop of nxe_jwx_alg_from_key. */
  method DeriveAlg(env: Env, k: Key) returns (r: Option<Alg>)
    ensures r == AlgFromKey(env, k)
  {
    hide Suited, Algs;
    if k.kty != OKP && k.kty != EC {
      return None;
    }
    var table := Algs(env.hmac);
    var i := 0;
    while i < |table|
      invariant 0 <= i <= |table|
      invariant AlgFromKey(env, k) == FirstSuited(table[i..], k)
    {
      if Suited(k, table[i]) {
        return Some(table[i]);
      }
      i := i + 1;
    }
    return None;
  }

  function ResolveAlg(env: Env, k: Key, name: bytes): Option<Alg>
  {
    if name != [] then Lookup(env, name) else AlgFromKey(env, k)
  }

  /** nxe_jwx_jwks_verify_raw_with_key answers NGX_OK. */
  predicate KeyAccepts(env: Env, k: Key, name: bytes, msg: bytes, sig: bytes)
  {
    var a := ResolveAlg(env, k, name);
    a.Some? && Verifies(env, k, a.value, msg, sig)
  }

  // ---------------------------------------------------------------- by thumbprint

  function FindByThumbprint(keys: seq<Key>, tp: bytes): (r: Option<Key>)
    ensures r.Some? ==> tp != [] && r.value in keys && r.value.thumbprint == tp
    ensures r.None? ==> tp == [] || forall k <- keys :: k.thumbprint != tp
  {
    if tp == [] || keys == [] then None
    else if keys[0].thumbprint == tp then Some(keys[0])
    else FindByThumbprint(keys[1..], tp)
  }

  predicate AcceptsByThumbprint(env: Env, keys: seq<Key>, tp: bytes, name: bytes, msg: bytes, sig: bytes)
  {
    sig != [] && FindByThumbprint(keys, tp).Some? && KeyAccepts(env, FindByThumbprint(keys, tp).value, name, msg, sig)
  }

  /** nxe_jwx_jwks_find_by_thumbprint. */
  method FindKey(keys: seq<Key>, tp: bytes) returns (r: Option<Key>)
    ensures r == FindByThumbprint(keys, tp)
  {
    if tp == [] {
      return None;
    }
    var i := 0;
    while i < |keys|
      invariant 0 <= i <= |keys|
      invariant FindByThumbprint(keys, tp) == FindByThumbprint(keys[i..], tp)
    {
      if keys[i].thumbprint == tp {
        return Some(keys[i]);
      }
      i := i + 1;
    }
    return None;
  }

  /** nxe_jwx_jwks_verify_raw. */
  method VerifyRaw(env: Env, keys: seq<Key>, tp: bytes, name: bytes, msg: bytes, sig: bytes) returns (rc: Rc)
    ensures rc == if AcceptsByThumbprint(env, keys, tp, name, msg, sig) then Ok else Declined
  {
    hide KeyAccepts;
    if sig == [] {
      return Declined;
    }
    var k := FindKey(keys, tp);
    if k.None? {
      return Declined;
    }
    rc := WithKey(env, k.value, name, msg, sig);
  }

  /** nxe_jwx_jwks_verify_raw_with_key: the shared tail of both entry points. */
  method WithKey(env: Env, k: Key, name: bytes, msg: bytes, sig: bytes) returns (rc: Rc)
    ensures rc == if KeyAccepts(env, k, name, msg, sig) then Ok else Declined
  {
    hide VerifyWithKey;
    var a: Option<Alg>;
    if name != [] {
      a := LookupAlg(env, name);
    } else {
      a := DeriveAlg(env, k);
    }
    if a.None? {
      return Declined;
    }
    var outcome := VerifyWithKey(env, k, a.value, msg, sig);
    return if outcome == Verified then Ok else Declined;
  }

  // ---------------------------------------------------------------- by kid

  predicate AcceptsByKid(env: Env, keys: seq<Key>, kid: bytes, name: bytes, msg: bytes, sig: bytes)
  {
    sig != [] && exists i :: 0 <= i < |keys| && keys[i].kid != [] && keys[i].kid == kid
                             && KeyAccepts(env, keys[i], name, msg, sig)
  }

  /** nxe_jwx_jwks_verify_raw_by_kid: every key with that kid is tried. */
  method VerifyRawByKid(env: Env, keys: seq<Key>, kid: bytes, name: bytes, msg: bytes, sig: bytes) returns (rc: Rc)
    ensures rc == if AcceptsByKid(env, keys, kid, name, msg, sig) then Ok else Declined
  {
    hide KeyAccepts;
    if sig == [] {
      return Declined;
    }
    var i := 0;
    while i < |keys|
      invariant 0 <= i <= |keys|
      invariant forall j :: 0 <= j < i && keys[j].kid != [] && keys[j].kid == kid ==>
                  !KeyAccepts(env, keys[j], name, msg, sig)
    {
      var k := keys[i];
      if k.kid != [] && k.kid == kid {
        rc := WithKey(env, k, name, msg, sig);
        if rc == Ok {
          return;
        }
      }
      i := i + 1;
    }
    return Declined;
  }

  /** The token verifier and the raw verifier agree on a labelled key, duplicates of the label included. */
  lemma EntryPointsAgree(env: Env, t: Claim, keys: seq<Key>)
    requires t.kid != [] && HasKid(keys, t.kid) && t.alg != []
    ensures Policy(env, t, keys) <==> AcceptsByKid(env, keys, t.kid, t.alg, t.signingInput, t.signature)
  {
    hide Lookup, Verifies;
    if AcceptsByKid(env, keys, t.kid, t.alg, t.signingInput, t.signature) {
      var i :| 0 <= i < |keys| && keys[i].kid == t.kid && KeyAccepts(env, keys[i], t.alg, t.signingInput, t.signature);
      assert Eligible(keys, t.kid, keys[i]);
    }
    if Policy(env, t, keys) {
      var i :| 0 <= i < |keys| && Eligible(keys, t.kid, keys[i])
               && Verifies(env, keys[i], Lookup(env, t.alg).value, t.signingInput, t.signature);
      assert KeyAccepts(env, keys[i], t.alg, t.signingInput, t.signature);
    }
  }

  // ---------------------------------------------------------------- leaving alg out

  /** The row with a given first and third letter, and length. */
  function RowSpelled(c0: int, c2: int, len: nat): Alg
  {
    if c0 == 82 then (if c2 == 50 then RSA_ALGS[0] else if c2 == 51 then RSA_ALGS[1] else RSA_ALGS[2])
    else if c0 == 80 then (if c2 == 50 then RSA_ALGS[3] else if c2 == 51 then RSA_ALGS[4] else RSA_ALGS[5])
    else if c0 == 72 then (if c2 == 50 then HMAC_ALGS[0] else if c2 == 51 then HMAC_ALGS[1] else HMAC_ALGS[2])
    else if c2 == 68 then ED_ALG
    else if c2 == 51 then EC_ALGS[1]
    else if c2 == 53 then EC_ALGS[2]
    else if len == 5 then EC_ALGS[0]
    else EC_ALGS[3]
  }

  lemma SpellingRsa(a: Alg)
    requires a in RSA_ALGS
    ensures |Ascii(a.name)| > 2 && a == RowSpelled(Ascii(a.name)[0], Ascii(a.name)[2], |Ascii(a.name)|)
  {
  }

  lemma SpellingEc(a: Alg)
    requires a in EC_ALGS || a == ED_ALG
    ensures |Ascii(a.name)| > 2 && a == RowSpelled(Ascii(a.name)[0], Ascii(a.name)[2], |Ascii(a.name)|)
  {
  }

  lemma SpellingHmac(a: Alg)
    requires a in HMAC_ALGS
    ensures |Ascii(a.name)| > 2 && a == RowSpelled(Ascii(a.name)[0], Ascii(a.name)[2], |Ascii(a.name)|)
  {
  }

  lemma Spelling(hmac: bool, a: Alg)
    requires a in Algs(hmac)
    ensures |Ascii(a.name)| > 2 && a == RowSpelled(Ascii(a.name)[0], Ascii(a.name)[2], |Ascii(a.name)|)
  {
    hide RowSpelled, Ascii, Algs;
    RowsByFamily(hmac, a);
    match a.family
    case Rsa => SpellingRsa(a);
    case RsaPss => SpellingRsa(a);
    case Ecdsa => SpellingEc(a);
    case EdDsa => SpellingEc(a);
    case Hmac => SpellingHmac(a);
  }

  /** A row is found under its own name. */
  lemma LookupOwnName(env: Env, a: Alg)
    requires a in Algs(env.hmac)
    ensures Ascii(a.name) != [] && Lookup(env, Ascii(a.name)) == Some(a)
  {
    hide RowSpelled, Ascii, Algs;
    Spelling(env.hmac, a);
    Spelling(env.hmac, Lookup(env, Ascii(a.name)).value);
  }

  /** At most one row suits a key. */
  lemma SuitedUnique(hmac: bool, k: Key, a: Alg, b: Alg)
    requires a in Algs(hmac) && b in Algs(hmac) && Suited(k, a) && Suited(k, b)
    ensures a == b
  {
    hide Algs, EcRow;
    RowsByFamily(hmac, a);
    RowsByFamily(hmac, b);
    if k.kty != OKP {
      EcRowByCurve(a);
      EcRowByCurve(b);
    }
  }

  function EcRow(curve: string): Alg
  {
    if curve == "prime256v1" then EC_ALGS[0] else if curve == "secp384r1" then EC_ALGS[1]
    else if curve == "secp521r1" then EC_ALGS[2] else EC_ALGS[3]
  }

  lemma EcRowByCurve(a: Alg)
    requires a in EC_ALGS
    ensures a == EcRow(a.curve) && a.curve != ""
  {
    assert "prime256v1"[4] != "secp384r1"[4] && "prime256v1"[0] != "secp521r1"[0] && "prime256v1"[0] != "secp256k1"[0];
    assert "secp384r1"[4] != "secp521r1"[4] && "secp384r1"[4] != "secp256k1"[4] && "secp521r1"[4] != "secp256k1"[4];
  }

  /** A row that verifies with a well-typed curve key suits it. */
  lemma VerifiesIsSuited(env: Env, k: Key, a: Alg, msg: bytes, sig: bytes)
    requires a in Algs(env.hmac) && (k.kty == EC || k.kty == OKP) && Verifies(env, k, a, msg, sig)
    ensures Suited(k, a)
  {
    hide Algs, EcRow, Ascii;
    assert Compatible(k, a);
    RowsByFamily(env.hmac, a);
    if a.family == Ecdsa {
      EcRowByCurve(a);
    }
  }

  /**
   * Without alg, a curve key accepts exactly what it accepts under some explicit
   * name, and that name is unique; RSA and oct keys accept nothing.
   */
  lemma OmittedAlgIsExact(env: Env, k: Key, msg: bytes, sig: bytes)
    requires WellTyped(k)
    ensures k.kty == EC || k.kty == OKP ==>
      (KeyAccepts(env, k, [], msg, sig) <==> exists name :: name != [] && KeyAccepts(env, k, name, msg, sig))
    ensures k.kty == EC || k.kty == OKP ==>
      forall n, m :: n != [] && m != [] && KeyAccepts(env, k, n, msg, sig) && KeyAccepts(env, k, m, msg, sig) ==> n == m
    ensures k.kty == RSA || k.kty == OCT ==> !KeyAccepts(env, k, [], msg, sig)
  {
    hide Algs, WellTyped, Verifies, Suited, Ascii;
    if k.kty == EC || k.kty == OKP {
      if KeyAccepts(env, k, [], msg, sig) {
        var a := AlgFromKey(env, k).value;
        LookupOwnName(env, a);
        assert KeyAccepts(env, k, Ascii(a.name), msg, sig);
      }
      forall n | n != [] && KeyAccepts(env, k, n, msg, sig)
        ensures Lookup(env, n) == AlgFromKey(env, k) && KeyAccepts(env, k, [], msg, sig)
      {
        var a := Lookup(env, n).value;
        VerifiesIsSuited(env, k, a, msg, sig);
        SuitedUnique(env.hmac, k, a, AlgFromKey(env, k).value);
      }
    }
  }
}
