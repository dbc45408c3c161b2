/** Key selection and verification: the two-pass verifier and the two raw entry points. */
module Verify {
  import opened Bytes
  import opened Keys
  import Ecdsa

  // ---------------------------------------------------------------- one key

  predicate CurveMatches(pkey: Option<PKey>, group: string)
  {
    pkey.Some? && pkey.value.EcKey? && pkey.value.group == group
  }

  /** nxe_jwx_key_compatible: the pin first, then the family against the key type. */
  predicate Compatible(k: Key, a: Alg)
  {
    && (k.alg == [] || k.alg == Ascii(a.name))
    && match a.family {
         case Rsa => k.kty == RSA
         case RsaPss => k.kty == RSA
         case Ecdsa => k.kty == EC && (a.curve == "" || CurveMatches(k.pkey, a.curve))
         case EdDsa => k.kty == OKP && k.pkey.Some? && k.pkey.value.OkpKey?
         case Hmac => k.kty == OCT
       }
  }

  function EvpVerify(env: Env, pkey: Option<PKey>, digest: string, pss: bool, msg: bytes, sig: bytes): Outcome
  {
    if pkey.None? then Failed else env.verify(pkey.value, digest, pss, msg, sig)
  }

  function HmacVerify(env: Env, secret: bytes, digest: string, msg: bytes, sig: bytes): Outcome
  {
    var mac := env.mac(secret, digest, msg);
    if mac.None? then Failed else if mac.value == sig then Verified else Rejected
  }

  /** nxe_jwx_verify_with_key. */
  function VerifyWithKey(env: Env, k: Key, a: Alg, msg: bytes, sig: bytes): Outcome
  {
    if !Compatible(k, a) then Rejected
    else
      match a.family
      case Rsa => EvpVerify(env, k.pkey, a.digest, false, msg, sig)
      case RsaPss => EvpVerify(env, k.pkey, a.digest, true, msg, sig)
      case EdDsa => EvpVerify(env, k.pkey, "", false, msg, sig)
      case Hmac => HmacVerify(env, k.secret, a.digest, msg, sig)
      case Ecdsa =>
        match Ecdsa.RawToDer(sig, a.coordLen)
        case Converted(der) => EvpVerify(env, k.pkey, a.digest, false, msg, der)
        case Refused(rc) => if rc == Declined then Rejected else Failed
  }

  predicate Verifies(env: Env, k: Key, a: Alg, msg: bytes, sig: bytes)
  {
    VerifyWithKey(env, k, a, msg, sig) == Verified
  }

  predicate Fails(env: Env, k: Key, a: Alg, msg: bytes, sig: bytes)
  {
    VerifyWithKey(env, k, a, msg, sig) == Failed
  }

  // ---------------------------------------------------------------- the policy

  predicate HasKid(keys: seq<Key>, kid: bytes)
  {
    exists j :: 0 <= j < |keys| && keys[j].kid == kid
  }

  /**
   * A token's kid admits the keys that carry it; if none does, the unlabelled
   * ones; a token without a kid admits every key.
   */
  predicate Eligible(keys: seq<Key>, kid: bytes, k: Key)
  {
    kid == [] || k.kid == if HasKid(keys, kid) then kid else []
  }

  datatype Claim = Claim(alg: bytes, kid: bytes, signingInput: bytes, signature: bytes)

  /** The documented policy: a known algorithm, some signature, and an eligible key that verifies it. */
  predicate Policy(env: Env, t: Claim, keys: seq<Key>)
  {
    && Lookup(env, t.alg).Some?
    && t.signature != []
    && exists i :: 0 <= i < |keys| && Eligible(keys, t.kid, keys[i])
                   && Verifies(env, keys[i], Lookup(env, t.alg).value, t.signingInput, t.signature)
  }

  // ---------------------------------------------------------------- the two-pass loop

  /** Some eligible key could not be tried to the end: what the final log line reports. */
  predicate SomeFailure(env: Env, t: Claim, keys: seq<Key>)
  {
    && Lookup(env, t.alg).Some?
    && t.signature != []
    && exists i :: 0 <= i < |keys| && Eligible(keys, t.kid, keys[i])
                   && Fails(env, keys[i], Lookup(env, t.alg).value, t.signingInput, t.signature)
  }

  /** nxe_jwx_jws_verify; internal is the flag behind its last log line, which no status shows. */
  method JwsVerify(env: Env, t: Claim, keys: seq<Key>) returns (rc: Rc, internal: bool)
    ensures rc == if Policy(env, t, keys) then Ok else Declined
    ensures rc == Declined ==> (internal <==> SomeFailure(env, t, keys))
  {
    hide VerifyWithKey, Lookup, Ascii;
    if t.alg == [] || t.alg == Ascii("none") {
      NamesInTable(env, t.alg);
      return Declined, false;
    }
    var found := LookupAlg(env, t.alg);
    if found.None? || t.signature == [] {
      return Declined, false;
    }
    var a := found.value;
    var anyInternalError := false;
    var hasKid := t.kid != [];
    var kidMatchedAny := false;
    if hasKid {
      var i := 0;
      while i < |keys|
        invariant 0 <= i <= |keys|
        invariant kidMatchedAny <==> HasKid(keys[..i], t.kid)
        invariant forall j :: 0 <= j < i && keys[j].kid == t.kid ==>
                    !Verifies(env, keys[j], a, t.signingInput, t.signature)
        invariant anyInternalError <==>
                    exists j :: 0 <= j < i && keys[j].kid == t.kid && Fails(env, keys[j], a, t.signingInput, t.signature)
      {
        var k := keys[i];
        i := i + 1;
        if k.kid == [] || k.kid != t.kid {
          continue;
        }
        kidMatchedAny := true;
        var outcome := VerifyWithKey(env, k, a, t.signingInput, t.signature);
        if outcome == Verified {
          return Ok, anyInternalError;
        }
        if outcome == Failed {
          anyInternalError := true;
        }
      }
      assert keys[..i] == keys;
    }
    if !(hasKid && kidMatchedAny) {
      var i := 0;
      while i < |keys|
        invariant 0 <= i <= |keys|
        invariant forall j :: 0 <= j < i && (hasKid ==> keys[j].kid == []) ==>
                    !Verifies(env, keys[j], a, t.signingInput, t.signature)
        invariant anyInternalError <==>
                    exists j :: 0 <= j < i && (hasKid ==> keys[j].kid == [])
                                && Fails(env, keys[j], a, t.signingInput, t.signature)
      {
        var k := keys[i];
        i := i + 1;
        if hasKid && k.kid != [] {
          continue;
        }
        var outcome := VerifyWithKey(env, k, a, t.signingInput, t.signature);
        if outcome == Verified {
          return Ok, anyInternalError;
        }
        if outcome == Failed {
          anyInternalError := true;
        }
      }
    }
    return Declined, anyInternalError;
  }

  /** Neither the empty name nor "none" is in the table, whatever the build. */
  lemma NamesInTable(env: Env, name: bytes)
    requires name == [] || name == Ascii("none")
    ensures Lookup(env, name).None?
  {
    forall a | a in Algs(env.hmac) ensures Ascii(a.name) != name {
      TableNames(env.hmac, a);
    }
  }

  /** Every name in the table starts with a capital letter. */
  lemma TableNames(hmac: bool, a: Alg)
    requires a in Algs(hmac)
    ensures |a.name| >= 5 && Ascii(a.name)[0] < 97
  {
    hide Algs;
    RowsByFamily(hmac, a);
    match a.family
    case Rsa =>
    case RsaPss =>
    case Ecdsa =>
    case EdDsa =>
    case Hmac =>
  }

  // ---------------------------------------------------------------- order and foreign labels

  lemma SameElements(keys: seq<Key>, keys': seq<Key>, i: int)
    requires multiset(keys) == multiset(keys') && 0 <= i < |keys|
    ensures exists j :: 0 <= j < |keys'| && keys'[j] == keys[i]
  {
    assert keys[i] in multiset(keys);
    assert keys[i] in multiset(keys');
    assert keys[i] in keys';
  }

  lemma HasKidPermuted(keys: seq<Key>, keys': seq<Key>, kid: bytes)
    requires multiset(keys) == multiset(keys') && HasKid(keys, kid)
    ensures HasKid(keys', kid)
  {
    var j :| 0 <= j < |keys| && keys[j].kid == kid;
    SameElements(keys, keys', j);
  }

  lemma PolicyPermuted(env: Env, t: Claim, keys: seq<Key>, keys': seq<Key>)
    requires multiset(keys) == multiset(keys') && Policy(env, t, keys)
    ensures Policy(env, t, keys')
  {
    hide Lookup, Verifies;
    var i :| 0 <= i < |keys| && Eligible(keys, t.kid, keys[i])
             && Verifies(env, keys[i], Lookup(env, t.alg).value, t.signingInput, t.signature);
    SameElements(keys, keys', i);
    if HasKid(keys, t.kid) { HasKidPermuted(keys, keys', t.kid); }
    if HasKid(keys', t.kid) { HasKidPermuted(keys', keys, t.kid); }
  }

  /** The order of the keyset does not matter. */
  lemma OrderDoesNotMatter(env: Env, t: Claim, keys: seq<Key>, keys': seq<Key>)
    requires multiset(keys) == multiset(keys')
    ensures Policy(env, t, keys) <==> Policy(env, t, keys')
  {
    if Policy(env, t, keys) { PolicyPermuted(env, t, keys, keys'); }
    if Policy(env, t, keys') { PolicyPermuted(env, t, keys', keys); }
  }

  /** The same with the foreign key in front. */
  lemma ForeignLabelInFront(env: Env, t: Claim, keys: seq<Key>, foreign: Key)
    requires t.kid != [] && foreign.kid != [] && foreign.kid != t.kid
    ensures Policy(env, t, [foreign] + keys) <==> Policy(env, t, keys)
  {
    hide Lookup, Verifies;
    var more := [foreign] + keys;
    assert forall i :: 0 <= i < |keys| ==> more[i + 1] == keys[i];
    assert HasKid(more, t.kid) <==> HasKid(keys, t.kid) by {
      if HasKid(keys, t.kid) {
        var j :| 0 <= j < |keys| && keys[j].kid == t.kid;
        assert more[j + 1].kid == t.kid;
      }
      if HasKid(more, t.kid) {
        var j :| 0 <= j < |more| && more[j].kid == t.kid;
        assert keys[j - 1].kid == t.kid;
      }
    }
    hide HasKid;
    if Policy(env, t, keys) {
      var i :| 0 <= i < |keys| && Eligible(keys, t.kid, keys[i])
               && Verifies(env, keys[i], Lookup(env, t.alg).value, t.signingInput, t.signature);
      assert more[i + 1] == keys[i];
    }
    if Policy(env, t, more) {
      var i :| 0 <= i < |more| && Eligible(more, t.kid, more[i])
               && Verifies(env, more[i], Lookup(env, t.alg).value, t.signingInput, t.signature);
      assert more[i] == keys[i - 1];
    }
  }

  /** When the token names a kid, a key labelled otherwise changes nothing, wherever it is put. */
  lemma ForeignLabelDoesNotMatter(env: Env, t: Claim, keys: seq<Key>, at: nat, foreign: Key)
    requires at <= |keys|
    requires t.kid != [] && foreign.kid != [] && foreign.kid != t.kid
    ensures Policy(env, t, keys[..at] + [foreign] + keys[at..]) <==> Policy(env, t, keys)
  {
    hide Policy;
    assert keys == keys[..at] + keys[at..];
    OrderDoesNotMatter(env, t, keys[..at] + [foreign] + keys[at..], [foreign] + keys);
    ForeignLabelInFront(env, t, keys, foreign);
  }
}
