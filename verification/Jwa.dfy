/**
 * What each algorithm name of section 3.1 of RFC 7518, RFC 8037 and RFC 8812 asks
 * of a key, a message and a signature, name by name; the code's table, switches
 * and verifiers measured against it.
 */
module Jwa {
  import opened Bytes
  import opened BigNum
  import opened Keys
  import opened Verify
  import Issue
  import Raw
  import Der

  datatype Suite =
    | Rsassa(pss: bool, digest: string)
    | EcdsaOn(group: string, digest: string, width: nat)
    | Eddsa
    | Mac(digest: string)
    | Unknown

  function SuiteOf(hmac: bool, name: bytes): Suite
  {
    if name == Ascii("RS256") then Rsassa(false, "SHA256")
    else if name == Ascii("RS384") then Rsassa(false, "SHA384")
    else if name == Ascii("RS512") then Rsassa(false, "SHA512")
    else if name == Ascii("PS256") then Rsassa(true, "SHA256")
    else if name == Ascii("PS384") then Rsassa(true, "SHA384")
    else if name == Ascii("PS512") then Rsassa(true, "SHA512")
    else if name == Ascii("ES256") then EcdsaOn("prime256v1", "SHA256", 32)
    else if name == Ascii("ES384") then EcdsaOn("secp384r1", "SHA384", 48)
    else if name == Ascii("ES512") then EcdsaOn("secp521r1", "SHA512", 66)
    else if name == Ascii("ES256K") then EcdsaOn("secp256k1", "SHA256", 32)
    else if name == Ascii("EdDSA") then Eddsa
    else if hmac && name == Ascii("HS256") then Mac("SHA256")
    else if hmac && name == Ascii("HS384") then Mac("SHA384")
    else if hmac && name == Ascii("HS512") then Mac("SHA512")
    else Unknown
  }

  /** The signature checks under the key's public part or secret: these octets, this digest, this padding. */
  predicate Checks(env: Env, suite: Suite, k: Key, msg: bytes, sig: bytes)
  {
    match suite
    case Unknown => false
    case Rsassa(pss, digest) =>
      k.kty == RSA && k.pkey.Some? && env.verify(k.pkey.value, digest, pss, msg, sig) == Verified
    case EcdsaOn(group, digest, width) =>
      && k.kty == EC && k.pkey.Some? && k.pkey.value.EcKey? && k.pkey.value.group == group
      && |sig| == 2 * width
      && var der := Der.EncodeSig(ToNat(sig[..width]), ToNat(sig[width..]));
         der.Some? && env.verify(k.pkey.value, digest, false, msg, der.value) == Verified
    case Eddsa =>
      k.kty == OKP && k.pkey.Some? && k.pkey.value.OkpKey? && env.verify(k.pkey.value, "", false, msg, sig) == Verified
    case Mac(digest) =>
      k.kty == OCT && env.mac(k.secret, digest, msg) == Some(sig)
  }

  /** The signature octets a private key or secret makes. */
  function Makes(env: Env, suite: Suite, key: bytes, input: bytes, nonce: nat): Option<bytes>
  {
    var k := env.loadPrivate(key);
    match suite
    case Unknown => None
    case Rsassa(pss, digest) =>
      if k.Some? && k.value.pub.RsaKey? then env.sign(k.value, digest, pss, input, nonce) else None
    case EcdsaOn(group, digest, width) =>
      if k.None? || !k.value.pub.EcKey? || k.value.pub.group != group then None
      else
        var der := env.sign(k.value, digest, false, input, nonce);
        if der.None? || Der.DecodeSig(der.value).None? then None
        else
          var (r, s) := Der.DecodeSig(der.value).value;
          if r >= Pow256(width) || s >= Pow256(width) then None
          else FixedWidth(r, s, width)
    case Eddsa =>
      if k.Some? && k.value.pub.OkpKey? then env.sign(k.value, "", false, input, nonce) else None
    case Mac(digest) => env.mac(key, digest, input)
  }

  /** Section 3.4 of RFC 7518: R, then S, each in the given width. */
  function FixedWidth(r: nat, s: nat, width: nat): Option<bytes>
  {
    if Padded(r, width).Some? && Padded(s, width).Some? then Some(Padded(r, width).value + Padded(s, width).value)
    else None
  }

  // ---------------------------------------------------------------- the table

  /** Enough of a name to tell the names apart. */
  function Code(b: bytes): int
  {
    if |b| < 3 then |b| else b[0] * 1000000 + b[2] * 1000 + |b|
  }

  lemma RsaCodes()
    ensures Code(Ascii("RS256")) == 82050005 && Code(Ascii("RS384")) == 82051005 && Code(Ascii("RS512")) == 82053005
    ensures Code(Ascii("PS256")) == 80050005 && Code(Ascii("PS384")) == 80051005 && Code(Ascii("PS512")) == 80053005
  {
  }

  lemma CurveCodes()
    ensures Code(Ascii("ES256")) == 69050005 && Code(Ascii("ES384")) == 69051005 && Code(Ascii("ES512")) == 69053005
    ensures Code(Ascii("ES256K")) == 69050006 && Code(Ascii("EdDSA")) == 69068005
  {
  }

  lemma MacCodes()
    ensures Code(Ascii("HS256")) == 72050005 && Code(Ascii("HS384")) == 72051005 && Code(Ascii("HS512")) == 72053005
  {
  }

  /** What a row of the table says. */
  function RowSuite(a: Alg): Suite
  {
    match a.family
    case Rsa => Rsassa(false, a.digest)
    case RsaPss => Rsassa(true, a.digest)
    case Ecdsa => EcdsaOn(a.curve, a.digest, a.coordLen)
    case EdDsa => Eddsa
    case Hmac => Mac(a.digest)
  }

  lemma RsaRow(hmac: bool, a: Alg)
    requires a in RSA_ALGS
    ensures SuiteOf(hmac, Ascii(a.name)) == RowSuite(a)
  {
    hide Ascii, Code;
    RsaCodes();
  }

  lemma CurveRow(hmac: bool, a: Alg)
    requires a in EC_ALGS || a == ED_ALG
    ensures SuiteOf(hmac, Ascii(a.name)) == RowSuite(a)
  {
    hide Ascii, Code;
    RsaCodes();
    CurveCodes();
  }

  lemma MacRow(a: Alg)
    requires a in HMAC_ALGS
    ensures SuiteOf(true, Ascii(a.name)) == RowSuite(a)
  {
    hide Ascii, Code;
    RsaCodes();
    CurveCodes();
    MacCodes();
  }

  lemma RowsInTable(hmac: bool, a: Alg)
    requires a in RSA_ALGS || a in EC_ALGS || a == ED_ALG || (hmac && a in HMAC_ALGS)
    ensures a in Algs(hmac)
  {
  }

  predicate RsaName(name: bytes)
  {
    name in {Ascii("RS256"), Ascii("RS384"), Ascii("RS512"), Ascii("PS256"), Ascii("PS384"), Ascii("PS512")}
  }

  predicate CurveName(name: bytes)
  {
    name in {Ascii("ES256"), Ascii("ES384"), Ascii("ES512"), Ascii("ES256K"), Ascii("EdDSA")}
  }

  lemma RsaNameHasRow(name: bytes) returns (a: Alg)
    requires RsaName(name)
    ensures a in RSA_ALGS && Ascii(a.name) == name
  {
    hide Ascii;
    if name == Ascii("RS256") {
      a := RSA_ALGS[0];
    } else if name == Ascii("RS384") {
      a := RSA_ALGS[1];
    } else if name == Ascii("RS512") {
      a := RSA_ALGS[2];
    } else if name == Ascii("PS256") {
      a := RSA_ALGS[3];
    } else if name == Ascii("PS384") {
      a := RSA_ALGS[4];
    } else {
      a := RSA_ALGS[5];
    }
  }

  lemma CurveNameHasRow(name: bytes) returns (a: Alg)
    requires CurveName(name)
    ensures (a in EC_ALGS || a == ED_ALG) && Ascii(a.name) == name
  {
    hide Ascii;
    if name == Ascii("ES256") {
      a := EC_ALGS[0];
    } else if name == Ascii("ES384") {
      a := EC_ALGS[1];
    } else if name == Ascii("ES512") {
      a := EC_ALGS[2];
    } else if name == Ascii("ES256K") {
      a := EC_ALGS[3];
    } else {
      a := ED_ALG;
    }
  }

  lemma MacNameHasRow(name: bytes) returns (a: Alg)
    requires name in {Ascii("HS256"), Ascii("HS384"), Ascii("HS512")}
    ensures a in HMAC_ALGS && Ascii(a.name) == name
  {
    hide Ascii;
    if name == Ascii("HS256") {
      a := HMAC_ALGS[0];
    } else if name == Ascii("HS384") {
      a := HMAC_ALGS[1];
    } else {
      a := HMAC_ALGS[2];
    }
  }

  /** A name with a suite is some row's name. */
  lemma EveryNameHasRow(hmac: bool, name: bytes) returns (a: Alg)
    requires SuiteOf(hmac, name) != Unknown
    ensures a in Algs(hmac) && Ascii(a.name) == name
  {
    hide Ascii, Algs;
    if RsaName(name) {
      a := RsaNameHasRow(name);
    } else if CurveName(name) {
      a := CurveNameHasRow(name);
    } else {
      a := MacNameHasRow(name);
    }
    RowsInTable(hmac, a);
  }

  /** The table holds exactly the names with a suite, each with that suite. */
  lemma TableIsJwa(env: Env, name: bytes)
    ensures Lookup(env, name).Some? <==> SuiteOf(env.hmac, name) != Unknown
    ensures Lookup(env, name).Some? ==> RowSuite(Lookup(env, name).value) == SuiteOf(env.hmac, name)
  {
    hide Ascii, Algs, SuiteOf, LookupIn;
    if SuiteOf(env.hmac, name) != Unknown {
      var a := EveryNameHasRow(env.hmac, name);
      Raw.LookupOwnName(env, a);
    }
    if Lookup(env, name).Some? {
      var a := Lookup(env, name).value;
      LookupRow(env, name);
      RowsByFamily(env.hmac, a);
      if a in RSA_ALGS {
        RsaRow(env.hmac, a);
      } else if a in HMAC_ALGS {
        HmacBuild(env.hmac, a);
        MacRow(a);
      } else {
        CurveRow(env.hmac, a);
      }
    }
  }

  lemma HmacBuild(hmac: bool, a: Alg)
    requires a in Algs(hmac) && a in HMAC_ALGS
    ensures hmac
  {
  }

  // ---------------------------------------------------------------- verifying

  lemma RowChecks(env: Env, k: Key, a: Alg, msg: bytes, sig: bytes)
    requires a.family == Ecdsa ==> a.curve != ""
    ensures Verifies(env, k, a, msg, sig) <==>
            (k.alg == [] || k.alg == Ascii(a.name)) && Checks(env, RowSuite(a), k, msg, sig)
  {
    hide Ascii, Der.EncodeSig;
  }

  lemma NamedCurve(env: Env, a: Alg)
    requires a in Algs(env.hmac)
    ensures a.family == Ecdsa ==> a.curve != ""
  {
    RowsByFamily(env.hmac, a);
  }

  /** One key verifies under a name exactly when its pin allows the name and the name's suite checks. */
  lemma VerifiesIff(env: Env, name: bytes, k: Key, msg: bytes, sig: bytes)
    ensures Lookup(env, name).Some? && Verifies(env, k, Lookup(env, name).value, msg, sig) <==>
            (k.alg == [] || k.alg == name) && Checks(env, SuiteOf(env.hmac, name), k, msg, sig)
  {
    hide Lookup, Verifies, SuiteOf, RowSuite, Ascii, Algs;
    TableIsJwa(env, name);
    if Lookup(env, name).Some? {
      LookupRow(env, name);
      NamedCurve(env, Lookup(env, name).value);
      RowChecks(env, k, Lookup(env, name).value, msg, sig);
    }
  }

  /** The kid rule, case by case. */
  predicate KidAdmits(keys: seq<Key>, kid: bytes, k: Key)
  {
    || kid == []
    || k.kid == kid
    || (k.kid == [] && forall j :: 0 <= j < |keys| ==> keys[j].kid != kid)
  }

  /** The token verifier's policy in full: a signature, a key the kid rule admits, its pin, and the suite's check. */
  lemma PolicyIff(env: Env, t: Claim, keys: seq<Key>)
    ensures Policy(env, t, keys) <==>
            && t.signature != []
            && exists i :: 0 <= i < |keys| && KidAdmits(keys, t.kid, keys[i])
                           && (keys[i].alg == [] || keys[i].alg == t.alg)
                           && Checks(env, SuiteOf(env.hmac, t.alg), keys[i], t.signingInput, t.signature)
  {
    hide Lookup, Verifies, SuiteOf, Checks;
    forall i | 0 <= i < |keys|
      ensures Eligible(keys, t.kid, keys[i]) <==> KidAdmits(keys, t.kid, keys[i])
      ensures Lookup(env, t.alg).Some?
              && Verifies(env, keys[i], Lookup(env, t.alg).value, t.signingInput, t.signature) <==>
              (keys[i].alg == [] || keys[i].alg == t.alg)
              && Checks(env, SuiteOf(env.hmac, t.alg), keys[i], t.signingInput, t.signature)
    {
      VerifiesIff(env, t.alg, keys[i], t.signingInput, t.signature);
    }
  }

  /** A kid that no key carries leaves exactly the unlabelled keys. */
  lemma UnmatchedKid(env: Env, t: Claim, keys: seq<Key>)
    requires t.kid != [] && forall k <- keys :: k.kid != t.kid
    ensures Policy(env, t, keys) <==>
            && t.signature != [] && Lookup(env, t.alg).Some?
            && exists i :: 0 <= i < |keys| && keys[i].kid == []
                           && Verifies(env, keys[i], Lookup(env, t.alg).value, t.signingInput, t.signature)
  {
    hide Lookup, Verifies, SuiteOf, Checks;
    PolicyIff(env, t, keys);
    forall i | 0 <= i < |keys|
      ensures KidAdmits(keys, t.kid, keys[i]) <==> keys[i].kid == []
      ensures Lookup(env, t.alg).Some?
              && Verifies(env, keys[i], Lookup(env, t.alg).value, t.signingInput, t.signature) <==>
              (keys[i].alg == [] || keys[i].alg == t.alg)
              && Checks(env, SuiteOf(env.hmac, t.alg), keys[i], t.signingInput, t.signature)
    {
      VerifiesIff(env, t.alg, keys[i], t.signingInput, t.signature);
    }
  }

  /** Verification by kid in full; without that kid, or with an empty one, nothing is accepted. */
  lemma ByKidIff(env: Env, keys: seq<Key>, kid: bytes, name: bytes, msg: bytes, sig: bytes)
    requires name != []
    ensures Raw.AcceptsByKid(env, keys, kid, name, msg, sig) <==>
            && sig != [] && kid != []
            && exists i :: 0 <= i < |keys| && keys[i].kid == kid && (keys[i].alg == [] || keys[i].alg == name)
                           && Checks(env, SuiteOf(env.hmac, name), keys[i], msg, sig)
  {
    hide Lookup, Verifies, SuiteOf, Checks;
    forall i | 0 <= i < |keys|
      ensures Raw.KeyAccepts(env, keys[i], name, msg, sig) <==>
              (keys[i].alg == [] || keys[i].alg == name) && Checks(env, SuiteOf(env.hmac, name), keys[i], msg, sig)
    {
      VerifiesIff(env, name, keys[i], msg, sig);
    }
  }

  /** Verification by thumbprint in full: the first key under it, and no other, is asked. */
  lemma ByThumbprintIff(env: Env, keys: seq<Key>, tp: bytes, name: bytes, msg: bytes, sig: bytes)
    requires name != []
    ensures Raw.AcceptsByThumbprint(env, keys, tp, name, msg, sig) <==>
            && sig != [] && tp != []
            && exists i :: 0 <= i < |keys| && keys[i].thumbprint == tp
                           && (forall j :: 0 <= j < i ==> keys[j].thumbprint != tp)
                           && (keys[i].alg == [] || keys[i].alg == name)
                           && Checks(env, SuiteOf(env.hmac, name), keys[i], msg, sig)
  {
    hide Lookup, Verifies, SuiteOf, Checks;
    var f := Raw.FindByThumbprint(keys, tp);
    if tp != [] {
      FoundFirst(keys, tp);
    }
    if f.Some? {
      VerifiesIff(env, name, f.value, msg, sig);
    }
  }

  lemma {:induction false} FoundFirst(keys: seq<Key>, tp: bytes)
    requires tp != []
    ensures forall i :: 0 <= i < |keys| && keys[i].thumbprint == tp
                        && (forall j :: 0 <= j < i ==> keys[j].thumbprint != tp) ==>
              Raw.FindByThumbprint(keys, tp) == Some(keys[i])
    ensures Raw.FindByThumbprint(keys, tp).Some? ==>
              exists i :: 0 <= i < |keys| && keys[i].thumbprint == tp
                          && (forall j :: 0 <= j < i ==> keys[j].thumbprint != tp)
  {
    if keys != [] && keys[0].thumbprint != tp {
      FoundFirst(keys[1..], tp);
      forall i | 0 <= i < |keys| && keys[i].thumbprint == tp && (forall j :: 0 <= j < i ==> keys[j].thumbprint != tp)
        ensures Raw.FindByThumbprint(keys, tp) == Some(keys[i])
      {
        assert keys[1..][i - 1] == keys[i];
        assert forall j :: 0 <= j < i - 1 ==> keys[1..][j] == keys[j + 1];
      }
      if Raw.FindByThumbprint(keys, tp).Some? {
        var i :| 0 <= i < |keys[1..]| && keys[1..][i].thumbprint == tp
                 && (forall j :: 0 <= j < i ==> keys[1..][j].thumbprint != tp);
        assert keys[i + 1].thumbprint == tp;
        assert forall j :: 0 <= j < i + 1 ==> keys[j].thumbprint != tp by {
          forall j | 0 <= j < i + 1 ensures keys[j].thumbprint != tp {
            if j > 0 { assert keys[1..][j - 1] == keys[j]; }
          }
        }
      }
    }
  }

  // ---------------------------------------------------------------- signing

  lemma RowMakes(env: Env, a: Alg, key: bytes, input: bytes, nonce: nat)
    requires a.family == Ecdsa ==> a.curve != ""
    requires a.family == EdDsa ==> a.digest == ""
    ensures Issue.SignatureFor(env, a, key, input, nonce) == Makes(env, RowSuite(a), key, input, nonce)
  {
    hide Der.DecodeSig, Padded;
    if a.family == Ecdsa && env.loadPrivate(key).Some? {
      var der := env.sign(env.loadPrivate(key).value, a.digest, false, input, nonce);
      if der.Some? && Der.DecodeSig(der.value).Some? {
        PaddedIff(Der.DecodeSig(der.value).value.0, a.coordLen);
        PaddedIff(Der.DecodeSig(der.value).value.1, a.coordLen);
      }
    }
  }

  /** Issuing signs with what the name's suite asks for, and makes nothing else. */
  lemma SignatureIsSuites(env: Env, name: bytes, key: bytes, input: bytes, nonce: nat)
    requires Lookup(env, name).Some?
    ensures Issue.SignatureFor(env, Lookup(env, name).value, key, input, nonce)
         == Makes(env, SuiteOf(env.hmac, name), key, input, nonce)
  {
    hide Lookup, SuiteOf, RowSuite, Ascii, Algs, Makes, Issue.SignatureFor;
    TableIsJwa(env, name);
    LookupRow(env, name);
    NamedCurve(env, Lookup(env, name).value);
    Issue.CoordLenPositive(env, Lookup(env, name).value);
    RowMakes(env, Lookup(env, name).value, key, input, nonce);
  }
}
