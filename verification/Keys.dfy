/**
 * Keys, the algorithm and curve tables, and the libraries the code calls.
 * OpenSSL and nxe-json enter as the functions of an Env; Lawful states the few
 * laws about them that the issuing results rest on.
 */
module Keys {
  import opened Bytes
  import Der

  // ---------------------------------------------------------------- algorithm table

  datatype Family = Rsa | RsaPss | Ecdsa | EdDsa | Hmac

  /** One row of nxe_jwx_algs; an empty string stands for a NULL name. */
  datatype Alg = Alg(name: string, family: Family, digest: string, curve: string, coordLen: nat)

  const RSA_ALGS: seq<Alg> := [
    Alg("RS256", Rsa, "SHA256", "", 0), Alg("RS384", Rsa, "SHA384", "", 0), Alg("RS512", Rsa, "SHA512", "", 0),
    Alg("PS256", RsaPss, "SHA256", "", 0), Alg("PS384", RsaPss, "SHA384", "", 0), Alg("PS512", RsaPss, "SHA512", "", 0)]

  const EC_ALGS: seq<Alg> := [
    Alg("ES256", Ecdsa, "SHA256", "prime256v1", 32), Alg("ES384", Ecdsa, "SHA384", "secp384r1", 48),
    Alg("ES512", Ecdsa, "SHA512", "secp521r1", 66), Alg("ES256K", Ecdsa, "SHA256", "secp256k1", 32)]

  const ED_ALG: Alg := Alg("EdDSA", EdDsa, "", "", 0)

  const HMAC_ALGS: seq<Alg> := [
    Alg("HS256", Hmac, "SHA256", "", 0), Alg("HS384", Hmac, "SHA384", "", 0), Alg("HS512", Hmac, "SHA512", "", 0)]

  /** The table; the HS rows exist only in builds with NXE_JWX_HAVE_HMAC. */
  function Algs(hmac: bool): seq<Alg>
  {
    RSA_ALGS + EC_ALGS + [ED_ALG] + if hmac then HMAC_ALGS else []
  }

  /** Which part of the table a row stands in, told by its family. */
  lemma RowsByFamily(hmac: bool, a: Alg)
    requires a in Algs(hmac)
    ensures match a.family {
      case Rsa => a in RSA_ALGS
      case RsaPss => a in RSA_ALGS
      case Ecdsa => a in EC_ALGS
      case EdDsa => a == ED_ALG
      case Hmac => a in HMAC_ALGS
    }
  {
    if a in RSA_ALGS {
    } else if a in EC_ALGS {
    } else if a == ED_ALG {
    } else {
      assert a in HMAC_ALGS;
    }
  }

  /** nxe_jwx_lookup_alg over a table: the first row with that name. */
  function LookupIn(table: seq<Alg>, name: bytes): (r: Option<Alg>)
    ensures r.Some? ==> r.value in table && Ascii(r.value.name) == name
    ensures r.None? ==> forall a <- table :: Ascii(a.name) != name
  {
    if table == [] then None
    else if Ascii(table[0].name) == name then Some(table[0])
    else LookupIn(table[1..], name)
  }

  function Lookup(env: Env, name: bytes): Option<Alg>
  {
    LookupIn(Algs(env.hmac), name)
  }

  /** The loop of nxe_jwx_lookup_alg. */
  method LookupAlg(env: Env, name: bytes) returns (r: Option<Alg>)
    ensures r == Lookup(env, name)
  {
    hide Ascii;
    var table := Algs(env.hmac);
    var i := 0;
    while i < |table|
      invariant 0 <= i <= |table|
      invariant Lookup(env, name) == LookupIn(table[i..], name)
    {
      if Ascii(table[i].name) == name {
        return Some(table[i]);
      }
      i := i + 1;
    }
    return None;
  }

  lemma LookupRow(env: Env, name: bytes)
    requires Lookup(env, name).Some?
    ensures Lookup(env, name).value in Algs(env.hmac) && Ascii(Lookup(env, name).value.name) == name
  {
  }

  // ---------------------------------------------------------------- curve tables

  /** A row of nxe_jwx_ec_curves: JWK name, OpenSSL group name, octets of a coordinate. */
  datatype Curve = Curve(crv: string, group: string, coordLen: nat)

  const EC_CURVES: seq<Curve> := [
    Curve("P-256", "prime256v1", 32), Curve("P-384", "secp384r1", 48),
    Curve("P-521", "secp521r1", 66), Curve("secp256k1", "secp256k1", 32)]

  /** nxe_jwx_okp_curves: JWK name (also the key type's) and octets of a public key. */
  const OKP_CURVES: seq<Curve> := [Curve("Ed25519", "Ed25519", 32), Curve("Ed448", "Ed448", 57)]

  function CurveByCrv(table: seq<Curve>, crv: bytes): (r: Option<Curve>)
    ensures r.Some? ==> r.value in table && Ascii(r.value.crv) == crv
    ensures r.None? ==> forall c <- table :: Ascii(c.crv) != crv
  {
    if table == [] then None
    else if Ascii(table[0].crv) == crv then Some(table[0])
    else CurveByCrv(table[1..], crv)
  }

  function CurveByGroup(table: seq<Curve>, group: string): (r: Option<Curve>)
    ensures r.Some? ==> r.value in table && r.value.group == group
  {
    if table == [] then None
    else if table[0].group == group then Some(table[0])
    else CurveByGroup(table[1..], group)
  }

  // ---------------------------------------------------------------- keys

  /** What an RSASSA-PSS key may be restricted to. */
  datatype PssParameters = PssParameters(digest: string, mgf1: string, saltLen: nat)

  /** EVP_PKEY_RSA, or EVP_PKEY_RSA_PSS with or without a restriction. */
  datatype RsaForm = Plain | Pss(restriction: Option<PssParameters>)

  /** An EVP_PKEY's public part. */
  datatype PKey =
    | RsaKey(form: RsaForm, n: nat, e: nat)
    | EcKey(group: string, x: nat, y: nat)
    | OkpKey(curve: string, raw: bytes)
    | OtherKey(id: nat)

  datatype PrivateKey = PrivateKey(pub: PKey, secret: nat)

  datatype Kty = UNKNOWN | RSA | EC | OKP | OCT

  /** struct nxe_jwx_key_s; empty strings stand for absent members. */
  datatype Key = Key(kty: Kty, kid: bytes, alg: bytes, crv: bytes, thumbprint: bytes,
                     pkey: Option<PKey>, secret: bytes)

  // ---------------------------------------------------------------- foreign libraries

  datatype Json =
    | Object(members: seq<(bytes, Json)>)
    | Array(items: seq<Json>)
    | String(text: bytes)
    | Scalar

  function Member(members: seq<(bytes, Json)>, name: bytes): Option<Json>
  {
    if members == [] then None
    else if members[0].0 == name then Some(members[0].1)
    else Member(members[1..], name)
  }

  /** A string member's text; empty when it is missing or has another type. */
  function StringMember(j: Json, name: string): bytes
    requires j.Object?
  {
    var m := Member(j.members, Ascii(name));
    if m.Some? && m.value.String? then m.value.text else []
  }

  /** What one verification attempt yields: 1, 0 and -1 in the code. */
  datatype Outcome = Verified | Rejected | Failed

  datatype Env = Env(
    hmac: bool,
    verify: (PKey, string, bool, bytes, bytes) -> Outcome,
    sign: (PrivateKey, string, bool, bytes, nat) -> Option<bytes>,
    mac: (bytes, string, bytes) -> Option<bytes>,
    sha256: bytes -> Option<bytes>,
    loadPrivate: bytes -> Option<PrivateKey>,
    loadPublic: bytes -> Option<PKey>,
    buildRsa: (nat, nat) -> bool,
    buildEc: (string, nat, nat) -> bool,
    buildOkp: (string, bytes) -> bool,
    parse: bytes -> Option<Json>,
    quote: bytes -> Option<bytes>)

  /** The header nxe_jwx_build_header writes; no kid member when no kid is given. */
  function HeaderJson(alg: string, quotedKid: Option<bytes>): bytes
  {
    Ascii("{\"alg\":\"") + Ascii(alg) + Ascii("\",\"typ\":\"JWT\"")
    + (if quotedKid.None? then [] else Ascii(",\"kid\":") + quotedKid.value) + Ascii("}")
  }

  /** The header for a kid, an empty one meaning none; None when the kid cannot be quoted. */
  function HeaderFor(env: Env, alg: string, kid: bytes): Option<bytes>
  {
    if kid == [] then Some(HeaderJson(alg, None))
    else if env.quote(kid).None? then None
    else Some(HeaderJson(alg, env.quote(kid)))
  }

  /**
   * Verify accepts what sign produced, and a plain RSA key what was signed with PSS
   * padding whatever the signer's form; an EC signature is the DER of two integers.
   */
  ghost predicate SignLaw(env: Env)
  {
    forall k, digest, pss, msg, nonce :: env.sign(k, digest, pss, msg, nonce).Some? ==>
      var sig := env.sign(k, digest, pss, msg, nonce).value;
      && sig != []
      && env.verify(k.pub, digest, pss, msg, sig) == Verified
      && (k.pub.RsaKey? && pss ==> env.verify(k.pub.(form := Plain), digest, pss, msg, sig) == Verified)
      && (k.pub.EcKey? ==> exists r: nat, s: nat :: Der.EncodeSig(r, s) == Some(sig))
  }

  /** A MAC is never empty. */
  ghost predicate MacLaw(env: Env)
  {
    forall secret, digest, msg :: env.mac(secret, digest, msg) != Some([])
  }

  /** A header parses to an object with the alg and kid it was built from. */
  ghost predicate HeaderLaw(env: Env)
  {
    forall a, kid: bytes :: a in Algs(env.hmac) && HeaderFor(env, a.name, kid).Some? ==>
      var parsed := env.parse(HeaderFor(env, a.name, kid).value);
      && parsed.Some? && parsed.value.Object?
      && StringMember(parsed.value, "alg") == Ascii(a.name)
      && StringMember(parsed.value, "kid") == kid
  }

  ghost predicate Lawful(env: Env)
  {
    SignLaw(env) && MacLaw(env) && HeaderLaw(env)
  }
}
