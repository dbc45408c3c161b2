/**
 * The thumbprint lookup stops at the first match. When that is as good as trying
 * every key with the thumbprint, over keysets, JWKS documents and keyval documents.
 */
module FirstMatch {
  import opened Bytes
  import opened Keys
  import opened Verify
  import opened Thumbprint
  import opened Raw
  import opened Jwks
  import opened Picky
  import JwkRoundTrip
  import Base64url
  import Ecdsa

  predicate PinAdmits(k: Key, a: Option<Alg>)
  {
    a.Some? && (k.alg == [] || k.alg == Ascii(a.value.name))
  }

  /** What trying every key with the thumbprint would find. */
  predicate SomeMatchAccepts(env: Env, keys: seq<Key>, tp: bytes, name: bytes, msg: bytes, sig: bytes)
  {
    exists i :: 0 <= i < |keys| && keys[i].thumbprint == tp && KeyAccepts(env, keys[i], name, msg, sig)
  }

  // ---------------------------------------------------------------- equal thumbprints

  lemma SameThumbprintSameMaterial(env: Env, k: Key, l: Key)
    requires Stored(env, k) && Stored(env, l) && CollisionFree(env)
    requires k.thumbprint != [] && k.thumbprint == l.thumbprint
    ensures k.kty == l.kty && MaterialOf(k) == MaterialOf(l) && (k.kty == OCT ==> k.secret == l.secret)
  {
    hide CanonicalJson, Base64url.Encode, WellTyped;
    var a, b := CanonicalJson(k).value, CanonicalJson(l).value;
    Base64url.EncodeInjective(env.sha256(a).value, env.sha256(b).value);
    CanonicalJsonInjective(k, l);
  }

  /** What an RSA EVP_PKEY is beyond n and e: the thumbprint leaves it out. */
  function FormOf(k: Key): Option<RsaForm>
  {
    if k.pkey.Some? && k.pkey.value.RsaKey? then Some(k.pkey.value.form) else None
  }

  /** Among keys of the same material, the RSA form is all that tells EVP_PKEYs apart. */
  lemma SameMaterial(k: Key, l: Key)
    requires WellTyped(k) && WellTyped(l) && k.kty == l.kty && MaterialOf(k) == MaterialOf(l)
    ensures k.pkey == l.pkey <==> FormOf(k) == FormOf(l)
  {
    hide Ascii;
    if k.kty == EC {
      GroupByCrv(k, l);
    } else if k.kty == OKP {
      var c :| c in OKP_CURVES && k.crv == Ascii(c.crv) && k.pkey.value.curve == c.group;
      var d :| d in OKP_CURVES && l.crv == Ascii(d.crv) && l.pkey.value.curve == d.group;
      CurveByName(OKP_CURVES, c, d);
    }
  }

  /** An omitted alg resolves alike for keys with the same thumbprint. */
  lemma AlgAlike(env: Env, k: Key, l: Key, name: bytes)
    requires WellTyped(k) && WellTyped(l) && k.kty == l.kty && MaterialOf(k) == MaterialOf(l)
    ensures ResolveAlg(env, k, name) == ResolveAlg(env, l, name)
  {
    SameMaterial(k, l);
    if k.kty == OKP || k.kty == EC {
      SuitedAlike(Algs(env.hmac), k, l);
    }
  }

  lemma SuitedAlike(table: seq<Alg>, k: Key, l: Key)
    requires (k.kty == OKP || k.kty == EC) && k.kty == l.kty && k.pkey == l.pkey
    ensures FirstSuited(table, k) == FirstSuited(table, l)
  {
  }

  /** Keys with the same EVP_PKEY and secret differ only in their pins. */
  lemma PinDecides(env: Env, k: Key, l: Key, a: Alg, msg: bytes, sig: bytes)
    requires k.kty == l.kty && k.pkey == l.pkey && (k.kty == OCT ==> k.secret == l.secret)
    requires Verifies(env, l, a, msg, sig)
    ensures Verifies(env, k, a, msg, sig) <==> PinAdmits(k, Some(a))
    ensures Compatible(k, a) <==> PinAdmits(k, Some(a))
  {
    hide Ascii, Ecdsa.RawToDer;
  }

  // ---------------------------------------------------------------- one request

  /**
   * The lookup accepts exactly when the first match's pin admits the algorithm
   * and some match with the first one's EVP_PKEY accepts.
   */
  lemma FirstMatchExact(env: Env, keys: seq<Key>, tp: bytes, name: bytes, msg: bytes, sig: bytes)
    requires CollisionFree(env) && sig != []
    requires forall k <- keys :: Stored(env, k)
    ensures AcceptsByThumbprint(env, keys, tp, name, msg, sig) <==>
            var f := FindByThumbprint(keys, tp);
            && f.Some? && PinAdmits(f.value, ResolveAlg(env, f.value, name))
            && exists i :: 0 <= i < |keys| && keys[i].thumbprint == tp && keys[i].pkey == f.value.pkey
                           && KeyAccepts(env, keys[i], name, msg, sig)
  {
    hide Verifies, Stored, PinAdmits, ResolveAlg;
    var found := FindByThumbprint(keys, tp);
    if found.Some? {
      var f := found.value;
      forall k | k in keys && k.thumbprint == tp && k.pkey == f.pkey && KeyAccepts(env, k, name, msg, sig)
        ensures KeyAccepts(env, f, name, msg, sig) <==> PinAdmits(f, ResolveAlg(env, f, name))
      {
        SameThumbprintSameMaterial(env, f, k);
        StoredTyped(env, f);
        StoredTyped(env, k);
        AlgAlike(env, f, k, name);
        PinDecides(env, f, k, ResolveAlg(env, k, name).value, msg, sig);
      }
      assert exists i :: 0 <= i < |keys| && keys[i] == f;
      if KeyAccepts(env, f, name, msg, sig) {
        PinDecides(env, f, f, ResolveAlg(env, f, name).value, msg, sig);
        AcceptedPin(env, f, name, msg, sig);
      }
    }
  }

  lemma AcceptedPin(env: Env, k: Key, name: bytes, msg: bytes, sig: bytes)
    requires KeyAccepts(env, k, name, msg, sig)
    ensures PinAdmits(k, ResolveAlg(env, k, name))
  {
    hide Ascii, Lookup, AlgFromKey;
  }

  lemma StoredTyped(env: Env, k: Key)
    requires Stored(env, k)
    ensures WellTyped(k)
  {
  }

  // ---------------------------------------------------------------- every request

  /** Whatever the libraries answer and whatever is asked, the first match does as well as all of them. */
  ghost predicate FirstIsEnough(hmac: bool, keys: seq<Key>, tp: bytes)
  {
    forall e: Env, name: bytes, msg: bytes, sig: bytes :: e.hmac == hmac && sig != [] ==>
      (AcceptsByThumbprint(e, keys, tp, name, msg, sig) <==> SomeMatchAccepts(e, keys, tp, name, msg, sig))
  }

  /** Every algorithm k may be used with, f may be used with too, and with the same EVP_PKEY. */
  predicate Covers(hmac: bool, f: Key, k: Key)
  {
    forall a <- Algs(hmac) :: Compatible(k, a) ==> Compatible(f, a) && f.pkey == k.pkey
  }

  predicate FirstCovers(hmac: bool, keys: seq<Key>, tp: bytes)
  {
    var f := FindByThumbprint(keys, tp);
    f.Some? ==> forall k <- keys :: k.thumbprint == tp ==> Covers(hmac, f.value, k)
  }

  /** A compatible key accepts something that no key unlike it accepts. */
  lemma PickyAccepts(hmac: bool, k: Key, f: Key, a: Alg)
    requires WellTyped(k) && WellTyped(f) && a in Algs(hmac) && Compatible(k, a)
    ensures ZeroSignature(a) != []
    ensures KeyAccepts(PickyEnv(hmac, k), k, Ascii(a.name), [], ZeroSignature(a))
    ensures KeyAccepts(PickyEnv(hmac, k), f, Ascii(a.name), [], ZeroSignature(a)) ==>
              Compatible(f, a) && f.pkey == k.pkey
  {
    hide Algs, Ascii, Verifies, Compatible, WellTyped, PickyEnv, ZeroSignature, Lookup;
    PickyBuild(hmac, k);
    LookupOwnName(PickyEnv(hmac, k), a);
    NameNotEmpty(hmac, a);
    PickyVerifies(hmac, k, k, a);
    PickyVerifies(hmac, k, f, a);
  }

  lemma FirstCoversSuffices(env: Env, keys: seq<Key>, tp: bytes, e: Env, name: bytes, msg: bytes, sig: bytes)
    requires CollisionFree(env) && tp != [] && forall k <- keys :: Stored(env, k)
    requires FirstCovers(env.hmac, keys, tp) && e.hmac == env.hmac && sig != []
    ensures AcceptsByThumbprint(e, keys, tp, name, msg, sig) <==> SomeMatchAccepts(e, keys, tp, name, msg, sig)
  {
    hide Algs, Stored, Verifies, Compatible, Ascii;
    var found := FindByThumbprint(keys, tp);
    if found.Some? {
      var f := found.value;
      assert exists i :: 0 <= i < |keys| && keys[i] == f;
      forall k | k in keys && k.thumbprint == tp && KeyAccepts(e, k, name, msg, sig)
        ensures KeyAccepts(e, f, name, msg, sig)
      {
        SameThumbprintSameMaterial(env, f, k);
        StoredTyped(env, f);
        StoredTyped(env, k);
        AlgAlike(e, f, k, name);
        var a := ResolveAlg(e, k, name).value;
        VerifiesIsCompatible(e, k, a, msg, sig);
        PinDecides(e, f, k, a, msg, sig);
      }
    }
  }

  /**
   * The first match is as good as all of them, whatever is asked, exactly when it
   * covers every other match: a condition on the keyset's types and pins alone.
   */
  lemma FirstMatchIsEnoughIff(env: Env, keys: seq<Key>, tp: bytes)
    requires CollisionFree(env) && tp != [] && forall k <- keys :: Stored(env, k)
    ensures FirstIsEnough(env.hmac, keys, tp) <==> FirstCovers(env.hmac, keys, tp)
  {
    hide Algs, Stored, KeyAccepts, Compatible, ZeroSignature, PickyEnv;
    if FirstCovers(env.hmac, keys, tp) {
      forall e: Env, name: bytes, msg: bytes, sig: bytes | e.hmac == env.hmac && sig != []
        ensures AcceptsByThumbprint(e, keys, tp, name, msg, sig) <==> SomeMatchAccepts(e, keys, tp, name, msg, sig)
      {
        FirstCoversSuffices(env, keys, tp, e, name, msg, sig);
      }
    }
    var found := FindByThumbprint(keys, tp);
    if FirstIsEnough(env.hmac, keys, tp) && found.Some? {
      forall k, a | k in keys && k.thumbprint == tp && a in Algs(env.hmac) && Compatible(k, a)
        ensures Compatible(found.value, a) && found.value.pkey == k.pkey
      {
        StoredTyped(env, k);
        StoredTyped(env, found.value);
        PickyAccepts(env.hmac, k, found.value, a);
        PickyBuild(env.hmac, k);
        var e := PickyEnv(env.hmac, k);
        var i :| 0 <= i < |keys| && keys[i] == k;
        assert SomeMatchAccepts(e, keys, tp, Ascii(a.name), [], ZeroSignature(a));
        assert AcceptsByThumbprint(e, keys, tp, Ascii(a.name), [], ZeroSignature(a));
      }
    }
  }

  /** Where matches carry the same pin and EVP_PKEY, the first match is as good as all of them. */
  lemma FirstMatchIsEnough(env: Env, keys: seq<Key>, tp: bytes, name: bytes, msg: bytes, sig: bytes)
    requires CollisionFree(env) && tp != [] && sig != [] && forall k <- keys :: Stored(env, k)
    requires forall k <- keys, l <- keys :: k.thumbprint == tp && l.thumbprint == tp ==>
               k.alg == l.alg && k.pkey == l.pkey
    ensures AcceptsByThumbprint(env, keys, tp, name, msg, sig) <==> SomeMatchAccepts(env, keys, tp, name, msg, sig)
  {
    hide Algs, Stored;
    var f := FindByThumbprint(keys, tp);
    if f.Some? {
      forall k | k in keys && k.thumbprint == tp
        ensures Covers(env.hmac, f.value, k)
      {
        SameThumbprintSameMaterial(env, f.value, k);
      }
    }
    FirstCoversSuffices(env, keys, tp, env, name, msg, sig);
  }

  // ---------------------------------------------------------------- parsed documents

  lemma FoundIsStored(env: Env, keys: seq<Key>, tp: bytes, k: Key)
    requires CollisionFree(env) && tp != [] && forall k <- keys :: Stored(env, k)
    requires k in keys && k.thumbprint == tp
    ensures var f := FindByThumbprint(keys, tp);
      && f.Some? && WellTyped(k) && WellTyped(f.value) && f.value in keys
      && k.kty == f.value.kty && MaterialOf(k) == MaterialOf(f.value)
  {
    hide ThumbprintOf, WellTyped;
    SameThumbprintSameMaterial(env, FindByThumbprint(keys, tp).value, k);
  }

  /** A JWK makes plain RSA keys only. */
  lemma JwkForm(env: Env, k: Key)
    requires FromJwk(env, k)
    ensures FormOf(k) == if k.kty == RSA then Some(Plain) else None
  {
    hide ThumbprintOf;
  }

  /** In a JWKS document equal thumbprints mean equal EVP_PKEYs. */
  lemma JwksMatchesAgree(env: Env, doc: bytes, tp: bytes, k: Key)
    requires JwksKeys(env, doc).Some? && CollisionFree(env) && tp != []
    requires k in JwksKeys(env, doc).value && k.thumbprint == tp
    ensures var f := FindByThumbprint(JwksKeys(env, doc).value, tp); f.Some? && f.value.pkey == k.pkey
  {
    hide JwksKeys, WellTyped, ThumbprintOf;
    JwksKeysInvariant(env, doc);
    FoundIsStored(env, JwksKeys(env, doc).value, tp, k);
    SameMaterial(k, FindByThumbprint(JwksKeys(env, doc).value, tp).value);
    JwkForm(env, k);
    JwkForm(env, FindByThumbprint(JwksKeys(env, doc).value, tp).value);
  }

  /** On a JWKS document the lookup errs only through the first match's own pin. */
  lemma JwksFirstMatch(env: Env, doc: bytes, tp: bytes, name: bytes, msg: bytes, sig: bytes)
    requires JwksKeys(env, doc).Some? && CollisionFree(env) && tp != [] && sig != []
    ensures var keys := JwksKeys(env, doc).value;
      AcceptsByThumbprint(env, keys, tp, name, msg, sig) <==>
      SomeMatchAccepts(env, keys, tp, name, msg, sig)
      && var f := FindByThumbprint(keys, tp).value; PinAdmits(f, ResolveAlg(env, f, name))
  {
    hide JwksKeys, Stored, KeyAccepts, AcceptsByThumbprint, PinAdmits, ResolveAlg;
    var keys := JwksKeys(env, doc).value;
    JwksKeysInvariant(env, doc);
    FirstMatchExact(env, keys, tp, name, msg, sig);
    forall i | 0 <= i < |keys| && keys[i].thumbprint == tp
      ensures var f := FindByThumbprint(keys, tp); f.Some? && f.value.pkey == keys[i].pkey
    {
      JwksMatchesAgree(env, doc, tp, keys[i]);
    }
  }

  /** On a JWKS document the first match is enough exactly when its pin admits all that another match may do. */
  lemma JwksFirstMatchIsEnoughIff(env: Env, doc: bytes, tp: bytes)
    requires JwksKeys(env, doc).Some? && CollisionFree(env) && tp != []
    ensures var keys := JwksKeys(env, doc).value;
      FirstIsEnough(env.hmac, keys, tp) <==>
      forall k <- keys, a <- Algs(env.hmac) :: k.thumbprint == tp && Compatible(k, a) ==>
        PinAdmits(FindByThumbprint(keys, tp).value, Some(a))
  {
    hide JwksKeys, Stored, FirstIsEnough, Algs, Ascii;
    var keys := JwksKeys(env, doc).value;
    JwksKeysInvariant(env, doc);
    FirstMatchIsEnoughIff(env, keys, tp);
    forall k, a | k in keys && k.thumbprint == tp && Compatible(k, a)
      ensures var f := FindByThumbprint(keys, tp);
        f.Some? && f.value.pkey == k.pkey && (PinAdmits(f.value, Some(a)) <==> Compatible(f.value, a))
    {
      JwksMatchesAgree(env, doc, tp, k);
      FoundIsStored(env, keys, tp, k);
    }
  }

  /** On a keyval document the lookup accepts exactly when a match of the first one's type accepts. */
  lemma KeyvalFirstMatch(env: Env, doc: bytes, tp: bytes, name: bytes, msg: bytes, sig: bytes)
    requires KeyvalKeys(env, doc).Some? && CollisionFree(env) && sig != []
    ensures var keys := KeyvalKeys(env, doc).value;
      AcceptsByThumbprint(env, keys, tp, name, msg, sig) <==>
      var f := FindByThumbprint(keys, tp);
      f.Some? && exists i :: 0 <= i < |keys| && keys[i].thumbprint == tp && keys[i].pkey == f.value.pkey
                             && KeyAccepts(env, keys[i], name, msg, sig)
  {
    hide KeyvalKeys, Stored, Verifies, Lookup, AlgFromKey;
    var keys := KeyvalKeys(env, doc).value;
    KeyvalKeysInvariant(env, doc);
    FirstMatchExact(env, keys, tp, name, msg, sig);
    var f := FindByThumbprint(keys, tp);
    if f.Some? {
      forall i | 0 <= i < |keys| && keys[i].thumbprint == tp && KeyAccepts(env, keys[i], name, msg, sig)
        ensures PinAdmits(f.value, ResolveAlg(env, f.value, name))
      {
        SameThumbprintSameMaterial(env, f.value, keys[i]);
        StoredTyped(env, f.value);
        StoredTyped(env, keys[i]);
        AlgAlike(env, f.value, keys[i], name);
      }
    }
  }

  lemma RowForGroup(hmac: bool, group: string) returns (a: Alg)
    requires exists c <- EC_CURVES :: c.group == group
    ensures a in Algs(hmac) && a.family == Ecdsa && a.curve == group != ""
  {
    var c :| c in EC_CURVES && c.group == group;
    if c == EC_CURVES[0] {
      a := EC_ALGS[0];
    } else if c == EC_CURVES[1] {
      a := EC_ALGS[1];
    } else if c == EC_CURVES[2] {
      a := EC_ALGS[2];
    } else {
      a := EC_ALGS[3];
    }
  }

  /** Every unpinned public key may be used with some algorithm, whatever the build. */
  lemma SomeAlgFits(hmac: bool, k: Key) returns (a: Alg)
    requires WellTyped(k) && k.alg == [] && k.kty != OCT
    ensures a in Algs(hmac) && Compatible(k, a)
  {
    hide Ascii;
    if k.kty == EC {
      hide Algs;
      a := RowForGroup(hmac, k.pkey.value.group);
    } else if k.kty == RSA {
      a := RSA_ALGS[0];
    } else {
      a := ED_ALG;
    }
  }

  /** On a keyval document the first match is enough exactly when all matches have the same RSA form. */
  lemma KeyvalFirstMatchIsEnoughIff(env: Env, doc: bytes, tp: bytes)
    requires KeyvalKeys(env, doc).Some? && CollisionFree(env) && tp != []
    ensures var keys := KeyvalKeys(env, doc).value;
      FirstIsEnough(env.hmac, keys, tp) <==>
      forall k <- keys, l <- keys :: k.thumbprint == tp && l.thumbprint == tp ==> FormOf(k) == FormOf(l)
  {
    hide KeyvalKeys, Stored, FirstIsEnough, Algs, WellTyped, FormOf;
    var keys := KeyvalKeys(env, doc).value;
    KeyvalKeysInvariant(env, doc);
    FirstMatchIsEnoughIff(env, keys, tp);
    var f := FindByThumbprint(keys, tp);
    if f.Some? {
      forall k | k in keys && k.thumbprint == tp
        ensures Covers(env.hmac, f.value, k) <==> FormOf(f.value) == FormOf(k)
      {
        FoundIsStored(env, keys, tp, k);
        SameMaterial(f.value, k);
        var a := SomeAlgFits(env.hmac, k);
        if f.value.pkey == k.pkey {
          UnpinnedAlike(f.value, k);
        }
      }
    }
  }

  lemma UnpinnedAlike(f: Key, k: Key)
    requires f.kty == k.kty && f.pkey == k.pkey && f.alg == k.alg == []
    ensures forall a :: Compatible(k, a) ==> Compatible(f, a)
  {
  }

  // ---------------------------------------------------------------- the conditions are needed

  lemma DigestsDiffer(env: Env, k: Key)
    requires WellTyped(k) && CanonicalJson(k).Some? && forall b :: env.sha256(b) == Some(b)
    ensures CollisionFree(env) && ThumbprintOf(env, k) != []
  {
    hide WellTyped, Base64url.Encode;
    ThirdCharacter(k);
    Base64url.EncodeFits(CanonicalJson(k).value);
  }

  /** One secret under two pins. */
  function Pinned(pin: string): (k: Key)
    ensures WellTyped(k) && CanonicalJson(k).Some?
  {
    Key(OCT, [], Ascii(pin), [], [], None, [1])
  }

  function PinnedTwice(): seq<Key>
  {
    [Pinned("HS384"), Pinned("HS256")]
  }

  /** A library whose MAC is constant; every text it parses is one published keyset. */
  function PinEnv(): Env
  {
    Env(true, (_, _, _, _, _) => Rejected, (_, _, _, _, _) => None, (_, _, _) => Some([7]), b => Some(b),
        _ => None, _ => None, (_, _) => true, (_, _, _) => true, (_, _) => true,
        _ => Some(Object([(Ascii("keys"), Array([JwkRoundTrip.Published(Pinned("HS384")),
                                                 JwkRoundTrip.Published(Pinned("HS256"))]))])),
        _ => None)
  }

  lemma PinDocument(doc: bytes)
    requires 0 < |doc| <= MAX_JWKS_SIZE
    ensures JwkRoundTrip.Publishable(PinEnv(), PinnedTwice())
    ensures JwkRoundTrip.Publishes(PinEnv(), doc, PinnedTwice())
  {
    hide JwkRoundTrip.Published, Ascii, CanonicalJson, WellTyped;
    assert JwkRoundTrip.PublishedAll(PinEnv(), PinnedTwice()) ==
           [JwkRoundTrip.Published(Pinned("HS384")), JwkRoundTrip.Published(Pinned("HS256"))];
    assert JwksEntries(PinEnv(), doc) == Some(JwkRoundTrip.PublishedAll(PinEnv(), PinnedTwice()));
    hide JwkRoundTrip.Publishes;
    JwkRoundTrip.PlainDocument(PinEnv(), doc, PinnedTwice());
  }

  lemma PinNames()
    ensures Ascii("HS384") != Ascii("HS256") && Ascii("HS384") != [] && Ascii("HS256") != []
    ensures HMAC_ALGS[0] in Algs(true) && HMAC_ALGS[0].name == "HS256"
  {
    assert Ascii("HS384")[2] != Ascii("HS256")[2];
  }

  lemma PinnedThumbprints()
    ensures ThumbprintOf(PinEnv(), Pinned("HS384")) == ThumbprintOf(PinEnv(), Pinned("HS256")) != []
    ensures CollisionFree(PinEnv())
  {
    hide Ascii, Base64url.Encode, OctJson, ThumbprintOf;
    DigestsDiffer(PinEnv(), Pinned("HS256"));
    JwkRoundTrip.SameThumbprint(PinEnv(), Pinned("HS384"), Pinned("HS256"));
  }

  /** The pins matter: of a JWKS document's two keys the later accepts what the first, pinned otherwise, refuses. */
  lemma PinMatters(doc: bytes) returns (keys: seq<Key>, tp: bytes)
    requires 0 < |doc| <= MAX_JWKS_SIZE
    ensures JwksKeys(PinEnv(), doc) == Some(keys) && CollisionFree(PinEnv()) && tp != []
    ensures SomeMatchAccepts(PinEnv(), keys, tp, Ascii("HS256"), [], [7])
    ensures !AcceptsByThumbprint(PinEnv(), keys, tp, Ascii("HS256"), [], [7])
  {
    hide JwksKeys, Ascii, ThumbprintOf, CanonicalJson, WellTyped, Algs, JwkRoundTrip.Publishes;
    PinDocument(doc);
    JwkRoundTrip.DocumentRoundTrip(PinEnv(), doc, PinnedTwice());
    keys, tp := JwkRoundTrip.NormalAll(PinEnv(), PinnedTwice()), ThumbprintOf(PinEnv(), Pinned("HS384"));
    PinnedThumbprints();
    PinNames();
    LookupOwnName(PinEnv(), HMAC_ALGS[0]);
    assert KeyAccepts(PinEnv(), keys[1], Ascii("HS256"), [], [7]);
    assert FindByThumbprint(keys, tp) == Some(keys[0]);
  }

  /** Two RSA keys with the same modulus and exponent. */
  function TwoTexts(): seq<(bytes, Json)>
  {
    [([107], String([1])), ([108], String([2]))]
  }

  /** The key's form lets it be used with the padding and digest. */
  predicate Permits(form: RsaForm, digest: string, pss: bool)
  {
    form.Plain? || (pss && (form.restriction.None? || form.restriction.value.digest == digest))
  }

  /** A library that loads the two texts as keys of the given forms, and fails on what a form does not permit. */
  function FormEnv(f: RsaForm, g: RsaForm): Env
  {
    Env(false, (p: PKey, d, pss, _, _) => if p.RsaKey? && !Permits(p.form, d, pss) then Failed else Verified,
        (_, _, _, _, _) => None, (_, _, _) => None, b => Some(b),
        _ => None, b => Some(RsaKey(if b == [1] then f else g, 3, 1)),
        (_, _) => true, (_, _, _) => true, (_, _) => true,
        _ => Some(Object(TwoTexts())), _ => None)
  }

  function FormKey(env: Env, kid: bytes, form: RsaForm): Key
  {
    var k := Key(RSA, kid, [], [], [], Some(RsaKey(form, 3, 1)), []);
    k.(thumbprint := ThumbprintOf(env, k))
  }

  lemma FormDocument(f: RsaForm, g: RsaForm, doc: bytes)
    requires 0 < |doc| <= MAX_JWKS_SIZE
    ensures KeyvalKeys(FormEnv(f, g), doc) ==
            Some([FormKey(FormEnv(f, g), [107], f), FormKey(FormEnv(f, g), [108], g)])
  {
    hide ThumbprintOf;
    var env := FormEnv(f, g);
    var ps := ReadAllPem(env, TwoTexts());
    assert ps == [Usable(FormKey(env, [107], f)), Usable(FormKey(env, [108], g))];
    CollectUsable(ps, [FormKey(env, [107], f), FormKey(env, [108], g)]);
  }

  lemma FormThumbprints(f: RsaForm, g: RsaForm)
    ensures var env := FormEnv(f, g);
      && CollisionFree(env)
      && FormKey(env, [107], f).thumbprint == FormKey(env, [108], g).thumbprint != []
  {
    hide BnToB64url, RsaJson, ThumbprintOf;
    var env := FormEnv(f, g);
    var k, l := FormKey(env, [107], f).(thumbprint := []), FormKey(env, [108], g).(thumbprint := []);
    RsaTextIsMinimal(3);
    RsaTextIsMinimal(1);
    DigestsDiffer(env, k);
    JwkRoundTrip.SameThumbprint(env, k, l);
  }

  /** A keyval document whose second key accepts what its first one, of another form, is not permitted to check. */
  lemma FormMatters(f: RsaForm, g: RsaForm, a: Alg, doc: bytes) returns (keys: seq<Key>, tp: bytes)
    requires 0 < |doc| <= MAX_JWKS_SIZE && a in Algs(false) && a in RSA_ALGS
    requires !Permits(f, a.digest, a.family == RsaPss) && Permits(g, a.digest, a.family == RsaPss)
    ensures KeyvalKeys(FormEnv(f, g), doc) == Some(keys) && CollisionFree(FormEnv(f, g)) && tp != []
    ensures |keys| == 2 && FormOf(keys[0]) == Some(f) && FormOf(keys[1]) == Some(g)
    ensures forall k <- keys :: k.alg == [] && k.kty == RSA && k.thumbprint == tp
    ensures SomeMatchAccepts(FormEnv(f, g), keys, tp, Ascii(a.name), [], [7])
    ensures !AcceptsByThumbprint(FormEnv(f, g), keys, tp, Ascii(a.name), [], [7])
  {
    hide KeyvalKeys, Ascii, ThumbprintOf, Algs, Permits;
    var env := FormEnv(f, g);
    FormDocument(f, g, doc);
    keys, tp := [FormKey(env, [107], f), FormKey(env, [108], g)], FormKey(env, [107], f).thumbprint;
    FormThumbprints(f, g);
    LookupOwnName(env, a);
    NameNotEmpty(false, a);
    RsaFamily(a);
    assert KeyAccepts(env, keys[1], Ascii(a.name), [], [7]);
    assert FindByThumbprint(keys, tp) == Some(keys[0]);
  }

  lemma RsaFamily(a: Alg)
    requires a in RSA_ALGS
    ensures a.family == Rsa || a.family == RsaPss
  {
  }

  lemma RsaRows()
    ensures RSA_ALGS[0] in Algs(false) && RSA_ALGS[0].name == "RS256" && RSA_ALGS[0].family == Rsa
    ensures RSA_ALGS[3] in Algs(false) && RSA_ALGS[3].name == "PS256" && RSA_ALGS[3].digest == "SHA256"
    ensures RSA_ALGS[3].family == RsaPss
  {
  }

  /** The PSS type matters: a plain key accepts what the PSS-typed key before it cannot check. */
  lemma PssMatters(doc: bytes) returns (env: Env, keys: seq<Key>, tp: bytes)
    requires 0 < |doc| <= MAX_JWKS_SIZE
    ensures KeyvalKeys(env, doc) == Some(keys) && CollisionFree(env) && tp != []
    ensures |keys| == 2 && FormOf(keys[0]) == Some(Pss(None)) && FormOf(keys[1]) == Some(Plain)
    ensures forall k <- keys :: k.alg == [] && k.thumbprint == tp
    ensures SomeMatchAccepts(env, keys, tp, Ascii("RS256"), [], [7])
    ensures !AcceptsByThumbprint(env, keys, tp, Ascii("RS256"), [], [7])
  {
    hide KeyvalKeys, Ascii, Algs, SomeMatchAccepts, AcceptsByThumbprint;
    RsaRows();
    env := FormEnv(Pss(None), Plain);
    keys, tp := FormMatters(Pss(None), Plain, RSA_ALGS[0], doc);
  }

  /** So do its parameters: both keys are PSS-typed, the first for SHA-384, the second for SHA-256. */
  lemma PssParametersMatter(doc: bytes)
    returns (env: Env, keys: seq<Key>, tp: bytes, f: PssParameters, g: PssParameters)
    requires 0 < |doc| <= MAX_JWKS_SIZE
    ensures KeyvalKeys(env, doc) == Some(keys) && CollisionFree(env) && tp != []
    ensures |keys| == 2 && FormOf(keys[0]) == Some(Pss(Some(f))) && FormOf(keys[1]) == Some(Pss(Some(g)))
    ensures f.digest == "SHA384" && g.digest == "SHA256"
    ensures forall k <- keys :: k.alg == [] && k.thumbprint == tp
    ensures SomeMatchAccepts(env, keys, tp, Ascii("PS256"), [], [7])
    ensures !AcceptsByThumbprint(env, keys, tp, Ascii("PS256"), [], [7])
  {
    hide KeyvalKeys, Ascii, Algs, SomeMatchAccepts, AcceptsByThumbprint;
    RsaRows();
    f, g := PssParameters("SHA384", "SHA384", 48), PssParameters("SHA256", "SHA256", 32);
    assert f.digest[3] != g.digest[3];
    env := FormEnv(Pss(Some(f)), Pss(Some(g)));
    keys, tp := FormMatters(Pss(Some(f)), Pss(Some(g)), RSA_ALGS[3], doc);
  }
}
