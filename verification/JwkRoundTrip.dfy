/** A key's canonical members and labels, read as a JWK, give back the same key; so do whole documents. */
module JwkRoundTrip {
  import opened Bytes
  import opened BigNum
  import opened Keys
  import opened Thumbprint
  import opened Jwks
  import opened Entries
  import CompactJson
  import Base64url

  function MembersOf(ms: seq<CompactJson.Member>): (r: seq<(bytes, Json)>)
    ensures |r| == |ms|
  {
    if ms == [] then [] else [(ms[0].name, String(ms[0].value))] + MembersOf(ms[1..])
  }

  function AsJwk(ms: seq<CompactJson.Member>): Json
  {
    Object(MembersOf(ms))
  }

  lemma {:induction false} Present(ms: seq<CompactJson.Member>, i: nat)
    requires i < |ms| && forall j :: 0 <= j < i ==> ms[j].name != ms[i].name
    ensures Member(MembersOf(ms), ms[i].name) == Some(String(ms[i].value))
  {
    if i > 0 {
      Present(ms[1..], i - 1);
      assert MembersOf(ms)[1..] == MembersOf(ms[1..]);
    }
  }

  lemma {:induction false} Missing(ms: seq<CompactJson.Member>, name: bytes)
    requires forall j :: 0 <= j < |ms| ==> ms[j].name != name
    ensures Member(MembersOf(ms), name) == None
  {
    if ms != [] {
      Missing(ms[1..], name);
      assert MembersOf(ms)[1..] == MembersOf(ms[1..]);
    }
  }

  /** Enough of a name to tell the names in play apart. */
  function Tag(b: bytes): int
  {
    if |b| == 0 then 0 else if |b| == 1 then b[0] else b[0] as int * 256 + b[1]
  }

  lemma Names()
    ensures Tag(Ascii("kty")) == 27508 && Tag(Ascii("use")) == 30067 && Tag(Ascii("kid")) == 27497
    ensures Tag(Ascii("alg")) == 24940 && Tag(Ascii("crv")) == 25458 && Tag(Ascii("n")) == 110
    ensures Tag(Ascii("e")) == 101 && Tag(Ascii("x")) == 120 && Tag(Ascii("y")) == 121 && Tag(Ascii("k")) == 107
  {
  }

  lemma Types()
    ensures Tag(Ascii("RSA")) == 21075 && Tag(Ascii("EC")) == 17731 && Tag(Ascii("OKP")) == 20299
    ensures Tag(Ascii("oct")) == 28515 && Tag(Ascii("enc")) == 25966
  {
  }

  /** The library accepts the key's material, and the key is one a JWK can carry. */
  predicate Rebuildable(env: Env, k: Key)
    requires WellTyped(k)
  {
    match k.kty
    case RSA =>
      var p := k.pkey.value;
      p.form.Plain? && MIN_RSA_BITS <= BitLength(p.n) <= MAX_RSA_BITS && env.buildRsa(p.n, p.e)
    case EC => env.buildEc(k.pkey.value.group, k.pkey.value.x, k.pkey.value.y)
    case OKP =>
      && env.buildOkp(k.pkey.value.curve, k.pkey.value.raw)
      && forall c <- OKP_CURVES :: k.crv == Ascii(c.crv) ==> |k.pkey.value.raw| == c.coordLen
    case OCT => env.hmac
  }

  /** k as a parser stores it: without what its type does not use, and under its own thumbprint. */
  function Normal(env: Env, k: Key): Key
    requires WellTyped(k)
  {
    k.(crv := if k.kty == EC || k.kty == OKP then k.crv else [],
       secret := if k.kty == OCT then k.secret else [],
       thumbprint := ThumbprintOf(env, k))
  }

  /** An encoded field is found with the octets that were encoded. */
  lemma FieldFound(ms: seq<CompactJson.Member>, name: string, i: nat, raw: bytes)
    requires i < |ms| && ms[i] == CompactJson.Member(Ascii(name), Base64url.Encode(raw)) && raw != []
    requires forall j :: 0 <= j < i ==> ms[j].name != ms[i].name
    ensures B64Field(AsJwk(ms), name) == Found(raw)
  {
    hide Ascii, Base64url.Encode, Base64url.Decode, MembersOf;
    Present(ms, i);
    Base64url.RoundTrip(raw);
    Base64url.EncodeFits(raw);
  }

  lemma TextFound(ms: seq<CompactJson.Member>, name: string, i: nat)
    requires i < |ms| && ms[i].name == Ascii(name) && forall j :: 0 <= j < i ==> ms[j].name != ms[i].name
    ensures HasString(AsJwk(ms), name) && StringMember(AsJwk(ms), name) == ms[i].value
  {
    hide Ascii, MembersOf;
    Present(ms, i);
  }

  lemma TextMissing(ms: seq<CompactJson.Member>, name: string)
    requires forall j :: 0 <= j < |ms| ==> ms[j].name != Ascii(name)
    ensures !HasString(AsJwk(ms), name) && StringMember(AsJwk(ms), name) == []
  {
    hide Ascii, MembersOf;
    Missing(ms, Ascii(name));
  }

  // ---------------------------------------------------------------- a key as a JWK

  /** The members kid and alg, where the key has them. */
  function Labels(k: Key): seq<CompactJson.Member>
  {
    (if k.kid == [] then [] else [CompactJson.Member(Ascii("kid"), k.kid)])
    + if k.alg == [] then [] else [CompactJson.Member(Ascii("alg"), k.alg)]
  }

  /** The members a key's thumbprint is taken over, then its labels. */
  function PublishedMembers(k: Key): seq<CompactJson.Member>
    requires WellTyped(k) && CanonicalJson(k).Some?
  {
    CompactJson.MembersOf(k) + Labels(k)
  }

  function Published(k: Key): (jwk: Json)
    requires WellTyped(k) && CanonicalJson(k).Some?
    ensures jwk.Object?
  {
    AsJwk(PublishedMembers(k))
  }

  lemma LabelNames(k: Key)
    ensures forall m <- Labels(k) :: Tag(m.name) == 27497 || Tag(m.name) == 24940
  {
    hide Ascii, Tag;
    Names();
  }

  lemma LabelsRead(cs: seq<CompactJson.Member>, k: Key)
    requires forall m <- cs :: m.name != Ascii("kid") && m.name != Ascii("alg")
    ensures var jwk := AsJwk(cs + Labels(k));
      && StringMember(jwk, "kid") == k.kid && (HasString(jwk, "kid") <==> k.kid != [])
      && StringMember(jwk, "alg") == k.alg
  {
    hide Ascii, AsJwk, HasString, StringMember, Tag;
    Names();
    var ms := cs + Labels(k);
    if k.kid == [] { TextMissing(ms, "kid"); } else { TextFound(ms, "kid", |cs|); }
    if k.alg == [] { TextMissing(ms, "alg"); } else { TextFound(ms, "alg", |ms| - 1); }
  }

  /** The entry passes the checks before its type, with k's labels and the given crv. */
  predicate Reads(k: Key, jwk: Json, kty: string, crv: bytes)
    requires jwk.Object?
  {
    && !Unfit(jwk) && StringMember(jwk, "kty") == Ascii(kty)
    && Labelled(jwk) == ZERO_KEY.(kid := k.kid, alg := k.alg, crv := crv)
  }

  lemma RsaReads(k: Key)
    requires WellTyped(k) && k.kty == RSA && CanonicalJson(k).Some?
    ensures Reads(k, Published(k), "RSA", [])
  {
    hide Ascii, Base64url.Encode, B64Field, HasString, StringMember, BnToB64url, Labels;
    var ms := PublishedMembers(k);
    Names();
    Types();
    LabelNames(k);
    LabelsRead(CompactJson.MembersOf(k), k);
    TextFound(ms, "kty", 1);
    TextMissing(ms, "use");
    TextMissing(ms, "crv");
  }

  lemma RsaFieldsFound(k: Key)
    requires WellTyped(k) && k.kty == RSA && CanonicalJson(k).Some?
    ensures B64Field(Published(k), "n") == Found(Minimal(k.pkey.value.n))
    ensures B64Field(Published(k), "e") == Found(Minimal(k.pkey.value.e))
  {
    hide Ascii, Base64url.Encode, B64Field, Minimal, ToNat, Labels;
    var ms, p := PublishedMembers(k), k.pkey.value;
    Names();
    FieldFound(ms, "e", 0, Minimal(p.e));
    FieldFound(ms, "n", 2, Minimal(p.n));
  }

  lemma RsaRoundTrip(env: Env, k: Key)
    requires WellTyped(k) && k.kty == RSA && CanonicalJson(k).Some? && Rebuildable(env, k)
    ensures RsaPart(env, Published(k)) == Built(k.pkey.value)
  {
    hide Ascii, B64Field, Minimal, ToNat, Published, CanonicalJson;
    RsaFieldsFound(k);
    NatOfMinimal(k.pkey.value.n);
    NatOfMinimal(k.pkey.value.e);
  }

  lemma EcReads(k: Key)
    requires WellTyped(k) && k.kty == EC && CanonicalJson(k).Some?
    ensures Reads(k, Published(k), "EC", k.crv)
  {
    hide Ascii, Base64url.Encode, B64Field, HasString, StringMember, BnToB64url, CoordLen, Labels;
    var ms := PublishedMembers(k);
    Names();
    Types();
    LabelNames(k);
    LabelsRead(CompactJson.MembersOf(k), k);
    TextFound(ms, "crv", 0);
    TextFound(ms, "kty", 1);
    TextMissing(ms, "use");
  }

  lemma EcPublished(k: Key)
    requires WellTyped(k) && k.kty == EC && CanonicalJson(k).Some?
    ensures var ms, w := PublishedMembers(k), CoordLen(k.pkey.value.group);
      var x, y := BnToB64url(k.pkey.value.x, w), BnToB64url(k.pkey.value.y, w);
      && x.Some? && y.Some? && |ms| >= 4
      && ms[0].name == Ascii("crv") && ms[1].name == Ascii("kty")
      && ms[2] == CompactJson.Member(Ascii("x"), x.value) && ms[3] == CompactJson.Member(Ascii("y"), y.value)
  {
    hide Ascii, BnToB64url, CoordLen, Labels, Base64url.Encode;
  }

  /** A coordinate written at width w is found with w octets and its value. */
  lemma CoordinateFound(ms: seq<CompactJson.Member>, name: string, i: nat, n: nat, w: nat)
    requires w > 0 && BnToB64url(n, w).Some?
    requires i < |ms| && ms[i] == CompactJson.Member(Ascii(name), BnToB64url(n, w).value)
    requires forall j :: 0 <= j < i ==> ms[j].name != ms[i].name
    ensures var f := B64Field(AsJwk(ms), name); f.Found? && |f.value| == w && ToNat(f.value) == n
  {
    hide Ascii, Base64url.Encode, B64Field, Padded, ToNat, AsJwk;
    NatOfPadded(n, w);
    FieldFound(ms, name, i, Padded(n, w).value);
  }

  /** The coordinates are found at the curve's width, with their values. */
  lemma EcFieldsFound(k: Key)
    requires WellTyped(k) && k.kty == EC && CanonicalJson(k).Some?
    ensures var jwk, w := Published(k), CoordLen(k.pkey.value.group);
      var x, y := B64Field(jwk, "x"), B64Field(jwk, "y");
      && x.Found? && |x.value| == w && ToNat(x.value) == k.pkey.value.x
      && y.Found? && |y.value| == w && ToNat(y.value) == k.pkey.value.y
  {
    hide Ascii, Base64url.Encode, B64Field, BnToB64url, ToNat, CoordLen, AsJwk, PublishedMembers, CanonicalJson, Tag;
    EcPublished(k);
    EcTyped(k);
    EcRow(k);
    Names();
    hide WellTyped;
    var ms, w := PublishedMembers(k), CoordLen(k.pkey.value.group);
    CoordinateFound(ms, "x", 2, k.pkey.value.x, w);
    CoordinateFound(ms, "y", 3, k.pkey.value.y, w);
  }

  lemma EcRoundTrip(env: Env, k: Key)
    requires WellTyped(k) && k.kty == EC && CanonicalJson(k).Some? && Rebuildable(env, k)
    ensures EcPart(env, k.crv, Published(k)) == Built(k.pkey.value)
  {
    hide Ascii, B64Field, CoordLen, ToNat, Published, CurveByCrv, CanonicalJson;
    EcRow(k);
    EcFieldsFound(k);
    EcTyped(k);
    hide WellTyped;
  }

  lemma EcTyped(k: Key)
    requires WellTyped(k) && k.kty == EC
    ensures k.pkey.Some? && k.pkey.value.EcKey?
  {
  }

  lemma OkpReads(k: Key)
    requires WellTyped(k) && k.kty == OKP
    ensures Reads(k, Published(k), "OKP", k.crv)
  {
    hide Ascii, Base64url.Encode, B64Field, HasString, StringMember, Labels;
    var ms := PublishedMembers(k);
    Names();
    Types();
    LabelNames(k);
    LabelsRead(CompactJson.MembersOf(k), k);
    TextFound(ms, "crv", 0);
    TextFound(ms, "kty", 1);
    TextMissing(ms, "use");
  }

  lemma OkpRoundTrip(env: Env, k: Key)
    requires WellTyped(k) && k.kty == OKP && Rebuildable(env, k)
    ensures OkpPart(env, k.crv, Published(k)) == Built(k.pkey.value)
  {
    hide Ascii, Base64url.Encode, B64Field, CurveByCrv, Labels;
    Names();
    OkpRow(k);
    FieldFound(PublishedMembers(k), "x", 2, k.pkey.value.raw);
  }

  lemma OctReads(k: Key)
    requires WellTyped(k) && k.kty == OCT
    ensures Reads(k, Published(k), "oct", [])
  {
    hide Ascii, Base64url.Encode, B64Field, HasString, StringMember, Labels;
    var ms := PublishedMembers(k);
    Names();
    Types();
    LabelNames(k);
    LabelsRead(CompactJson.MembersOf(k), k);
    TextFound(ms, "kty", 1);
    TextMissing(ms, "use");
    TextMissing(ms, "crv");
  }

  lemma OctRoundTrip(k: Key)
    requires WellTyped(k) && k.kty == OCT
    ensures B64Field(Published(k), "k") == Found(k.secret)
  {
    hide Ascii, Base64url.Encode, B64Field, Labels;
    FieldFound(PublishedMembers(k), "k", 0, k.secret);
  }

  /** The row behind an EC key: found by its name, with its group and width. */
  lemma EcRow(k: Key)
    requires WellTyped(k) && k.kty == EC
    ensures k.crv != [] && CurveByCrv(EC_CURVES, k.crv).Some?
    ensures var c := CurveByCrv(EC_CURVES, k.crv).value;
      c.group == k.pkey.value.group && CoordLen(c.group) == c.coordLen > 0
  {
    hide Ascii, CoordLen;
    var c :| c in EC_CURVES && k.crv == Ascii(c.crv) && k.pkey.value.group == c.group;
    var d := CurveByCrv(EC_CURVES, k.crv).value;
    CurveByName(EC_CURVES, c, d);
    EcWidth(c);
    assert c.crv != "";
  }

  lemma OkpRow(k: Key)
    requires WellTyped(k) && k.kty == OKP
    ensures k.crv != [] && CurveByCrv(OKP_CURVES, k.crv).Some?
    ensures var c := CurveByCrv(OKP_CURVES, k.crv).value;
      c in OKP_CURVES && k.crv == Ascii(c.crv) && c.group == k.pkey.value.curve && c.coordLen > 0
  {
    hide Ascii;
    var c :| c in OKP_CURVES && k.crv == Ascii(c.crv) && k.pkey.value.curve == c.group;
    var d := CurveByCrv(OKP_CURVES, k.crv).value;
    CurveByName(OKP_CURVES, c, d);
    assert c.crv != "";
  }

  lemma NormalText(env: Env, k: Key, tp: bytes)
    requires WellTyped(k)
    ensures var s := Normal(env, k).(thumbprint := tp);
      WellTyped(s) && MaterialOf(s) == MaterialOf(k) && CanonicalJson(s) == CanonicalJson(k)
  {
    hide Ascii, BnToB64url, Base64url.Encode, CoordLen, ThumbprintOf;
  }

  lemma SameThumbprint(env: Env, k: Key, l: Key)
    requires WellTyped(k) && WellTyped(l) && CanonicalJson(k) == CanonicalJson(l)
    ensures ThumbprintOf(env, k) == ThumbprintOf(env, l)
  {
    hide CanonicalJson, WellTyped, Base64url.Encode;
  }

  /** The type-specific part of a published key is the key's own. */
  lemma MaterialRead(env: Env, k: Key)
    requires WellTyped(k) && CanonicalJson(k).Some? && Rebuildable(env, k)
    ensures var jwk := Published(k);
      && !Unfit(jwk) && KtyNamed(env, StringMember(jwk, "kty")) == k.kty
      && WithMaterial(env, k.kty, Labelled(jwk), jwk) == Usable(Normal(env, k).(thumbprint := []))
  {
    hide Ascii, Base64url.Encode, Unfit, Labelled, StringMember, HasString, ThumbprintOf, B64Field,
         CanonicalJson, Published, RsaPart, EcPart, OkpPart;
    Types();
    match k.kty {
      case RSA => RsaReads(k); RsaRoundTrip(env, k);
      case EC => EcReads(k); EcRoundTrip(env, k);
      case OKP => OkpReads(k); OkpRoundTrip(env, k);
      case OCT => OctReads(k); OctRoundTrip(k);
    }
  }

  /** The members a thumbprint is taken over and the labels, parsed as a JWK, yield the key. */
  lemma PublishedKeyRoundTrip(env: Env, k: Key)
    requires WellTyped(k) && CanonicalJson(k).Some? && Rebuildable(env, k)
    ensures ReadJwk(env, Published(k)) == Usable(Normal(env, k))
    ensures var r := Normal(env, k);
      Stored(env, r) && MaterialOf(r) == MaterialOf(k) && CanonicalJson(r) == CanonicalJson(k)
  {
    hide Ascii, WithMaterial, Unfit, Labelled, StringMember, ThumbprintOf, CanonicalJson, Published,
         Rebuildable, WellTyped;
    MaterialRead(env, k);
    NormalText(env, k, []);
    NormalText(env, k, ThumbprintOf(env, k));
    SameThumbprint(env, k, Normal(env, k).(thumbprint := []));
    SameThumbprint(env, k, Normal(env, k));
  }

  // ---------------------------------------------------------------- whole documents

  /** Every key can be written as a JWK and read back. */
  predicate Publishable(env: Env, keys: seq<Key>)
  {
    && 0 < |keys| <= MAX_JWKS_KEYS
    && forall k <- keys :: WellTyped(k) && CanonicalJson(k).Some? && Rebuildable(env, k)
  }

  function PublishedAll(env: Env, keys: seq<Key>): (es: seq<Json>)
    requires Publishable(env, keys)
    ensures |es| == |keys|
  {
    seq(|keys|, i requires 0 <= i < |keys| => Published(keys[i]))
  }

  function NormalAll(env: Env, keys: seq<Key>): (r: seq<Key>)
    requires Publishable(env, keys)
    ensures |r| == |keys|
  {
    seq(|keys|, i requires 0 <= i < |keys| => Normal(env, keys[i]))
  }

  /**
   * The document's entries, those passed over aside, carry the keys' members in the
   * keys' order; other members, a use other than "enc" among them, may stand beside.
   */
  predicate Publishes(env: Env, doc: bytes, keys: seq<Key>)
    requires Publishable(env, keys)
  {
    JwksEntries(env, doc).Some?
    && var es := Native(env.hmac, JwksEntries(env, doc).value);
       |es| == |keys| && forall i :: 0 <= i < |es| ==> SameMembers(Published(keys[i]), es[i])
  }

  lemma {:induction false} NativeIsNotForeign(hmac: bool, es: seq<Json>)
    ensures forall e <- Native(hmac, es) :: !Foreign(hmac, e)
  {
    hide Foreign;
    if es != [] {
      NativeIsNotForeign(hmac, es[..|es| - 1]);
    }
  }

  /** A published key is an entry that counts. */
  lemma PublishedIsNative(env: Env, k: Key)
    requires WellTyped(k) && CanonicalJson(k).Some? && Rebuildable(env, k)
    ensures !Foreign(env.hmac, Published(k)) && !ForEncryption(Published(k))
  {
    hide Ascii, Foreign, Unfit, Published, CanonicalJson, Rebuildable, ForEncryption, KtyNamed, WithMaterial, Normal;
    MaterialRead(env, k);
    Typed(k);
    ForeignIff(env, Published(k));
    NotForEncryption(env.hmac, Published(k));
  }

  lemma NotForEncryption(hmac: bool, e: Json)
    requires !Foreign(hmac, e)
    ensures e.Object? && !ForEncryption(e)
  {
  }

  /** An entry that carries a key's members reads as that key. */
  lemma CarriedKey(env: Env, k: Key, e: Json)
    requires WellTyped(k) && CanonicalJson(k).Some? && Rebuildable(env, k)
    requires SameMembers(Published(k), e) && !Foreign(env.hmac, e)
    ensures ReadEntry(env, e) == Usable(Normal(env, k))
  {
    hide WellTyped, CanonicalJson, Rebuildable, Published, Normal, ReadJwk, Foreign, SameMember, ForEncryption;
    NotForEncryption(env.hmac, e);
    PublishedIsNative(env, k);
    OnlyTheseMembersMatter(env, Published(k), e);
    PublishedKeyRoundTrip(env, k);
  }

  /** A keyset written out in a JWKS document parses back to itself: same keys, same labels, same order. */
  lemma DocumentRoundTrip(env: Env, doc: bytes, keys: seq<Key>)
    requires Publishable(env, keys) && Publishes(env, doc, keys)
    ensures JwksKeys(env, doc) == Some(NormalAll(env, keys))
  {
    hide WellTyped, CanonicalJson, Rebuildable, Published, Normal, JwksEntries, ReadEntry, Foreign, SameMembers;
    var all := JwksEntries(env, doc).value;
    var es := Native(env.hmac, all);
    NativeIsNotForeign(env.hmac, all);
    ForeignEntriesDoNotMatter(env, all);
    var ps := ReadAll(env, es);
    forall i | 0 <= i < |keys|
      ensures ps[i] == Usable(NormalAll(env, keys)[i])
    {
      assert keys[i] in keys && es[i] in es;
      CarriedKey(env, keys[i], es[i]);
    }
    CollectUsable(ps, NormalAll(env, keys));
  }

  /** A document of the published keys and nothing else. */
  lemma PlainDocument(env: Env, doc: bytes, keys: seq<Key>)
    requires Publishable(env, keys) && JwksEntries(env, doc) == Some(PublishedAll(env, keys))
    ensures Publishes(env, doc, keys)
  {
    hide WellTyped, CanonicalJson, Rebuildable, Published, JwksEntries, Foreign, SameMember;
    var es := PublishedAll(env, keys);
    forall e | e in es ensures !Foreign(env.hmac, e) {
      var i :| 0 <= i < |es| && es[i] == e;
      assert keys[i] in keys;
      PublishedIsNative(env, keys[i]);
    }
    AllNative(env.hmac, es);
    forall i | 0 <= i < |es| ensures SameMembers(Published(keys[i]), es[i]) {
      SameAsItself(es[i]);
    }
  }

  lemma SameAsItself(jwk: Json)
    requires jwk.Object?
    ensures SameMembers(jwk, jwk)
  {
  }

  /** A key's members, then use with any other text than "enc", then further members no reader looks at. */
  lemma KeyWithUse(env: Env, k: Key, use: bytes, more: seq<(bytes, Json)>)
    requires WellTyped(k) && CanonicalJson(k).Some? && Rebuildable(env, k)
    requires Lacks(more, "kty") && Lacks(more, "kid") && Lacks(more, "alg") && Lacks(more, "crv") && Lacks(more, "n")
    requires Lacks(more, "e") && Lacks(more, "x") && Lacks(more, "y") && Lacks(more, "k")
    ensures var jwk := Object(Published(k).members + ([(Ascii("use"), String(use))] + more));
      ReadJwk(env, jwk) == if use == Ascii("enc") then Skip else Usable(Normal(env, k))
  {
    hide WellTyped, CanonicalJson, Rebuildable, Published, Normal, ReadJwk, Foreign, Ascii, Lacks, ForEncryption;
    PublishedIsNative(env, k);
    PublishedKeyRoundTrip(env, k);
    UseFirst(use, more);
    var added := [(Ascii("use"), String(use))] + more;
    if use == Ascii("enc") {
      NoUse(k);
      MemberAppend(Published(k).members, added, Ascii("use"));
      EncSkips(env, Object(Published(k).members + added));
    } else {
      MoreMembers(env, Published(k), added);
    }
  }

  lemma EncSkips(env: Env, jwk: Json)
    requires jwk.Object? && Member(jwk.members, Ascii("use")) == Some(String(Ascii("enc")))
    ensures ReadJwk(env, jwk) == Skip
  {
    hide Ascii, Member;
    assert Foreign(env.hmac, jwk);
    ForeignIff(env, jwk);
  }

  lemma NoUse(k: Key)
    requires WellTyped(k) && CanonicalJson(k).Some?
    ensures Member(Published(k).members, Ascii("use")) == None
  {
    hide Ascii, Base64url.Encode, BnToB64url, CoordLen, Labels, Tag, MembersOf;
    Names();
    LabelNames(k);
    Missing(PublishedMembers(k), Ascii("use"));
  }

  /** In front of the further members stands the one new use. */
  lemma UseFirst(use: bytes, more: seq<(bytes, Json)>)
    ensures var added := [(Ascii("use"), String(use))] + more;
      && Member(added, Ascii("use")) == Some(String(use))
      && (Lacks(more, "kty") ==> Lacks(added, "kty")) && (Lacks(more, "kid") ==> Lacks(added, "kid"))
      && (Lacks(more, "alg") ==> Lacks(added, "alg")) && (Lacks(more, "crv") ==> Lacks(added, "crv"))
      && (Lacks(more, "n") ==> Lacks(added, "n")) && (Lacks(more, "e") ==> Lacks(added, "e"))
      && (Lacks(more, "x") ==> Lacks(added, "x")) && (Lacks(more, "y") ==> Lacks(added, "y"))
      && (Lacks(more, "k") ==> Lacks(added, "k"))
  {
    hide Ascii, Tag;
    Names();
    assert ([(Ascii("use"), String(use))] + more)[1..] == more;
  }
}
