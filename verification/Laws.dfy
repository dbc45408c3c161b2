/** The laws assumed of OpenSSL and nxe-json can hold together, and something can then be issued. */
module Laws {
  import opened Bytes
  import opened Keys
  import opened Issue
  import opened Verify
  import BigNum
  import CompactJson
  import Thumbprint
  import Base64url
  import Ecdsa
  import Jwks
  import JwkRoundTrip
  import Publish
  import opened Compact
  import Der
  import Raw

  ghost predicate IsHeader(hmac: bool, text: bytes, a: Alg, kid: bytes)
  {
    a in Algs(hmac) && text == HeaderJson(a.name, if kid == [] then None else Some(CompactJson.Quoted(kid)))
  }

  function HeaderMembers(alg: bytes, kid: bytes): seq<(bytes, Json)>
  {
    [(Ascii("alg"), String(alg)), (Ascii("kid"), String(kid))]
  }

  /** A parser that understands headers and takes any other text for a JWKS document with the given entries. */
  ghost function ToyParse(hmac: bool, entries: seq<Json>, text: bytes): Option<Json>
  {
    if a: Alg, kid: bytes :| IsHeader(hmac, text, a, kid) then Some(Object(HeaderMembers(Ascii(a.name), kid)))
    else Some(Object([(Ascii("keys"), Array(entries))]))
  }

  /** The text [2] loads as a private key on P-256, any other as an RSA key. */
  function ToyKey(text: bytes): PKey
  {
    if text == [2] then EcKey("prime256v1", 1, 1) else RsaKey(Plain, 1, 1)
  }

  ghost function ToyEnv(hmac: bool, entries: seq<Json>): Env
  {
    Env(hmac, (_, _, _, _, _) => Verified,
        (k: PrivateKey, _, _, _, _) => if k.pub.EcKey? then Der.EncodeSig(1, 1) else Some([7]),
        (_, _, _) => Some([7]), b => Some(b), b => Some(PrivateKey(ToyKey(b), 0)), b => Some(ToyKey(b)),
        (_, _) => true, (_, _, _) => true, (_, _) => true,
        b => ToyParse(hmac, entries, b), b => Some(CompactJson.Quoted(b)))
  }

  lemma NameQuoteFree(hmac: bool, a: Alg)
    requires a in Algs(hmac)
    ensures Thumbprint.QuoteFree(Ascii(a.name))
  {
    hide Algs;
    RowsByFamily(hmac, a);
    match a.family
    case Rsa => RsaNameQuoteFree(a);
    case RsaPss => RsaNameQuoteFree(a);
    case Ecdsa => EcNameQuoteFree(a);
    case EdDsa => EcNameQuoteFree(a);
    case Hmac => HmacNameQuoteFree(a);
  }

  lemma RsaNameQuoteFree(a: Alg)
    requires a in RSA_ALGS
    ensures Thumbprint.QuoteFree(Ascii(a.name))
  {
  }

  lemma EcNameQuoteFree(a: Alg)
    requires a in EC_ALGS || a == ED_ALG
    ensures Thumbprint.QuoteFree(Ascii(a.name))
  {
  }

  lemma HmacNameQuoteFree(a: Alg)
    requires a in HMAC_ALGS
    ensures Thumbprint.QuoteFree(Ascii(a.name))
  {
  }

  function Extra(kid: bytes): bytes
  {
    if kid == [] then [] else Ascii(",\"kid\":") + CompactJson.Quoted(kid)
  }

  lemma MidQuote()
    ensures Ascii("\",\"typ\":\"JWT\"")[0] == Thumbprint.QUOTE
  {
  }

  /** A header text determines its algorithm and kid. */
  lemma HeaderDetermines(hmac: bool, text: bytes, a: Alg, kid: bytes, b: Alg, kid': bytes)
    requires IsHeader(hmac, text, a, kid) && IsHeader(hmac, text, b, kid')
    ensures Ascii(a.name) == Ascii(b.name) && kid == kid'
  {
    MidQuote();
    NameQuoteFree(hmac, a);
    NameQuoteFree(hmac, b);
    hide Ascii, Algs, Thumbprint.QuoteFree;
    var start, mid, end := Ascii("{\"alg\":\""), Ascii("\",\"typ\":\"JWT\""), Ascii("}");
    var s, t := mid + Extra(kid) + end, mid + Extra(kid') + end;
    HeaderParts(a.name, kid);
    HeaderParts(b.name, kid');
    hide HeaderJson, Extra;
    Thumbprint.NextField(start, Ascii(a.name), s, Ascii(b.name), t);
    Middle(mid, Extra(kid), Extra(kid'), end);
    ExtraDetermines(kid, kid');
  }

  lemma HeaderParts(alg: string, kid: bytes)
    ensures HeaderJson(alg, if kid == [] then None else Some(CompactJson.Quoted(kid))) ==
            Ascii("{\"alg\":\"") + Ascii(alg) + (Ascii("\",\"typ\":\"JWT\"") + Extra(kid) + Ascii("}"))
  {
    hide Ascii;
  }

  lemma Middle(a: bytes, x: bytes, y: bytes, b: bytes)
    requires a + x + b == a + y + b
    ensures x == y
  {
    assert |a + x + b| == |a| + |x| + |b| && |a + y + b| == |a| + |y| + |b|;
    assert x == (a + x + b)[|a|..|a| + |x|];
    assert y == (a + y + b)[|a|..|a| + |y|];
  }

  lemma ExtraDetermines(kid: bytes, kid': bytes)
    requires Extra(kid) == Extra(kid')
    ensures kid == kid'
  {
    hide Ascii;
    var k := Ascii(",\"kid\":");
    assert |k| == |",\"kid\":"|;
    if kid != [] && kid' != [] {
      assert CompactJson.Quoted(kid) == Extra(kid)[|k|..] && CompactJson.Quoted(kid') == Extra(kid')[|k|..];
      assert kid == CompactJson.Quoted(kid)[1..1 + |kid|] && kid' == CompactJson.Quoted(kid')[1..1 + |kid'|];
    }
  }

  lemma MembersRead(alg: bytes, kid: bytes)
    ensures StringMember(Object(HeaderMembers(alg, kid)), "alg") == alg
    ensures StringMember(Object(HeaderMembers(alg, kid)), "kid") == kid
  {
    var ms := HeaderMembers(alg, kid);
    assert Ascii("alg")[0] != Ascii("kid")[0];
    assert ms[1..] == [(Ascii("kid"), String(kid))];
    assert Member(ms[1..], Ascii("kid")) == Some(String(kid));
  }

  lemma HeaderReads(hmac: bool, entries: seq<Json>, a: Alg, kid: bytes)
    requires a in Algs(hmac)
    ensures ToyParse(hmac, entries, HeaderJson(a.name, if kid == [] then None else Some(CompactJson.Quoted(kid))))
         == Some(Object(HeaderMembers(Ascii(a.name), kid)))
  {
    hide Ascii, Algs, HeaderMembers, HeaderJson;
    var text := HeaderJson(a.name, if kid == [] then None else Some(CompactJson.Quoted(kid)));
    assert IsHeader(hmac, text, a, kid);
    forall b: Alg, kid': bytes | IsHeader(hmac, text, b, kid')
      ensures Ascii(b.name) == Ascii(a.name) && kid' == kid
    {
      HeaderDetermines(hmac, text, a, kid, b, kid');
    }
  }

  lemma HeaderLawHolds(hmac: bool, entries: seq<Json>)
    ensures HeaderLaw(ToyEnv(hmac, entries))
  {
    hide Ascii, Algs, HeaderMembers, HeaderJson, ToyParse, StringMember;
    var env := ToyEnv(hmac, entries);
    forall a, kid: bytes | a in Algs(hmac) && HeaderFor(env, a.name, kid).Some?
      ensures env.parse(HeaderFor(env, a.name, kid).value) == Some(Object(HeaderMembers(Ascii(a.name), kid)))
      ensures StringMember(Object(HeaderMembers(Ascii(a.name), kid)), "alg") == Ascii(a.name)
      ensures StringMember(Object(HeaderMembers(Ascii(a.name), kid)), "kid") == kid
    {
      HeaderReads(hmac, entries, a, kid);
      MembersRead(Ascii(a.name), kid);
    }
  }

  /** The laws are consistent, in either build and whatever documents there are. */
  lemma LawsAreConsistent(hmac: bool, entries: seq<Json>)
    ensures Lawful(ToyEnv(hmac, entries)) && Thumbprint.CollisionFree(ToyEnv(hmac, entries))
  {
    hide HeaderLaw, Der.EncodeSig;
    HeaderLawHolds(hmac, entries);
    SignatureNotEmpty();
  }

  lemma SignatureNotEmpty()
    ensures Der.EncodeSig(1, 1) != Some([])
  {
    hide Der.Parse;
    if Der.EncodeSig(1, 1).Some? {
      Der.SigRoundTrip(1, 1, []);
    }
  }

  // ---------------------------------------------------------------- something is issued

  lemma Rows()
    ensures RSA_ALGS[0] in Algs(true) && RSA_ALGS[0].name == "RS256" && RSA_ALGS[0].family == Rsa
    ensures EC_ALGS[0] in Algs(true) && EC_ALGS[0].name == "ES256" && EC_ALGS[0].family == Ecdsa
    ensures EC_ALGS[0].curve == "prime256v1" && EC_ALGS[0].coordLen == 32
  {
  }

  lemma SmallDer()
    ensures Der.EncodeSig(1, 1).Some?
  {
    assert Der.IntegerContent(1) == [1];
    assert Der.Tlv(Der.INTEGER, [1]).Some? && |Der.Tlv(Der.INTEGER, [1]).value| == 3;
  }

  lemma ToyConverts()
    ensures Der.EncodeSig(1, 1).Some?
    ensures var raw := Ecdsa.DerToRaw(Der.EncodeSig(1, 1).value, 32); raw.Converted? && |raw.value| == 64
  {
    hide Der.EncodeSig, Der.DecodeSig, Der.Canonical, Der.Parse, Ecdsa.DerToRaw, Ecdsa.RawToDer;
    SmallDer();
    Der.SigRoundTrip(1, 1, []);
    var der := Der.EncodeSig(1, 1).value;
    assert der + [] == der;
    assert BigNum.Pow256(32) > 1 by { assert BigNum.Pow256(31) > 0; }
    Ecdsa.DerToRawIff(der, 32);
    Ecdsa.DerRoundTripIff(der, 32);
  }

  lemma ParsesObject(hmac: bool, entries: seq<Json>, text: bytes)
    ensures ToyParse(hmac, entries, text).Some? && ToyParse(hmac, entries, text).value.Object?
  {
  }

  /** A row's short-labelled token with small claims is issued whenever its signature is small. */
  lemma Issues(env: Env, a: Alg, kid: bytes, key: bytes)
    requires a in Algs(env.hmac) && |a.name| <= 5 && |kid| <= 1
    requires IsObject(env, [123]) && forall b :: env.quote(b) == Some(CompactJson.Quoted(b))
    requires forall input :: var sig := SignatureFor(env, a, key, input, 0); sig.Some? && |sig.value| <= 64
    ensures Lookup(env, Ascii(a.name)) == Some(a)
    ensures Issued(env, Ascii(a.name), kid, [123], key, 0).Some?
  {
    hide Base64url.Encode, Ascii, Algs, HeaderMembers, SignatureFor;
    Raw.LookupOwnName(env, a);
    var header := HeaderFor(env, a.name, kid).value;
    assert |header| < 100;
    Base64url.EncodeFits(header);
    Base64url.EncodeFits([123]);
    var s := Segments(Base64url.Encode(header), Base64url.Encode([123]), []);
    Base64url.EncodeFits(SignatureFor(env, a, key, s.Signing(), 0).value);
  }

  /** The premises of the issuing result can be met with RS256. */
  lemma RsIsIssued() returns (keys: seq<Key>)
    ensures var env, alg := ToyEnv(true, []), Ascii("RS256");
      && Lawful(env) && Issued(env, alg, [], [123], [1], 0).Some?
      && |keys| == 1 && Eligible(keys, [], keys[0]) && Matches(env, keys[0], Lookup(env, alg).value, [1])
  {
    hide Ascii, Algs, Lawful, Issued, Lookup, ToyParse;
    LawsAreConsistent(true, []);
    Rows();
    ParsesObject(true, [], [123]);
    Issues(ToyEnv(true, []), RSA_ALGS[0], [], [1]);
    keys := [Jwks.PemKey([], RsaKey(Plain, 1, 1))];
  }

  /** The P-256 key, labelled k and pinned to ES256. */
  function EcToyKey(): (k: Key)
    ensures Thumbprint.WellTyped(k)
  {
    Jwks.PemKey([107], EcKey("prime256v1", 1, 1)).(alg := Ascii("ES256"))
  }

  lemma EcToyPublishable()
    ensures Thumbprint.CanonicalJson(EcToyKey()).Some?
    ensures forall es :: JwkRoundTrip.Publishable(ToyEnv(true, es), [EcToyKey()])
  {
    hide Ascii, ToyParse, BigNum.Padded, Base64url.Encode, Thumbprint.CoordLen, Thumbprint.EcJson;
    assert BigNum.Pow256(32) > 1 by { assert BigNum.Pow256(31) > 0; }
    BigNum.PaddedIff(1, 32);
    Jwks.EcWidth(EC_CURVES[0]);
    assert EcToyKey().pkey.value.group == EC_CURVES[0].group;
  }

  /** And with ES256, against a document that publishes the issuing key. */
  lemma EsIsIssued() returns (env: Env)
    ensures var alg, keys := Ascii("ES256"), [EcToyKey()];
      && Lawful(env) && Issued(env, alg, [107], [123], [2], 0).Some?
      && Eligible(keys, [107], keys[0]) && Matches(env, keys[0], Lookup(env, alg).value, [2])
      && Publish.IssuerKey(env, Lookup(env, alg).value, [2], [107], alg) == Some(keys[0])
      && JwkRoundTrip.Publishable(env, keys) && JwkRoundTrip.Publishes(env, [1], keys)
  {
    hide Ascii, Algs, Lawful, Issued, Lookup, Thumbprint.CanonicalJson, Thumbprint.WellTyped, JwkRoundTrip.Published,
         Ecdsa.DerToRaw, Der.EncodeSig, JwkRoundTrip.Publishes, JwkRoundTrip.Publishable, Jwks.JwksEntries, ToyParse;
    EcToyPublishable();
    var es := [JwkRoundTrip.Published(EcToyKey())];
    env := ToyEnv(true, es);
    LawsAreConsistent(true, es);
    Rows();
    ToyConverts();
    ParsesObject(true, es, [123]);
    Issues(env, EC_ALGS[0], [107], [2]);
    ToyDocument(es);
    assert JwkRoundTrip.PublishedAll(env, [EcToyKey()]) == es;
    JwkRoundTrip.PlainDocument(env, [1], [EcToyKey()]);
  }

  lemma ToyDocument(entries: seq<Json>)
    requires |entries| <= 64
    ensures Jwks.JwksEntries(ToyEnv(true, entries), [1]) == Some(entries)
  {
    hide Ascii, ToyParse;
    NotAHeader(entries);
  }

  lemma NotAHeader(entries: seq<Json>)
    ensures ToyParse(true, entries, [1]) == Some(Object([(Ascii("keys"), Array(entries))]))
  {
    hide Ascii, Algs;
    forall a: Alg, kid: bytes ensures !IsHeader(true, [1], a, kid) {
      assert |HeaderJson(a.name, if kid == [] then None else Some(CompactJson.Quoted(kid)))| > 1;
    }
  }

  // ---------------------------------------------------------------- a PSS-typed key under RS256

  /** A library whose signing key is PSS-typed, and in which plain keys refuse all but PSS padding. */
  ghost function PssEnv(): Env
  {
    ToyEnv(true, []).(
      verify := (p: PKey, _, pss, _, _) => if p.RsaKey? && p.form.Plain? && !pss then Rejected else Verified,
      sign := (k: PrivateKey, _, _, _, _) => if k.pub == RsaKey(Pss(None), 1, 1) then Some([7]) else None,
      loadPrivate := _ => Some(PrivateKey(RsaKey(Pss(None), 1, 1), 0)))
  }

  lemma PssEnvLawful()
    ensures Lawful(PssEnv())
  {
    hide Ascii, Algs, StringMember, ToyParse, HeaderJson, Der.EncodeSig;
    HeaderLawHolds(true, []);
    var toy, env := ToyEnv(true, []), PssEnv();
    assert forall name: string, kid: bytes :: HeaderFor(env, name, kid) == HeaderFor(toy, name, kid);
  }

  /** A token a PSS-typed key issues under RS256 need not verify against the plain key of the same n and e. */
  lemma PssUnderRsMatters() returns (keys: seq<Key>, issued: bytes)
    ensures var env, alg := PssEnv(), Ascii("RS256");
      && Lawful(env) && Issued(env, alg, [], [123], [1], 0) == Some(issued)
      && keys == [Jwks.PemKey([], env.loadPrivate([1]).value.pub.(form := Plain))]
      && DecodeToken(env, issued).Some? && !Policy(env, DecodeToken(env, issued).value.claim, keys)
  {
    hide Ascii, Algs, Lawful, Lookup, ToyParse, Base64url.Encode, Assemble, DecodeToken;
    var env, a := PssEnv(), RSA_ALGS[0];
    PssEnvLawful();
    Rows();
    ParsesObject(true, [], [123]);
    Issues(env, a, [], [1]);
    issued := Issued(env, Ascii("RS256"), [], [123], [1], 0).value;
    keys := [Jwks.PemKey([], RsaKey(Plain, 1, 1))];
    IssuedClaim(env, Ascii("RS256"), [], [123], [1], 0);
  }

  lemma IssuedClaim(env: Env, alg: bytes, kid: bytes, claims: bytes, key: bytes, nonce: nat)
    requires Lawful(env) && claims != [] && Issued(env, alg, kid, claims, key, nonce).Some?
    ensures var d := DecodeToken(env, Issued(env, alg, kid, claims, key, nonce).value);
      d.Some? && d.value.claim.alg == alg
  {
    hide DecodeToken, SignatureFor, Lookup, HeaderFor, Base64url.Encode;
    IssuedDecodes(env, alg, kid, claims, key, nonce);
  }
}
