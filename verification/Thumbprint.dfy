/**
 * RFC 7638 thumbprint input: the canonical JSON of sections 3.2 and 3.3, written
 * through an advancing pointer, and what it identifies.
 */
module Thumbprint {
  import opened Bytes
  import opened BigNum
  import opened Keys
  import Base64url

  const QUOTE: byte := Base64url.QUOTE

  // ---------------------------------------------------------------- public material

  /** What a key pair publishes, by key type. */
  datatype Material =
    | RsaMaterial(n: nat, e: nat)
    | EcMaterial(crv: bytes, x: nat, y: nat)
    | OkpMaterial(crv: bytes, raw: bytes)
    | OctMaterial(secret: bytes)

  /** The type tag agrees with the EVP_PKEY, and crv with its curve. */
  predicate WellTyped(k: Key)
  {
    match k.kty
    case RSA => k.pkey.Some? && k.pkey.value.RsaKey?
    case EC =>
      && k.pkey.Some? && k.pkey.value.EcKey?
      && exists c <- EC_CURVES :: k.crv == Ascii(c.crv) && k.pkey.value.group == c.group
    case OKP =>
      && k.pkey.Some? && k.pkey.value.OkpKey?
      && exists c <- OKP_CURVES :: k.crv == Ascii(c.crv) && k.pkey.value.curve == c.group
    case OCT => k.pkey.None? && k.secret != []
    case UNKNOWN => false
  }

  function MaterialOf(k: Key): Material
    requires WellTyped(k)
  {
    match k.kty
    case RSA => RsaMaterial(k.pkey.value.n, k.pkey.value.e)
    case EC => EcMaterial(k.crv, k.pkey.value.x, k.pkey.value.y)
    case OKP => OkpMaterial(k.crv, k.pkey.value.raw)
    case OCT => OctMaterial(k.secret)
  }

  // ---------------------------------------------------------------- canonical JSON

  /** nxe_jwx_bn_to_b64url: minimal when padLen is 0, else exactly padLen octets. */
  function BnToB64url(n: nat, padLen: nat): Option<bytes>
  {
    if padLen > 0 then
      var raw := Padded(n, padLen);
      if raw.Some? then Some(Base64url.Encode(raw.value)) else None
    else if n == 0 then None
    else Some(Base64url.Encode(Minimal(n)))
  }

  /** Octets of a coordinate, (EVP_PKEY_bits + 7) / 8; 0 when the group is not in the table. */
  function CoordLen(group: string): nat
  {
    var c := CurveByGroup(EC_CURVES, group);
    if c.Some? then c.value.coordLen else 0
  }

  function RsaJson(e: bytes, n: bytes): bytes
  {
    Ascii("{\"e\":\"") + e + Ascii("\",\"kty\":\"RSA\",\"n\":\"") + n + Ascii("\"}")
  }

  function EcJson(crv: bytes, x: bytes, y: bytes): bytes
  {
    Ascii("{\"crv\":\"") + crv + Ascii("\",\"kty\":\"EC\",\"x\":\"") + x + Ascii("\",\"y\":\"") + y + Ascii("\"}")
  }

  function OkpJson(crv: bytes, x: bytes): bytes
  {
    Ascii("{\"crv\":\"") + crv + Ascii("\",\"kty\":\"OKP\",\"x\":\"") + x + Ascii("\"}")
  }

  function OctJson(k: bytes): bytes
  {
    Ascii("{\"k\":\"") + k + Ascii("\",\"kty\":\"oct\"}")
  }

  /** The text the digest is taken over. */
  function CanonicalJson(k: Key): Option<bytes>
    requires WellTyped(k)
  {
    match k.kty
    case RSA =>
      var n, e := BnToB64url(k.pkey.value.n, 0), BnToB64url(k.pkey.value.e, 0);
      if n.Some? && e.Some? then Some(RsaJson(e.value, n.value)) else None
    case EC =>
      var w := CoordLen(k.pkey.value.group);
      var x, y := BnToB64url(k.pkey.value.x, w), BnToB64url(k.pkey.value.y, w);
      if x.Some? && y.Some? then Some(EcJson(k.crv, x.value, y.value)) else None
    case OKP => Some(OkpJson(k.crv, Base64url.Encode(k.pkey.value.raw)))
    case OCT => Some(OctJson(Base64url.Encode(k.secret)))
  }

  /** nxe_jwx_jwk_thumbprint; a failure on the way leaves the thumbprint empty. */
  function ThumbprintOf(env: Env, k: Key): bytes
    requires WellTyped(k)
  {
    var json := CanonicalJson(k);
    if json.None? then []
    else
      var digest := env.sha256(json.value);
      if digest.None? then [] else Base64url.Encode(digest.value)
  }

  /** A key as the parsers store it: well-typed, under its own thumbprint. */
  predicate Stored(env: Env, k: Key)
  {
    WellTyped(k) && k.thumbprint == ThumbprintOf(env, k)
  }

  /** SHA-256 taken as collision-free. */
  ghost predicate CollisionFree(env: Env)
  {
    forall a, b :: env.sha256(a).Some? && env.sha256(a) == env.sha256(b) ==> a == b
  }

  // ---------------------------------------------------------------- the writers

  method WriteRsa(e: bytes, n: bytes) returns (json: array<byte>, len: nat)
    ensures fresh(json) && len == json.Length && json[..] == RsaJson(e, n)
  {
    hide Ascii;
    var start := Ascii("{\"e\":\"");
    var mid := Ascii("\",\"kty\":\"RSA\",\"n\":\"");
    var end := Ascii("\"}");
    json := new byte[|start| + |e| + |mid| + |n| + |end|];
    var p := Append(json, 0, start);
    p := Append(json, p, e);
    p := Append(json, p, mid);
    assert json[..p] == start + e + mid;
    p := Append(json, p, n);
    p := Append(json, p, end);
    len := p;
  }

  method WriteEc(crv: bytes, x: bytes, y: bytes) returns (json: array<byte>, len: nat)
    ensures fresh(json) && len == json.Length && json[..] == EcJson(crv, x, y)
  {
    hide Ascii;
    var start := Ascii("{\"crv\":\"");
    var mid := Ascii("\",\"kty\":\"EC\",\"x\":\"");
    var mid2 := Ascii("\",\"y\":\"");
    var end := Ascii("\"}");
    json := new byte[|start| + |crv| + |mid| + |x| + |mid2| + |y| + |end|];
    var p := Append(json, 0, start);
    p := Append(json, p, crv);
    p := Append(json, p, mid);
    assert json[..p] == start + crv + mid;
    p := Append(json, p, x);
    p := Append(json, p, mid2);
    assert json[..p] == start + crv + mid + x + mid2;
    p := Append(json, p, y);
    p := Append(json, p, end);
    len := p;
  }

  method WriteOkp(crv: bytes, x: bytes) returns (json: array<byte>, len: nat)
    ensures fresh(json) && len == json.Length && json[..] == OkpJson(crv, x)
  {
    hide Ascii;
    var start := Ascii("{\"crv\":\"");
    var mid := Ascii("\",\"kty\":\"OKP\",\"x\":\"");
    var end := Ascii("\"}");
    json := new byte[|start| + |crv| + |mid| + |x| + |end|];
    var p := Append(json, 0, start);
    p := Append(json, p, crv);
    p := Append(json, p, mid);
    assert json[..p] == start + crv + mid;
    p := Append(json, p, x);
    p := Append(json, p, end);
    len := p;
  }

  method WriteOct(k: bytes) returns (json: array<byte>, len: nat)
    ensures fresh(json) && len == json.Length && json[..] == OctJson(k)
  {
    hide Ascii;
    var start := Ascii("{\"k\":\"");
    var end := Ascii("\",\"kty\":\"oct\"}");
    json := new byte[|start| + |k| + |end|];
    var p := Append(json, 0, start);
    p := Append(json, p, k);
    p := Append(json, p, end);
    len := p;
  }

  // ---------------------------------------------------------------- reading a field back

  predicate QuoteFree(s: bytes)
  {
    FreeOf(QUOTE, s)
  }

  /** Quote-free fields behind a common prefix end at the first quote. */
  lemma NextField(pre: bytes, a: bytes, s: bytes, b: bytes, t: bytes)
    requires QuoteFree(a) && QuoteFree(b)
    requires s != [] && t != [] && s[0] == QUOTE && t[0] == QUOTE
    requires pre + a + s == pre + b + t
    ensures a == b && s == t
  {
    assert a + s == (pre + a + s)[|pre|..];
    assert b + t == (pre + b + t)[|pre|..];
    CutAgrees(QUOTE, a, s, b, t);
  }

  lemma EncodedQuoteFree(b: bytes)
    ensures QuoteFree(Base64url.Encode(b))
  {
    hide Base64url.Encode;
    Base64url.EncodeSextets(b);
  }

  lemma BnQuoteFree(n: nat, padLen: nat)
    requires BnToB64url(n, padLen).Some?
    ensures QuoteFree(BnToB64url(n, padLen).value)
  {
    hide Base64url.Encode;
    EncodedQuoteFree(if padLen > 0 then Padded(n, padLen).value else Minimal(n));
  }

  /** The integer encodings are injective at each width. */
  lemma BnInjective(n: nat, m: nat, padLen: nat)
    requires BnToB64url(n, padLen).Some? && BnToB64url(n, padLen) == BnToB64url(m, padLen)
    ensures n == m
  {
    hide Base64url.Encode, Padded, Minimal;
    if padLen > 0 {
      Base64url.EncodeInjective(Padded(n, padLen).value, Padded(m, padLen).value);
      NatOfPadded(n, padLen);
      NatOfPadded(m, padLen);
    } else {
      Base64url.EncodeInjective(Minimal(n), Minimal(m));
      NatOfMinimal(n);
      NatOfMinimal(m);
    }
  }

  lemma CurveNames(c: Curve)
    requires c in EC_CURVES || c in OKP_CURVES
    ensures QuoteFree(Ascii(c.crv))
  {
  }

  /** A curve is determined by its JWK name. */
  lemma CurveByName(table: seq<Curve>, c: Curve, d: Curve)
    requires table == EC_CURVES || table == OKP_CURVES
    requires c in table && d in table && Ascii(c.crv) == Ascii(d.crv)
    ensures c == d
  {
    if table == EC_CURVES {
      assert Ascii(c.crv)[2] == c.crv[2] as int % 256 && Ascii(d.crv)[2] == d.crv[2] as int % 256;
    } else {
      assert |Ascii(c.crv)| == |c.crv| && |Ascii(d.crv)| == |d.crv|;
    }
  }

  // ---------------------------------------------------------------- each text determines its fields

  lemma RsaFields(e: bytes, n: bytes, e': bytes, n': bytes)
    requires QuoteFree(e) && QuoteFree(n) && QuoteFree(e') && QuoteFree(n')
    requires RsaJson(e, n) == RsaJson(e', n')
    ensures e == e' && n == n'
  {
    hide QuoteFree;
    Literals();
    hide Ascii;
    var start, mid, end := Ascii("{\"e\":\""), Ascii("\",\"kty\":\"RSA\",\"n\":\""), Ascii("\"}");
    assert RsaJson(e, n) == start + e + (mid + n + end);
    assert RsaJson(e', n') == start + e' + (mid + n' + end);
    NextField(start, e, mid + n + end, e', mid + n' + end);
    NextField(mid, n, end, n', end);
  }

  lemma EcFields(crv: bytes, x: bytes, y: bytes, crv': bytes, x': bytes, y': bytes)
    requires QuoteFree(crv) && QuoteFree(x) && QuoteFree(y)
    requires QuoteFree(crv') && QuoteFree(x') && QuoteFree(y')
    requires EcJson(crv, x, y) == EcJson(crv', x', y')
    ensures crv == crv' && x == x' && y == y'
  {
    hide QuoteFree;
    Literals();
    hide Ascii;
    var start, end := Ascii("{\"crv\":\""), Ascii("\"}");
    var mid, mid2 := Ascii("\",\"kty\":\"EC\",\"x\":\""), Ascii("\",\"y\":\"");
    var s, s' := mid + x + (mid2 + y + end), mid + x' + (mid2 + y' + end);
    assert EcJson(crv, x, y) == start + crv + s;
    assert EcJson(crv', x', y') == start + crv' + s';
    NextField(start, crv, s, crv', s');
    NextField(mid, x, mid2 + y + end, x', mid2 + y' + end);
    NextField(mid2, y, end, y', end);
  }

  lemma OkpFields(crv: bytes, x: bytes, crv': bytes, x': bytes)
    requires QuoteFree(crv) && QuoteFree(x) && QuoteFree(crv') && QuoteFree(x')
    requires OkpJson(crv, x) == OkpJson(crv', x')
    ensures crv == crv' && x == x'
  {
    hide QuoteFree;
    Literals();
    hide Ascii;
    var start, mid, end := Ascii("{\"crv\":\""), Ascii("\",\"kty\":\"OKP\",\"x\":\""), Ascii("\"}");
    assert OkpJson(crv, x) == start + crv + (mid + x + end);
    assert OkpJson(crv', x') == start + crv' + (mid + x' + end);
    NextField(start, crv, mid + x + end, crv', mid + x' + end);
    NextField(mid, x, end, x', end);
  }

  lemma OctFields(k: bytes, k': bytes)
    requires QuoteFree(k) && QuoteFree(k')
    requires OctJson(k) == OctJson(k')
    ensures k == k'
  {
    hide QuoteFree;
    Literals();
    hide Ascii;
    NextField(Ascii("{\"k\":\""), k, Ascii("\",\"kty\":\"oct\"}"), k', Ascii("\",\"kty\":\"oct\"}"));
  }

  /** Every literal that follows a field starts with the closing quote. */
  lemma Literals()
    ensures Ascii("\",\"kty\":\"RSA\",\"n\":\"")[0] == QUOTE && Ascii("\"}")[0] == QUOTE
    ensures Ascii("\",\"kty\":\"EC\",\"x\":\"")[0] == QUOTE && Ascii("\",\"y\":\"")[0] == QUOTE
    ensures Ascii("\",\"kty\":\"OKP\",\"x\":\"")[0] == QUOTE && Ascii("\",\"kty\":\"oct\"}")[0] == QUOTE
  {
  }

  // ---------------------------------------------------------------- the text identifies the key

  /** The third character tells RSA, oct and the curve types apart. */
  lemma ThirdCharacter(k: Key)
    requires WellTyped(k) && CanonicalJson(k).Some?
    ensures |CanonicalJson(k).value| > 2
    ensures CanonicalJson(k).value[2] == if k.kty == RSA then 101 else if k.kty == OCT then 107 else 99
  {
    hide BnToB64url, Base64url.Encode;
    Openings();
    hide Ascii;
  }

  lemma Openings()
    ensures Ascii("{\"e\":\"")[2] == 101 && Ascii("{\"k\":\"")[2] == 107 && Ascii("{\"crv\":\"")[2] == 99
  {
  }

  /** EC and OKP texts part where the type is spelled. */
  lemma EcIsNotOkp(crv: bytes, x: bytes, y: bytes, crv': bytes, x': bytes)
    requires QuoteFree(crv) && QuoteFree(crv')
    ensures EcJson(crv, x, y) != OkpJson(crv', x')
  {
    hide QuoteFree;
    Literals();
    KtySpelling();
    hide Ascii;
    var start, end := Ascii("{\"crv\":\""), Ascii("\"}");
    var ec, okp := Ascii("\",\"kty\":\"EC\",\"x\":\""), Ascii("\",\"kty\":\"OKP\",\"x\":\"");
    var s, s' := ec + x + (Ascii("\",\"y\":\"") + y + end), okp + x' + end;
    assert s[9] == ec[9] && s'[9] == okp[9];
    if EcJson(crv, x, y) == OkpJson(crv', x') {
      assert EcJson(crv, x, y) == start + crv + s;
      assert OkpJson(crv', x') == start + crv' + s';
      NextField(start, crv, s, crv', s');
    }
  }

  lemma KtySpelling()
    ensures Ascii("\",\"kty\":\"EC\",\"x\":\"")[9] != Ascii("\",\"kty\":\"OKP\",\"x\":\"")[9]
  {
  }

  lemma CrvQuoteFree(k: Key)
    requires WellTyped(k) && (k.kty == EC || k.kty == OKP)
    ensures QuoteFree(k.crv)
  {
    hide Ascii, QuoteFree;
    if k.kty == EC {
      var c :| c in EC_CURVES && k.crv == Ascii(c.crv);
      CurveNames(c);
    } else {
      var c :| c in OKP_CURVES && k.crv == Ascii(c.crv);
      CurveNames(c);
    }
  }

  /** Keys on a curve of the same name have the same EVP_PKEY group. */
  lemma GroupByCrv(k: Key, l: Key)
    requires WellTyped(k) && WellTyped(l) && k.kty == EC && l.kty == EC && k.crv == l.crv
    ensures k.pkey.value.group == l.pkey.value.group
  {
    hide Ascii;
    var c :| c in EC_CURVES && k.crv == Ascii(c.crv) && k.pkey.value.group == c.group;
    var d :| d in EC_CURVES && l.crv == Ascii(d.crv) && l.pkey.value.group == d.group;
    CurveByName(EC_CURVES, c, d);
  }

  lemma SameTextSameType(k: Key, l: Key)
    requires WellTyped(k) && WellTyped(l)
    requires CanonicalJson(k).Some? && CanonicalJson(k) == CanonicalJson(l)
    ensures k.kty == l.kty
  {
    hide BnToB64url, Base64url.Encode, WellTyped;
    ThirdCharacter(k);
    ThirdCharacter(l);
    if k.kty == EC && l.kty == OKP {
      DistinctCurveTypes(k, l);
    } else if k.kty == OKP && l.kty == EC {
      DistinctCurveTypes(l, k);
    } else {
      Typed(k);
      Typed(l);
    }
  }

  lemma Typed(k: Key)
    requires WellTyped(k)
    ensures k.kty in {RSA, EC, OKP, OCT}
  {
  }

  lemma DistinctCurveTypes(k: Key, l: Key)
    requires WellTyped(k) && WellTyped(l) && k.kty == EC && l.kty == OKP
    requires CanonicalJson(k).Some?
    ensures CanonicalJson(k) != CanonicalJson(l)
  {
    hide BnToB64url, Base64url.Encode, EcJson, OkpJson, QuoteFree;
    CrvQuoteFree(k);
    CrvQuoteFree(l);
    var w := CoordLen(k.pkey.value.group);
    EcIsNotOkp(k.crv, BnToB64url(k.pkey.value.x, w).value, BnToB64url(k.pkey.value.y, w).value,
               l.crv, Base64url.Encode(l.pkey.value.raw));
  }

  lemma SameTextSameRsa(k: Key, l: Key)
    requires WellTyped(k) && WellTyped(l) && k.kty == RSA && l.kty == RSA
    requires CanonicalJson(k).Some? && CanonicalJson(k) == CanonicalJson(l)
    ensures MaterialOf(k) == MaterialOf(l)
  {
    hide BnToB64url, RsaJson, QuoteFree;
    var p, q := k.pkey.value, l.pkey.value;
    BnQuoteFree(p.n, 0);
    BnQuoteFree(p.e, 0);
    BnQuoteFree(q.n, 0);
    BnQuoteFree(q.e, 0);
    RsaFields(BnToB64url(p.e, 0).value, BnToB64url(p.n, 0).value, BnToB64url(q.e, 0).value, BnToB64url(q.n, 0).value);
    BnInjective(p.n, q.n, 0);
    BnInjective(p.e, q.e, 0);
  }

  lemma SameTextSameEc(k: Key, l: Key)
    requires WellTyped(k) && WellTyped(l) && k.kty == EC && l.kty == EC
    requires CanonicalJson(k).Some? && CanonicalJson(k) == CanonicalJson(l)
    ensures MaterialOf(k) == MaterialOf(l)
  {
    hide BnToB64url, EcJson, QuoteFree, CoordLen;
    var p, q := k.pkey.value, l.pkey.value;
    var w, v := CoordLen(p.group), CoordLen(q.group);
    CrvQuoteFree(k);
    CrvQuoteFree(l);
    BnQuoteFree(p.x, w);
    BnQuoteFree(p.y, w);
    BnQuoteFree(q.x, v);
    BnQuoteFree(q.y, v);
    EcFields(k.crv, BnToB64url(p.x, w).value, BnToB64url(p.y, w).value,
             l.crv, BnToB64url(q.x, v).value, BnToB64url(q.y, v).value);
    GroupByCrv(k, l);
    BnInjective(p.x, q.x, w);
    BnInjective(p.y, q.y, w);
  }

  lemma SameTextSameOkpOrOct(k: Key, l: Key)
    requires WellTyped(k) && WellTyped(l) && k.kty == l.kty && (k.kty == OKP || k.kty == OCT)
    requires CanonicalJson(k) == CanonicalJson(l)
    ensures MaterialOf(k) == MaterialOf(l)
  {
    hide Base64url.Encode, OkpJson, OctJson, QuoteFree;
    if k.kty == OKP {
      var a, b := k.pkey.value.raw, l.pkey.value.raw;
      CrvQuoteFree(k);
      CrvQuoteFree(l);
      EncodedQuoteFree(a);
      EncodedQuoteFree(b);
      OkpFields(k.crv, Base64url.Encode(a), l.crv, Base64url.Encode(b));
      Base64url.EncodeInjective(a, b);
    } else {
      EncodedQuoteFree(k.secret);
      EncodedQuoteFree(l.secret);
      OctFields(Base64url.Encode(k.secret), Base64url.Encode(l.secret));
      Base64url.EncodeInjective(k.secret, l.secret);
    }
  }

  /** Two keys have the same canonical JSON exactly when they have the same type and public material. */
  lemma CanonicalJsonInjective(k: Key, l: Key)
    requires WellTyped(k) && WellTyped(l) && CanonicalJson(k).Some?
    ensures CanonicalJson(k) == CanonicalJson(l) <==> k.kty == l.kty && MaterialOf(k) == MaterialOf(l)
  {
    hide BnToB64url, RsaJson, EcJson, OkpJson, OctJson, CoordLen, Base64url.Encode;
    if CanonicalJson(k) == CanonicalJson(l) {
      SameTextSameType(k, l);
      Typed(k);
      match k.kty
      case RSA => SameTextSameRsa(k, l);
      case EC => SameTextSameEc(k, l);
      case OKP => SameTextSameOkpOrOct(k, l);
      case OCT => SameTextSameOkpOrOct(k, l);
    } else if k.kty == EC && l.kty == EC && k.crv == l.crv {
      GroupByCrv(k, l);
    }
  }

  // ---------------------------------------------------------------- formatting does not matter

  /** Leading zero octets in n or e change neither the size of the modulus nor the text. */
  lemma RsaFormattingIgnored(n: bytes, e: bytes, i: nat, j: nat)
    ensures var n', e' := ZeroOctets(i) + n, ZeroOctets(j) + e;
      && BitLength(ToNat(n')) == BitLength(ToNat(n))
      && BnToB64url(ToNat(n'), 0) == BnToB64url(ToNat(n), 0)
      && BnToB64url(ToNat(e'), 0) == BnToB64url(ToNat(e), 0)
  {
    LeadingZeros(i, n);
    LeadingZeros(j, e);
  }

  /** The text of a minimal RSA integer decodes to an octet string without a leading zero. */
  lemma RsaTextIsMinimal(n: nat)
    requires n > 0
    ensures BnToB64url(n, 0).Some?
    ensures var raw := Base64url.Decode(BnToB64url(n, 0).value);
      raw.Some? && raw.value != [] && raw.value[0] != 0 && ToNat(raw.value) == n
  {
    hide Base64url.Decode, Base64url.Encode;
    Base64url.RoundTrip(Minimal(n));
    NatOfMinimal(n);
  }

  /** A coordinate of the curve's width is re-encoded as itself. */
  lemma EcCoordinateUnchanged(x: bytes)
    requires x != []
    ensures BnToB64url(ToNat(x), |x|) == Some(Base64url.Encode(x))
  {
    hide Base64url.Encode;
    PaddedOfNat(x);
  }

  // ---------------------------------------------------------------- filling in the thumbprint

  /** nxe_jwx_jwk_thumbprint: the one field written is the thumbprint. */
  method FillThumbprint(env: Env, k: Key) returns (r: Key)
    requires WellTyped(k)
    ensures r == k.(thumbprint := ThumbprintOf(env, k))
  {
    hide RsaJson, EcJson, OkpJson, OctJson, Base64url.Encode, BnToB64url, CoordLen;
    r := k.(thumbprint := []);
    var json: array<byte>, len: nat;
    match k.kty {
      case RSA =>
        var n, e := BnToB64url(k.pkey.value.n, 0), BnToB64url(k.pkey.value.e, 0);
        if n.None? || e.None? { return; }
        json, len := WriteRsa(e.value, n.value);
      case EC =>
        var w := CoordLen(k.pkey.value.group);
        var x, y := BnToB64url(k.pkey.value.x, w), BnToB64url(k.pkey.value.y, w);
        if x.None? || y.None? { return; }
        json, len := WriteEc(k.crv, x.value, y.value);
      case OKP =>
        var x := Base64url.EncodeBuffer(k.pkey.value.raw);
        json, len := WriteOkp(k.crv, x);
      case OCT =>
        var s := Base64url.EncodeBuffer(k.secret);
        json, len := WriteOct(s);
    }
    assert json[..len] == json[..];
    var digest := env.sha256(json[..len]);
    if digest.None? { return; }
    var text := Base64url.EncodeBuffer(digest.value);
    r := r.(thumbprint := text);
  }
}
