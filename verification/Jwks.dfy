/** What each entry of a key document yields, and what a whole document yields. */
module Jwks {
  import opened Bytes
  import opened BigNum
  import opened Keys
  import opened Thumbprint
  import Base64url

  const MAX_JWKS_SIZE := 262144
  const MAX_JWKS_KEYS := 64
  const MIN_RSA_BITS := 2048
  const MAX_RSA_BITS := 16384

  // ---------------------------------------------------------------- fields

  datatype Field = Found(value: bytes) | Absent | Broken

  /** nxe_jwx_b64url_field: missing, mistyped and empty are absent; bad base64url is a hard error. */
  function B64Field(jwk: Json, name: string): Field
    requires jwk.Object?
  {
    var text := StringMember(jwk, name);
    if text == [] then Absent
    else
      var raw := Base64url.Decode(text);
      if raw.Some? then Found(raw.value) else Broken
  }

  /** The member is a string, possibly empty. */
  predicate HasString(jwk: Json, name: string)
    requires jwk.Object?
  {
    var m := Member(jwk.members, Ascii(name));
    m.Some? && m.value.String?
  }

  // ---------------------------------------------------------------- the key types

  /** The public part an entry builds, or NGX_DECLINED, or NGX_ERROR. */
  datatype Part = Built(pkey: PKey) | Declines | Errs

  function RsaPart(env: Env, jwk: Json): Part
    requires jwk.Object?
  {
    var n := B64Field(jwk, "n");
    if n.Broken? then Errs else if n.Absent? then Declines
    else
      var e := B64Field(jwk, "e");
      if e.Broken? then Errs else if e.Absent? then Declines
      else
        var bits := BitLength(ToNat(n.value));
        if bits < MIN_RSA_BITS || bits > MAX_RSA_BITS then Declines
        else if !env.buildRsa(ToNat(n.value), ToNat(e.value)) then Errs
        else Built(RsaKey(Plain, ToNat(n.value), ToNat(e.value)))
  }

  function EcPart(env: Env, crv: bytes, jwk: Json): Part
    requires jwk.Object?
  {
    var c := CurveByCrv(EC_CURVES, crv);
    if crv == [] || c.None? then Declines
    else
      var x := B64Field(jwk, "x");
      if x.Broken? then Errs else if x.Absent? || |x.value| != c.value.coordLen then Declines
      else
        var y := B64Field(jwk, "y");
        if y.Broken? then Errs else if y.Absent? || |y.value| != c.value.coordLen then Declines
        else if !env.buildEc(c.value.group, ToNat(x.value), ToNat(y.value)) then Errs
        else Built(EcKey(c.value.group, ToNat(x.value), ToNat(y.value)))
  }

  function OkpPart(env: Env, crv: bytes, jwk: Json): Part
    requires jwk.Object?
  {
    var c := CurveByCrv(OKP_CURVES, crv);
    if crv == [] || c.None? then Declines
    else
      var x := B64Field(jwk, "x");
      if x.Broken? then Errs else if x.Absent? || |x.value| != c.value.coordLen then Declines
      else if !env.buildOkp(c.value.group, x.value) then Errs
      else Built(OkpKey(c.value.group, x.value))
  }

  function KtyNamed(env: Env, text: bytes): Kty
  {
    if text == Ascii("RSA") then RSA
    else if text == Ascii("EC") then EC
    else if text == Ascii("OKP") then OKP
    else if env.hmac && text == Ascii("oct") then OCT
    else UNKNOWN
  }

  function PartFor(env: Env, kty: Kty, crv: bytes, jwk: Json): Part
    requires jwk.Object?
  {
    match kty
    case RSA => RsaPart(env, jwk)
    case EC => EcPart(env, crv, jwk)
    case OKP => OkpPart(env, crv, jwk)
    case _ => Declines
  }

  // ---------------------------------------------------------------- one entry

  datatype Parsed = Usable(key: Key) | Skip | Fail

  const ZERO_KEY: Key := Key(UNKNOWN, [], [], [], [], None, [])

  /** The entry is passed over before its key type is looked at. */
  predicate Unfit(jwk: Json)
    requires jwk.Object?
  {
    || !HasString(jwk, "kty")
    || StringMember(jwk, "use") == Ascii("enc")
    || (HasString(jwk, "kid") && StringMember(jwk, "kid") == [])
  }

  /** kid, alg and crv as copied before the type-specific part. */
  function Labelled(jwk: Json): Key
    requires jwk.Object?
  {
    ZERO_KEY.(kid := StringMember(jwk, "kid"), alg := StringMember(jwk, "alg"), crv := StringMember(jwk, "crv"))
  }

  lemma PartTyped(env: Env, kty: Kty, k: Key, jwk: Json)
    requires jwk.Object? && PartFor(env, kty, k.crv, jwk).Built?
    ensures WellTyped(k.(kty := kty, pkey := Some(PartFor(env, kty, k.crv, jwk).pkey)))
  {
    hide Ascii, Base64url.Decode;
  }

  /** The type-specific part: k with its type and material, still without a thumbprint. */
  function WithMaterial(env: Env, kty: Kty, k: Key, jwk: Json): (p: Parsed)
    requires jwk.Object? && k.pkey.None?
    ensures p.Usable? ==> WellTyped(p.key)
  {
    if kty == OCT then
      var secret := B64Field(jwk, "k");
      if secret.Broken? then Fail else if secret.Absent? || secret.value == [] then Skip
      else Usable(k.(kty := OCT, secret := secret.value))
    else
      match PartFor(env, kty, k.crv, jwk)
      case Declines => Skip
      case Errs => Fail
      case Built(pkey) =>
        PartTyped(env, kty, k, jwk);
        Usable(k.(kty := kty, pkey := Some(pkey)))
  }

  /** nxe_jwx_parse_one_key on an object. */
  function ReadJwk(env: Env, jwk: Json): Parsed
    requires jwk.Object?
  {
    if Unfit(jwk) then Skip
    else
      var p := WithMaterial(env, KtyNamed(env, StringMember(jwk, "kty")), Labelled(jwk), jwk);
      if p.Usable? then Usable(p.key.(thumbprint := ThumbprintOf(env, p.key))) else p
  }

  /** One element of the keys array. */
  function ReadEntry(env: Env, entry: Json): Parsed
  {
    if entry.Object? then ReadJwk(env, entry) else Skip
  }

  function KtyOf(pkey: PKey): Kty
  {
    match pkey
    case RsaKey(_, _, _) => RSA
    case EcKey(_, _, _) => EC
    case OkpKey(_, _) => OKP
    case OtherKey(_) => UNKNOWN
  }

  /** The curve row behind a loaded public key, when its type needs one. */
  function CurveOf(pkey: PKey): Option<Curve>
  {
    match pkey
    case EcKey(group, _, _) => CurveByGroup(EC_CURVES, group)
    case OkpKey(curve, _) => CurveByGroup(OKP_CURVES, curve)
    case _ => None
  }

  /** A loaded public key the keyset can hold. */
  predicate Supported(pkey: PKey)
  {
    pkey.RsaKey? || CurveOf(pkey).Some?
  }

  /** The key stored for a supported public key, before its thumbprint. */
  function PemKey(kid: bytes, pkey: PKey): (k: Key)
    requires Supported(pkey)
    ensures WellTyped(k)
  {
    ZERO_KEY.(kty := KtyOf(pkey), kid := kid, pkey := Some(pkey),
              crv := if CurveOf(pkey).Some? then Ascii(CurveOf(pkey).value.crv) else [])
  }

  /** One member of a keyval document. */
  function ReadPem(env: Env, entry: (bytes, Json)): Parsed
  {
    var (kid, value) := entry;
    if kid == [] || !value.String? || value.text == [] then Skip
    else
      var pkey := env.loadPublic(value.text);
      if pkey.None? || !Supported(pkey.value) then Skip
      else
        var k := PemKey(kid, pkey.value);
        Usable(k.(thumbprint := ThumbprintOf(env, k)))
  }

  // ---------------------------------------------------------------- whole documents

  /** The usable keys in order; nothing when any entry is a hard error. */
  function Collect(ps: seq<Parsed>): Option<seq<Key>>
  {
    if ps == [] then Some([])
    else
      var front, last := Collect(ps[..|ps| - 1]), ps[|ps| - 1];
      if front.None? || last.Fail? then None
      else if last.Skip? then front
      else Some(front.value + [last.key])
  }

  function ReadAll(env: Env, entries: seq<Json>): (ps: seq<Parsed>)
    ensures |ps| == |entries|
  {
    seq(|entries|, i requires 0 <= i < |entries| => ReadEntry(env, entries[i]))
  }

  function ReadAllPem(env: Env, entries: seq<(bytes, Json)>): (ps: seq<Parsed>)
    ensures |ps| == |entries|
  {
    seq(|entries|, i requires 0 <= i < |entries| => ReadPem(env, entries[i]))
  }

  function NonEmpty(keys: Option<seq<Key>>): Option<seq<Key>>
  {
    if keys == Some([]) then None else keys
  }

  /** The entries of a JWKS document that passes the size and shape checks. */
  function JwksEntries(env: Env, doc: bytes): Option<seq<Json>>
  {
    if |doc| == 0 || |doc| > MAX_JWKS_SIZE then None
    else
      var root := env.parse(doc);
      if root.None? || !root.value.Object? then None
      else
        var keys := Member(root.value.members, Ascii("keys"));
        if keys.None? || !keys.value.Array? || |keys.value.items| > MAX_JWKS_KEYS then None
        else Some(keys.value.items)
  }

  /** nxe_jwx_jwks_parse. */
  function JwksKeys(env: Env, doc: bytes): Option<seq<Key>>
  {
    var entries := JwksEntries(env, doc);
    if entries.None? then None else NonEmpty(Collect(ReadAll(env, entries.value)))
  }

  function KeyvalEntries(env: Env, doc: bytes): Option<seq<(bytes, Json)>>
  {
    if |doc| == 0 || |doc| > MAX_JWKS_SIZE then None
    else
      var root := env.parse(doc);
      if root.None? || !root.value.Object? then None
      else if root.value.members == [] || |root.value.members| > MAX_JWKS_KEYS then None
      else Some(root.value.members)
  }

  /** nxe_jwx_jwks_parse_keyval. */
  function KeyvalKeys(env: Env, doc: bytes): Option<seq<Key>>
  {
    var entries := KeyvalEntries(env, doc);
    if entries.None? then None else NonEmpty(Collect(ReadAllPem(env, entries.value)))
  }

  lemma CollectStep(ps: seq<Parsed>, i: nat)
    requires i < |ps|
    ensures Collect(ps[..i + 1]) ==
            if Collect(ps[..i]).None? || ps[i].Fail? then None
            else if ps[i].Skip? then Collect(ps[..i])
            else Some(Collect(ps[..i]).value + [ps[i].key])
  {
    assert ps[..i + 1][..i] == ps[..i];
  }

  lemma {:induction false} CollectUsable(ps: seq<Parsed>, keys: seq<Key>)
    requires |ps| == |keys| && forall i :: 0 <= i < |ps| ==> ps[i] == Usable(keys[i])
    ensures Collect(ps) == Some(keys)
  {
    if ps != [] {
      var last := |ps| - 1;
      CollectUsable(ps[..last], keys[..last]);
      assert keys == keys[..last] + [keys[last]];
    }
  }

  lemma CollectFails(ps: seq<Parsed>, i: nat)
    requires i < |ps| && ps[i].Fail?
    ensures Collect(ps) == None
  {
    var from := CollectIsStableFilter(ps);
  }

  // ---------------------------------------------------------------- a stable, all-or-nothing filter

  /** keys are the usable entries of ps, each once and in order; from says where each stood. */
  ghost predicate StableFilter(ps: seq<Parsed>, keys: seq<Key>, from: seq<nat>)
  {
    && |from| == |keys|
    && (forall j :: 0 <= j < |from| ==> from[j] < |ps| && ps[from[j]] == Usable(keys[j]))
    && (forall i, j :: 0 <= i < j < |from| ==> from[i] < from[j])
    && (forall i :: 0 <= i < |ps| && ps[i].Usable? ==> i in from)
  }

  lemma {:induction false} CollectIsStableFilter(ps: seq<Parsed>) returns (from: seq<nat>)
    ensures Collect(ps).Some? <==> forall i :: 0 <= i < |ps| ==> !ps[i].Fail?
    ensures Collect(ps).Some? ==> StableFilter(ps, Collect(ps).value, from)
  {
    from := [];
    if ps != [] {
      var front, last := ps[..|ps| - 1], ps[|ps| - 1];
      from := CollectIsStableFilter(front);
      assert forall i :: 0 <= i < |front| ==> front[i] == ps[i];
      if last.Usable? {
        from := from + [|ps| - 1];
      }
    }
  }

  predicate InRange(n: nat)
  {
    MIN_RSA_BITS <= BitLength(n) <= MAX_RSA_BITS
  }

  /** An RSA key whose modulus is in range; every other key. */
  predicate RangeKept(k: Key)
  {
    k.kty == RSA ==> k.pkey.Some? && k.pkey.value.RsaKey? && InRange(k.pkey.value.n)
  }

  /** What a JWKS document's keys keep: no JWK makes an RSASSA-PSS-typed key. */
  predicate FromJwk(env: Env, k: Key)
  {
    && Stored(env, k) && RangeKept(k)
    && (k.kty == RSA ==> k.pkey.value.form.Plain?)
    && (k.kty == OCT ==> env.hmac)
  }

  /** A key from a JWK: stored in range, labelled as the entry says, unlabelled only without a string kid. */
  lemma JwkKeyInvariant(env: Env, jwk: Json)
    requires jwk.Object? && ReadJwk(env, jwk).Usable?
    ensures var k := ReadJwk(env, jwk).key;
      && FromJwk(env, k)
      && (k.kid == [] <==> !HasString(jwk, "kid"))
      && StringMember(jwk, "use") != Ascii("enc")
      && k.kid == StringMember(jwk, "kid") && k.alg == StringMember(jwk, "alg") && k.crv == StringMember(jwk, "crv")
  {
    hide Ascii, ThumbprintOf, Base64url.Decode;
    var k := Labelled(jwk);
    var kty := KtyNamed(env, StringMember(jwk, "kty"));
    var stored := ReadJwk(env, jwk).key;
    ThumbprintIgnoresItself(env, stored.(thumbprint := []), stored.thumbprint);
  }

  /** The thumbprint field is not part of what is thumbprinted. */
  lemma ThumbprintIgnoresItself(env: Env, k: Key, tp: bytes)
    requires WellTyped(k)
    ensures WellTyped(k.(thumbprint := tp)) && ThumbprintOf(env, k.(thumbprint := tp)) == ThumbprintOf(env, k)
  {
    hide Ascii, Base64url.Encode;
  }

  /** A key from a keyval document: what the PEM text loads as, stored under the member's name, unpinned. */
  lemma PemKeyInvariant(env: Env, entry: (bytes, Json))
    requires ReadPem(env, entry).Usable?
    ensures var k := ReadPem(env, entry).key;
      && Stored(env, k)
      && k.kid == entry.0 != [] && k.alg == [] && k.kty != OCT
      && entry.1.String? && entry.1.text != [] && k.pkey == env.loadPublic(entry.1.text)
  {
    hide Ascii, ThumbprintOf;
    var k := PemKey(entry.0, env.loadPublic(entry.1.text).value);
    ThumbprintIgnoresItself(env, k, ThumbprintOf(env, k));
  }

  // ---------------------------------------------------------------- what does not change an entry

  /** Leading zero octets in n and e change nothing about an RSA entry. */
  lemma RsaEntryFormatting(env: Env, jwk: Json, jwk': Json, i: nat, j: nat)
    requires jwk.Object? && jwk'.Object?
    requires forall name <- ["kty", "use", "kid", "alg", "crv"] ::
               HasString(jwk', name) == HasString(jwk, name) && StringMember(jwk', name) == StringMember(jwk, name)
    requires StringMember(jwk, "kty") == Ascii("RSA")
    requires B64Field(jwk, "n").Found? && B64Field(jwk', "n") == Found(ZeroOctets(i) + B64Field(jwk, "n").value)
    requires B64Field(jwk, "e").Found? && B64Field(jwk', "e") == Found(ZeroOctets(j) + B64Field(jwk, "e").value)
    ensures ReadJwk(env, jwk') == ReadJwk(env, jwk)
  {
    hide B64Field, HasString, StringMember, Ascii, ThumbprintOf;
    LeadingZeros(i, B64Field(jwk, "n").value);
    LeadingZeros(j, B64Field(jwk, "e").value);
    assert RsaPart(env, jwk') == RsaPart(env, jwk);
    var names := ["kty", "use", "kid", "alg", "crv"];
    assert names[0] == "kty" && names[1] == "use" && names[2] == "kid" && names[3] == "alg" && names[4] == "crv";
    assert Unfit(jwk') == Unfit(jwk) && Labelled(jwk') == Labelled(jwk);
    assert StringMember(jwk', "kty") == Ascii("RSA");
  }

  /** The coordinates of an EC entry are thumbprinted as the octets the entry carries. */
  lemma EcEntryCoordinates(env: Env, crv: bytes, jwk: Json)
    requires jwk.Object? && EcPart(env, crv, jwk).Built?
    ensures var p, w := EcPart(env, crv, jwk).pkey, CoordLen(EcPart(env, crv, jwk).pkey.group);
      && BnToB64url(p.x, w) == Some(Base64url.Encode(B64Field(jwk, "x").value))
      && BnToB64url(p.y, w) == Some(Base64url.Encode(B64Field(jwk, "y").value))
  {
    hide B64Field, BnToB64url, Ascii;
    var c := CurveByCrv(EC_CURVES, crv).value;
    EcWidth(c);
    EcCoordinateUnchanged(B64Field(jwk, "x").value);
    EcCoordinateUnchanged(B64Field(jwk, "y").value);
  }

  lemma EcWidth(c: Curve)
    requires c in EC_CURVES
    ensures CoordLen(c.group) == c.coordLen > 0
  {
    assert "prime256v1"[4] != "secp384r1"[4] && "prime256v1"[0] != "secp521r1"[0] && "prime256v1"[0] != "secp256k1"[0];
    assert "secp384r1"[4] != "secp521r1"[4] && "secp384r1"[4] != "secp256k1"[4] && "secp521r1"[4] != "secp256k1"[4];
  }

  // ---------------------------------------------------------------- what a document's keys keep

  /** Where the keys of a filtered document come from. */
  lemma KeysComeFrom(ps: seq<Parsed>)
    requires Collect(ps).Some?
    ensures |Collect(ps).value| <= |ps|
    ensures forall k :: k in Collect(ps).value <==> Usable(k) in ps
  {
    var keys := Collect(ps).value;
    var from := CollectIsStableFilter(ps);
    FilterLength(from, |ps|);
    forall k ensures k in keys <==> Usable(k) in ps {
      if k in keys {
        var j :| 0 <= j < |keys| && keys[j] == k;
        assert ps[from[j]] == Usable(k);
      }
      if Usable(k) in ps {
        var i :| 0 <= i < |ps| && ps[i] == Usable(k);
        var j :| 0 <= j < |from| && from[j] == i;
        assert keys[j] == k;
      }
    }
  }

  /** Every key of a parsed JWKS document keeps the invariant; there are between 1 and 64. */
  lemma JwksKeysInvariant(env: Env, doc: bytes)
    requires JwksKeys(env, doc).Some?
    ensures 0 < |JwksKeys(env, doc).value| <= MAX_JWKS_KEYS
    ensures forall k <- JwksKeys(env, doc).value :: FromJwk(env, k)
  {
    hide ReadJwk, FromJwk;
    var entries := JwksEntries(env, doc).value;
    var ps := ReadAll(env, entries);
    KeysComeFrom(ps);
    forall k | k in JwksKeys(env, doc).value
      ensures FromJwk(env, k)
    {
      var i :| 0 <= i < |ps| && ps[i] == Usable(k);
      JwkKeyInvariant(env, entries[i]);
    }
  }

  /** What a keyval document's keys keep; there are between 1 and 64. */
  lemma KeyvalKeysInvariant(env: Env, doc: bytes)
    requires KeyvalKeys(env, doc).Some?
    ensures 0 < |KeyvalKeys(env, doc).value| <= MAX_JWKS_KEYS
    ensures forall k <- KeyvalKeys(env, doc).value :: Stored(env, k) && k.alg == [] && k.kid != [] && k.kty != OCT
  {
    hide ReadPem, Stored;
    var entries := KeyvalEntries(env, doc).value;
    var ps := ReadAllPem(env, entries);
    KeysComeFrom(ps);
    forall k | k in KeyvalKeys(env, doc).value
      ensures Stored(env, k) && k.alg == [] && k.kid != [] && k.kty != OCT
    {
      var i :| 0 <= i < |ps| && ps[i] == Usable(k);
      PemKeyInvariant(env, entries[i]);
    }
  }

  // ---------------------------------------------------------------- the RSA range, document by document

  /** A named, non-empty text that loads as an RSA key. */
  predicate NamesRsa(env: Env, entry: (bytes, Json))
  {
    && entry.0 != [] && entry.1.String? && entry.1.text != []
    && env.loadPublic(entry.1.text).Some? && env.loadPublic(entry.1.text).value.RsaKey?
  }

  /** A keyval document stores RSA keys in range only, exactly when it names no other. */
  lemma KeyvalRangeIff(env: Env, doc: bytes)
    requires KeyvalKeys(env, doc).Some?
    ensures (forall k <- KeyvalKeys(env, doc).value :: RangeKept(k)) <==>
            forall e <- KeyvalEntries(env, doc).value :: NamesRsa(env, e) ==>
              InRange(env.loadPublic(e.1.text).value.n)
  {
    hide InRange, ThumbprintOf;
    var entries, keys := KeyvalEntries(env, doc).value, KeyvalKeys(env, doc).value;
    var ps := ReadAllPem(env, entries);
    KeysComeFrom(ps);
    if forall k <- keys :: RangeKept(k) {
      forall e | e in entries && NamesRsa(env, e)
        ensures InRange(env.loadPublic(e.1.text).value.n)
      {
        var i :| 0 <= i < |entries| && entries[i] == e;
        assert ps[i].Usable? && ps[i].key in keys;
      }
    }
    if forall e <- entries :: NamesRsa(env, e) ==> InRange(env.loadPublic(e.1.text).value.n) {
      forall k | k in keys
        ensures RangeKept(k)
      {
        var i :| 0 <= i < |ps| && ps[i] == Usable(k);
        assert entries[i] in entries;
      }
    }
  }

  /** A library that loads every text as an RSA key with a modulus of two bits. */
  function ShortEnv(): Env
  {
    Env(false, (_, _, _, _, _) => Rejected, (_, _, _, _, _) => None, (_, _, _) => None, _ => None,
        _ => None, _ => Some(RsaKey(Plain, 3, 1)), (_, _) => true, (_, _, _) => true, (_, _) => true,
        _ => Some(Object([([107], String([1]))])), _ => None)
  }

  /** A keyval document that stores a modulus of two bits. */
  lemma ShortModulusIsStored(doc: bytes) returns (k: Key)
    requires 0 < |doc| <= MAX_JWKS_SIZE
    ensures KeyvalKeys(ShortEnv(), doc) == Some([k])
    ensures k.kty == RSA && k.pkey == Some(RsaKey(Plain, 3, 1)) && BitLength(3) == 2 && !RangeKept(k)
  {
    hide ThumbprintOf;
    var ps := ReadAllPem(ShortEnv(), [([107], String([1]))]);
    k := ps[0].key;
    CollectUsable(ps, [k]);
  }

  function Without<T>(s: seq<T>, i: nat): seq<T>
    requires i < |s|
  {
    s[..i] + s[i + 1..]
  }

  lemma {:induction false} CollectWithout(ps: seq<Parsed>, i: nat)
    requires i < |ps| && ps[i].Skip?
    ensures Collect(Without(ps, i)) == Collect(ps)
  {
    var last := |ps| - 1;
    if i == last {
      assert Without(ps, i) == ps[..last];
    } else {
      CollectWithout(ps[..last], i);
      assert Without(ps, i)[..last - 1] == Without(ps[..last], i);
    }
  }

  /** An RSA entry that spells out a modulus outside the range. */
  predicate OutOfRange(entry: Json)
  {
    && entry.Object? && StringMember(entry, "kty") == Ascii("RSA")
    && B64Field(entry, "n").Found? && B64Field(entry, "e").Found?
    && !InRange(ToNat(B64Field(entry, "n").value))
  }

  lemma OutOfRangeSkips(env: Env, entry: Json)
    requires OutOfRange(entry)
    ensures ReadEntry(env, entry) == Skip
  {
    hide B64Field;
  }

  /**
   * A document with an out-of-range RSA entry reads as if the entry were not
   * there; it is rejected exactly when another entry is a hard error or none of
   * the others is usable.
   */
  lemma OutOfRangeEntryIsDropped(env: Env, doc: bytes, i: nat)
    requires JwksEntries(env, doc).Some? && i < |JwksEntries(env, doc).value|
    requires OutOfRange(JwksEntries(env, doc).value[i])
    ensures var rest := Without(JwksEntries(env, doc).value, i);
      && JwksKeys(env, doc) == NonEmpty(Collect(ReadAll(env, rest)))
      && (JwksKeys(env, doc).None? <==>
           || (exists e <- rest :: ReadEntry(env, e).Fail?)
           || (forall e <- rest :: !ReadEntry(env, e).Usable?))
  {
    hide OutOfRange, ReadEntry;
    var es := JwksEntries(env, doc).value;
    var ps, rest := ReadAll(env, es), Without(es, i);
    OutOfRangeSkips(env, es[i]);
    CollectWithout(ps, i);
    assert ReadAll(env, rest) == Without(ps, i);
    CollectEmptyIff(env, rest);
  }

  lemma CollectEmptyIff(env: Env, es: seq<Json>)
    ensures NonEmpty(Collect(ReadAll(env, es))).None? <==>
            || (exists e <- es :: ReadEntry(env, e).Fail?)
            || (forall e <- es :: !ReadEntry(env, e).Usable?)
  {
    hide ReadEntry;
    var ps := ReadAll(env, es);
    var from := CollectIsStableFilter(ps);
    if Collect(ps).None? {
      var i :| 0 <= i < |ps| && ps[i].Fail?;
      assert es[i] in es;
    } else {
      KeysComeFrom(ps);
      var keys := Collect(ps).value;
      if keys != [] {
        var i :| 0 <= i < |ps| && ps[i] == Usable(keys[0]);
        assert es[i] in es;
      }
      forall e | e in es
        ensures !ReadEntry(env, e).Fail?
        ensures ReadEntry(env, e).Usable? ==> keys != []
      {
        var i :| 0 <= i < |es| && es[i] == e;
        assert ps[i] == ReadEntry(env, e);
      }
    }
  }

  lemma {:induction false} FilterLength(from: seq<nat>, n: nat)
    requires forall j :: 0 <= j < |from| ==> from[j] < n
    requires forall i, j :: 0 <= i < j < |from| ==> from[i] < from[j]
    ensures |from| <= n
  {
    if from != [] {
      FilterLength(from[..|from| - 1], from[|from| - 1]);
    }
  }
}
