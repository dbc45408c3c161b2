/**
 * Document entries in full: which members matter, which entries are passed over,
 * and exactly when an entry is stored and when it rejects its document.
 */
module Entries {
  import opened Bytes
  import opened BigNum
  import opened Keys
  import opened Thumbprint
  import opened Jwks
  import Base64url
  import Bits

  // ---------------------------------------------------------------- which members matter

  predicate SameMember(jwk: Json, jwk': Json, name: string)
    requires jwk.Object? && jwk'.Object?
  {
    Member(jwk'.members, Ascii(name)) == Member(jwk.members, Ascii(name))
  }

  /** The two entries agree on every member that is read, use aside. */
  predicate SameMembers(jwk: Json, jwk': Json)
  {
    && jwk.Object? && jwk'.Object?
    && SameMember(jwk, jwk', "kty") && SameMember(jwk, jwk', "kid") && SameMember(jwk, jwk', "alg")
    && SameMember(jwk, jwk', "crv") && SameMember(jwk, jwk', "n") && SameMember(jwk, jwk', "e")
    && SameMember(jwk, jwk', "x") && SameMember(jwk, jwk', "y") && SameMember(jwk, jwk', "k")
  }

  predicate ForEncryption(jwk: Json)
    requires jwk.Object?
  {
    Member(jwk.members, Ascii("use")) == Some(String(Ascii("enc")))
  }

  lemma SameReads(jwk: Json, jwk': Json, name: string)
    requires jwk.Object? && jwk'.Object? && SameMember(jwk, jwk', name)
    ensures StringMember(jwk', name) == StringMember(jwk, name)
    ensures HasString(jwk', name) == HasString(jwk, name)
    ensures B64Field(jwk', name) == B64Field(jwk, name)
  {
    hide Ascii, Base64url.Decode, Member;
  }

  lemma SameParts(env: Env, kty: Kty, k: Key, jwk: Json, jwk': Json)
    requires SameMembers(jwk, jwk') && k.pkey.None?
    ensures WithMaterial(env, kty, k, jwk') == WithMaterial(env, kty, k, jwk)
  {
    hide Ascii, B64Field, SameMember, CurveByCrv, BitLength, ToNat, StringMember, HasString;
    SameReads(jwk, jwk', "n");
    SameReads(jwk, jwk', "e");
    SameReads(jwk, jwk', "x");
    SameReads(jwk, jwk', "y");
    SameReads(jwk, jwk', "k");
  }

  lemma SameLabels(jwk: Json, jwk': Json)
    requires SameMembers(jwk, jwk') && ForEncryption(jwk) == ForEncryption(jwk')
    ensures Unfit(jwk') == Unfit(jwk) && Labelled(jwk') == Labelled(jwk)
    ensures StringMember(jwk', "kty") == StringMember(jwk, "kty")
  {
    hide Ascii, B64Field, SameMember, StringMember, HasString, ForEncryption;
    SameReads(jwk, jwk', "kty");
    SameReads(jwk, jwk', "kid");
    SameReads(jwk, jwk', "alg");
    SameReads(jwk, jwk', "crv");
    EncRead(jwk);
    EncRead(jwk');
  }

  lemma EncIsNotEmpty()
    ensures Ascii("enc") != []
  {
  }

  lemma EncRead(jwk: Json)
    requires jwk.Object?
    ensures StringMember(jwk, "use") == Ascii("enc") <==> ForEncryption(jwk)
  {
    EncIsNotEmpty();
    hide Ascii, Member;
  }

  /** use matters only as "enc"; a member under any other name does not matter at all. */
  lemma OnlyTheseMembersMatter(env: Env, jwk: Json, jwk': Json)
    requires SameMembers(jwk, jwk') && ForEncryption(jwk) == ForEncryption(jwk')
    ensures ReadJwk(env, jwk') == ReadJwk(env, jwk)
  {
    hide Ascii, Unfit, WithMaterial, StringMember, ThumbprintOf, SameMember, ForEncryption, KtyNamed;
    SameLabels(jwk, jwk');
    SameParts(env, KtyNamed(env, StringMember(jwk, "kty")), Labelled(jwk), jwk, jwk');
  }

  predicate Lacks(members: seq<(bytes, Json)>, name: string)
  {
    Member(members, Ascii(name)).None?
  }

  /** Members under other names, and a use other than "enc", can be added to any entry. */
  lemma MoreMembers(env: Env, jwk: Json, more: seq<(bytes, Json)>)
    requires jwk.Object? && !ForEncryption(jwk)
    requires Lacks(more, "kty") && Lacks(more, "kid") && Lacks(more, "alg") && Lacks(more, "crv") && Lacks(more, "n")
    requires Lacks(more, "e") && Lacks(more, "x") && Lacks(more, "y") && Lacks(more, "k")
    requires Member(more, Ascii("use")) != Some(String(Ascii("enc")))
    ensures ReadJwk(env, Object(jwk.members + more)) == ReadJwk(env, jwk)
  {
    hide Ascii, Member, ReadJwk;
    var jwk' := Object(jwk.members + more);
    forall name: string
      ensures Member(jwk'.members, Ascii(name)) ==
              if Member(jwk.members, Ascii(name)).Some? then Member(jwk.members, Ascii(name))
              else Member(more, Ascii(name))
    {
      MemberAppend(jwk.members, more, Ascii(name));
    }
    OnlyTheseMembersMatter(env, jwk, jwk');
  }

  lemma {:induction false} MemberAppend(a: seq<(bytes, Json)>, b: seq<(bytes, Json)>, name: bytes)
    ensures Member(a + b, name) == if Member(a, name).Some? then Member(a, name) else Member(b, name)
  {
    if a == [] {
      assert a + b == b;
    } else {
      assert (a + b)[1..] == a[1..] + b;
      MemberAppend(a[1..], b, name);
    }
  }

  // ---------------------------------------------------------------- entries passed over

  predicate KnownType(hmac: bool, kty: Option<Json>)
  {
    kty.Some? && kty.value.String?
    && (|| kty.value.text == Ascii("RSA") || kty.value.text == Ascii("EC") || kty.value.text == Ascii("OKP")
        || (hmac && kty.value.text == Ascii("oct")))
  }

  /** No object, no known type, for encryption, or labelled with an empty kid. */
  predicate Foreign(hmac: bool, entry: Json)
  {
    || !entry.Object?
    || !KnownType(hmac, Member(entry.members, Ascii("kty")))
    || ForEncryption(entry)
    || Member(entry.members, Ascii("kid")) == Some(String([]))
  }

  /** Such an entry is passed over; any other reaches the part for its type. */
  lemma ForeignIff(env: Env, entry: Json)
    ensures Foreign(env.hmac, entry) <==>
            !entry.Object? || Unfit(entry) || KtyNamed(env, StringMember(entry, "kty")) == UNKNOWN
    ensures Foreign(env.hmac, entry) ==> ReadEntry(env, entry) == Skip
  {
    EncIsNotEmpty();
    hide Ascii, Member;
  }

  /** The entries that are not passed over. */
  function Native(hmac: bool, es: seq<Json>): seq<Json>
  {
    if es == [] then []
    else
      var front, last := Native(hmac, es[..|es| - 1]), es[|es| - 1];
      if Foreign(hmac, last) then front else front + [last]
  }

  /** A document reads as if its foreign entries were not there, wherever they stand. */
  lemma {:induction false} ForeignEntriesDoNotMatter(env: Env, es: seq<Json>)
    ensures Collect(ReadAll(env, Native(env.hmac, es))) == Collect(ReadAll(env, es))
  {
    hide ReadEntry, Foreign;
    if es != [] {
      var front, last := es[..|es| - 1], es[|es| - 1];
      ForeignEntriesDoNotMatter(env, front);
      ForeignIff(env, last);
      assert ReadAll(env, es)[..|es| - 1] == ReadAll(env, front);
      var n := Native(env.hmac, es);
      if !Foreign(env.hmac, last) {
        assert ReadAll(env, n)[..|n| - 1] == ReadAll(env, Native(env.hmac, front));
      }
    }
  }

  lemma {:induction false} AllNative(hmac: bool, es: seq<Json>)
    requires forall e <- es :: !Foreign(hmac, e)
    ensures Native(hmac, es) == es
  {
    hide Foreign;
    if es != [] {
      AllNative(hmac, es[..|es| - 1]);
      assert es == es[..|es| - 1] + [es[|es| - 1]];
    }
  }

  // ---------------------------------------------------------------- entries that count

  /** A field is found exactly when it is a non-empty string of base64url, with the octets that string spells. */
  lemma FieldIff(jwk: Json, name: string)
    requires jwk.Object?
    ensures var m, f := Member(jwk.members, Ascii(name)), B64Field(jwk, name);
      if m.None? || !m.value.String? || m.value.text == [] then f == Absent
      else if Base64url.Decode(m.value.text).None? then f == Broken
      else f == Found(Base64url.Decode(m.value.text).value)
  {
    hide Ascii, Member, Base64url.Decode;
  }

  predicate OfType(hmac: bool, jwk: Json, kty: string)
  {
    !Foreign(hmac, jwk) && Member(jwk.members, Ascii("kty")) == Some(String(Ascii(kty)))
  }

  /** 2048 to 16384 bits. */
  predicate SizeAllowed(n: nat)
  {
    Bits.Pow2(2047) <= n < Bits.Pow2(16384)
  }

  lemma SizeAllowedIff(n: nat)
    ensures InRange(n) <==> SizeAllowed(n)
  {
    hide Bits.Pow2, BitLength;
    BitLengthIff(n, 2047);
    BitLengthIff(n, 16384);
  }

  lemma TypeNames()
    ensures Ascii("RSA")[0] == 82 && Ascii("EC")[0] == 69 && Ascii("OKP")[0] == 79 && Ascii("oct")[0] == 111
  {
  }

  lemma TypeRead(env: Env, jwk: Json, kty: string)
    requires kty in {"RSA", "EC", "OKP", "oct"} && OfType(env.hmac, jwk, kty)
    ensures jwk.Object? && !Unfit(jwk)
    ensures KtyNamed(env, StringMember(jwk, "kty")) ==
            if kty == "RSA" then RSA else if kty == "EC" then EC else if kty == "OKP" then OKP else OCT
  {
    TypeNames();
    hide Ascii, Member;
    ForeignIff(env, jwk);
    assert StringMember(jwk, "kty") == Ascii(kty);
    assert KtyNamed(env, StringMember(jwk, "kty")) != UNKNOWN;
  }

  /** The labels an entry gives its key. */
  predicate LabelledBy(k: Key, jwk: Json)
    requires jwk.Object?
  {
    k.kid == StringMember(jwk, "kid") && k.alg == StringMember(jwk, "alg") && k.crv == StringMember(jwk, "crv")
  }

  /** What is left to do once the type is known. */
  lemma ReadTyped(env: Env, jwk: Json, kty: Kty)
    requires jwk.Object? && !Unfit(jwk) && KtyNamed(env, StringMember(jwk, "kty")) == kty
    ensures var p, r := WithMaterial(env, kty, Labelled(jwk), jwk), ReadJwk(env, jwk);
      && (r.Fail? <==> p.Fail?) && (r.Skip? <==> p.Skip?)
      && (r.Usable? ==> r.key == p.key.(thumbprint := ThumbprintOf(env, p.key)))
  {
    hide Ascii, Unfit, WithMaterial, ThumbprintOf, StringMember, KtyNamed;
  }

  /**
   * An RSA entry is stored exactly when n and e are found, n has 2048 to 16384
   * bits and the library builds the key; it rejects its document exactly when n is
   * no base64url, or e is after a sound n, or the library fails on a key in range.
   */
  lemma RsaEntryIff(env: Env, jwk: Json)
    requires OfType(env.hmac, jwk, "RSA")
    ensures var n, e, r := B64Field(jwk, "n"), B64Field(jwk, "e"), ReadJwk(env, jwk);
      && (r.Usable? <==> && n.Found? && e.Found? && SizeAllowed(ToNat(n.value))
                         && env.buildRsa(ToNat(n.value), ToNat(e.value)))
      && (r.Usable? ==> r.key.kty == RSA && LabelledBy(r.key, jwk)
                        && r.key.pkey == Some(RsaKey(Plain, ToNat(n.value), ToNat(e.value))))
      && (r.Fail? <==> || n.Broken? || (n.Found? && e.Broken?)
                       || (n.Found? && e.Found? && SizeAllowed(ToNat(n.value))
                           && !env.buildRsa(ToNat(n.value), ToNat(e.value))))
  {
    hide Ascii, Unfit, B64Field, ThumbprintOf, SizeAllowed, BitLength, ToNat, StringMember, KtyNamed, OfType, ReadJwk;
    TypeRead(env, jwk, "RSA");
    ReadTyped(env, jwk, RSA);
    if B64Field(jwk, "n").Found? {
      SizeAllowedIff(ToNat(B64Field(jwk, "n").value));
    }
  }

  /** Section 6.2.1.1 of RFC 7518 and RFC 8812: OpenSSL's name and the octets of a coordinate. */
  function EcCurve(crv: bytes): Option<(string, nat)>
  {
    if crv == Ascii("P-256") then Some(("prime256v1", 32))
    else if crv == Ascii("P-384") then Some(("secp384r1", 48))
    else if crv == Ascii("P-521") then Some(("secp521r1", 66))
    else if crv == Ascii("secp256k1") then Some(("secp256k1", 32))
    else None
  }

  /** RFC 8037. */
  function OkpCurve(crv: bytes): Option<(string, nat)>
  {
    if crv == Ascii("Ed25519") then Some(("Ed25519", 32))
    else if crv == Ascii("Ed448") then Some(("Ed448", 57))
    else None
  }

  lemma CurvesIff(crv: bytes)
    ensures var c := CurveByCrv(EC_CURVES, crv);
      EcCurve(crv) == if c.None? then None else Some((c.value.group, c.value.coordLen))
    ensures var c := CurveByCrv(OKP_CURVES, crv);
      OkpCurve(crv) == if c.None? then None else Some((c.value.group, c.value.coordLen))
    ensures EcCurve(crv).Some? || OkpCurve(crv).Some? ==> crv != []
  {
    CurveNames();
    hide Ascii;
    assert EC_CURVES[1..][0] == EC_CURVES[1] && EC_CURVES[1..][1..][0] == EC_CURVES[2];
    assert EC_CURVES[1..][1..][1..][0] == EC_CURVES[3] && EC_CURVES[1..][1..][1..][1..] == [];
    assert OKP_CURVES[1..][0] == OKP_CURVES[1] && OKP_CURVES[1..][1..] == [];
  }

  lemma CurveNames()
    ensures Ascii("P-256") != [] && Ascii("P-384") != [] && Ascii("P-521") != [] && Ascii("secp256k1") != []
    ensures Ascii("Ed25519") != [] && Ascii("Ed448") != []
  {
  }

  /**
   * An EC entry is stored exactly when its curve is known, x and y have the curve's
   * width and the library builds the point; a coordinate that is no base64url, or a
   * point the library refuses, rejects the document.
   */
  lemma EcEntryIff(env: Env, jwk: Json)
    requires OfType(env.hmac, jwk, "EC")
    ensures var c, r := EcCurve(StringMember(jwk, "crv")), ReadJwk(env, jwk);
      var x, y := B64Field(jwk, "x"), B64Field(jwk, "y");
      if c.None? then r == Skip
      else
        var fits := c.Some? && x.Found? && |x.value| == c.value.1 && y.Found? && |y.value| == c.value.1;
        && (r.Usable? <==> fits && env.buildEc(c.value.0, ToNat(x.value), ToNat(y.value)))
        && (r.Usable? ==> r.key.kty == EC && LabelledBy(r.key, jwk)
                          && r.key.pkey == Some(EcKey(c.value.0, ToNat(x.value), ToNat(y.value))))
        && (r.Fail? <==> || x.Broken? || (x.Found? && |x.value| == c.value.1 && y.Broken?)
                         || (fits && !env.buildEc(c.value.0, ToNat(x.value), ToNat(y.value))))
  {
    hide Ascii, Unfit, B64Field, ThumbprintOf, ToNat, StringMember, KtyNamed, OfType, ReadJwk, EcCurve, CurveByCrv;
    TypeRead(env, jwk, "EC");
    ReadTyped(env, jwk, EC);
    CurvesIff(StringMember(jwk, "crv"));
  }

  /** The same for an OKP entry, whose x is the public key itself. */
  lemma OkpEntryIff(env: Env, jwk: Json)
    requires OfType(env.hmac, jwk, "OKP")
    ensures var c, r, x := OkpCurve(StringMember(jwk, "crv")), ReadJwk(env, jwk), B64Field(jwk, "x");
      if c.None? then r == Skip
      else
        var fits := x.Found? && |x.value| == c.value.1;
        && (r.Usable? <==> fits && env.buildOkp(c.value.0, x.value))
        && (r.Usable? ==> r.key.kty == OKP && LabelledBy(r.key, jwk)
                          && r.key.pkey == Some(OkpKey(c.value.0, x.value)))
        && (r.Fail? <==> x.Broken? || (fits && !env.buildOkp(c.value.0, x.value)))
  {
    hide Ascii, Unfit, B64Field, ThumbprintOf, StringMember, KtyNamed, OfType, ReadJwk, OkpCurve, CurveByCrv;
    TypeRead(env, jwk, "OKP");
    ReadTyped(env, jwk, OKP);
    CurvesIff(StringMember(jwk, "crv"));
  }

  /** A secret is stored exactly when it is spelled and not empty; it rejects the document when it is no base64url. */
  lemma OctEntryIff(env: Env, jwk: Json)
    requires OfType(env.hmac, jwk, "oct")
    ensures var k, r := B64Field(jwk, "k"), ReadJwk(env, jwk);
      && (r.Usable? <==> k.Found? && k.value != [])
      && (r.Usable? ==> r.key.kty == OCT && r.key.secret == k.value && LabelledBy(r.key, jwk))
      && (r.Fail? <==> k.Broken?)
  {
    hide Ascii, Unfit, B64Field, ThumbprintOf, StringMember, KtyNamed, OfType, ReadJwk;
    TypeRead(env, jwk, "oct");
    ReadTyped(env, jwk, OCT);
  }

  /** A keyval member is stored exactly when a named text loads as RSA, on one of four EC curves, or as Ed25519 or Ed448. */
  lemma PemEntryIff(env: Env, name: bytes, value: Json)
    ensures ReadPem(env, (name, value)).Usable? <==>
            && name != [] && value.String? && value.text != []
            && match env.loadPublic(value.text) {
                 case Some(RsaKey(_, _, _)) => true
                 case Some(EcKey(group, _, _)) => group in {"prime256v1", "secp384r1", "secp521r1", "secp256k1"}
                 case Some(OkpKey(curve, _)) => curve in {"Ed25519", "Ed448"}
                 case _ => false
               }
    ensures !ReadPem(env, (name, value)).Fail?
  {
    hide ThumbprintOf, Ascii;
    GroupsIff();
  }

  lemma GroupsIff()
    ensures forall g: string ::
              CurveByGroup(EC_CURVES, g).Some? <==> g in {"prime256v1", "secp384r1", "secp521r1", "secp256k1"}
    ensures forall g: string :: CurveByGroup(OKP_CURVES, g).Some? <==> g in {"Ed25519", "Ed448"}
  {
    assert EC_CURVES[1..][0] == EC_CURVES[1] && EC_CURVES[1..][1..][0] == EC_CURVES[2];
    assert EC_CURVES[1..][1..][1..][0] == EC_CURVES[3] && EC_CURVES[1..][1..][1..][1..] == [];
    assert OKP_CURVES[1..][0] == OKP_CURVES[1] && OKP_CURVES[1..][1..] == [];
  }

  // ---------------------------------------------------------------- documents

  /** The text is a JSON object of at most 262144 octets whose keys member is an array of at most 64 entries. */
  predicate ListsEntries(env: Env, doc: bytes, es: seq<Json>)
  {
    && 0 < |doc| <= 262144 && |es| <= 64
    && env.parse(doc).Some? && env.parse(doc).value.Object?
    && Member(env.parse(doc).value.members, Ascii("keys")) == Some(Array(es))
  }

  /** A JWKS document is accepted exactly when it lists entries, none is a hard error and one is usable. */
  lemma JwksIff(env: Env, doc: bytes)
    ensures JwksKeys(env, doc).Some? <==>
            exists es :: ListsEntries(env, doc, es) && (forall e <- es :: !ReadEntry(env, e).Fail?)
                         && (exists e <- es :: ReadEntry(env, e).Usable?)
    ensures JwksKeys(env, doc).Some? ==>
            forall es :: ListsEntries(env, doc, es) ==>
              exists from :: StableFilter(ReadAll(env, es), JwksKeys(env, doc).value, from)
  {
    hide Ascii, Member, ReadEntry;
    if JwksEntries(env, doc).Some? {
      var es := JwksEntries(env, doc).value;
      assert ListsEntries(env, doc, es);
      CollectEmptyIff(env, es);
      var from := CollectIsStableFilter(ReadAll(env, es));
    }
  }

  /** A keyval document is accepted exactly when it has 1 to 64 members and one of them is usable. */
  lemma KeyvalIff(env: Env, doc: bytes)
    ensures KeyvalKeys(env, doc).Some? <==>
            && 0 < |doc| <= 262144 && env.parse(doc).Some? && env.parse(doc).value.Object?
            && 0 < |env.parse(doc).value.members| <= 64
            && exists e <- env.parse(doc).value.members :: ReadPem(env, e).Usable?
    ensures KeyvalKeys(env, doc).Some? ==>
              var es := env.parse(doc).value.members;
              exists from :: StableFilter(ReadAllPem(env, es), KeyvalKeys(env, doc).value, from)
  {
    hide ReadPem;
    if KeyvalEntries(env, doc).Some? {
      var es := KeyvalEntries(env, doc).value;
      var ps := ReadAllPem(env, es);
      forall i | 0 <= i < |ps| ensures !ps[i].Fail? {
        PemEntryIff(env, es[i].0, es[i].1);
      }
      var from := CollectIsStableFilter(ps);
      KeysComeFrom(ps);
      if e :| e in es && ReadPem(env, e).Usable? {
        var i :| 0 <= i < |es| && es[i] == e;
        assert Usable(ps[i].key) in ps;
      }
      if Collect(ps).value != [] {
        var i :| 0 <= i < |ps| && ps[i] == Usable(Collect(ps).value[0]);
        assert es[i] in es;
      }
    }
  }
}
