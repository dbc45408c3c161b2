/**
 * A reference writer for compact JSON objects of strings, and the texts the code
 * splices together by hand measured against it.
 */
module CompactJson {
  import opened Bytes
  import opened Keys
  import opened Thumbprint
  import Base64url

  const COLON: byte := 58
  const COMMA: byte := 44

  /** A member whose name and value need no escaping. */
  datatype Member = Member(name: bytes, value: bytes)

  function Quoted(s: bytes): bytes
  {
    [QUOTE] + s + [QUOTE]
  }

  function Members(ms: seq<Member>): bytes
  {
    if ms == [] then []
    else
      var first := Quoted(ms[0].name) + [COLON] + Quoted(ms[0].value);
      if |ms| == 1 then first else first + [COMMA] + Members(ms[1..])
  }

  /** No whitespace, members in the given order. */
  function Object(ms: seq<Member>): bytes
  {
    [123] + Members(ms) + [125]
  }

  /** Lexicographic order of octets. */
  predicate Before(a: bytes, b: bytes)
  {
    b != [] && (a == [] || a[0] < b[0] || (a[0] == b[0] && Before(a[1..], b[1..])))
  }

  predicate Sorted(ms: seq<Member>)
  {
    forall i, j :: 0 <= i < j < |ms| ==> Before(ms[i].name, ms[j].name)
  }

  lemma MembersOne(a: Member)
    ensures Members([a]) == Quoted(a.name) + [COLON] + Quoted(a.value)
  {
  }

  lemma MembersMore(a: Member, ms: seq<Member>)
    requires ms != []
    ensures Members([a] + ms) == Quoted(a.name) + [COLON] + Quoted(a.value) + [COMMA] + Members(ms)
  {
    assert ([a] + ms)[1..] == ms;
  }

  function RsaMembers(e: bytes, n: bytes): seq<Member>
  {
    [Member(Ascii("e"), e)] + ([Member(Ascii("kty"), Ascii("RSA"))] + [Member(Ascii("n"), n)])
  }

  function EcMembers(crv: bytes, x: bytes, y: bytes): seq<Member>
  {
    [Member(Ascii("crv"), crv)]
    + ([Member(Ascii("kty"), Ascii("EC"))] + ([Member(Ascii("x"), x)] + [Member(Ascii("y"), y)]))
  }

  function OkpMembers(crv: bytes, x: bytes): seq<Member>
  {
    [Member(Ascii("crv"), crv)] + ([Member(Ascii("kty"), Ascii("OKP"))] + [Member(Ascii("x"), x)])
  }

  function OctMembers(k: bytes): seq<Member>
  {
    [Member(Ascii("k"), k)] + [Member(Ascii("kty"), Ascii("oct"))]
  }

  /** The literals of the writers, cut at their quotes. */
  lemma Openers()
    ensures Ascii("{\"e\":\"") == [123] + Quoted(Ascii("e")) + [COLON] + [QUOTE]
    ensures Ascii("{\"k\":\"") == [123] + Quoted(Ascii("k")) + [COLON] + [QUOTE]
    ensures Ascii("{\"crv\":\"") == [123] + Quoted(Ascii("crv")) + [COLON] + [QUOTE]
    ensures Ascii("\"}") == [QUOTE] + [125]
  {
  }

  lemma MidRsa()
    ensures Ascii("\",\"kty\":\"RSA\",\"n\":\"") ==
            [QUOTE] + [COMMA] + (Quoted(Ascii("kty")) + [COLON] + Quoted(Ascii("RSA")))
            + [COMMA] + Quoted(Ascii("n")) + [COLON] + [QUOTE]
  {
  }

  lemma MidEc()
    ensures Ascii("\",\"kty\":\"EC\",\"x\":\"") ==
            [QUOTE] + [COMMA] + (Quoted(Ascii("kty")) + [COLON] + Quoted(Ascii("EC")))
            + [COMMA] + Quoted(Ascii("x")) + [COLON] + [QUOTE]
    ensures Ascii("\",\"y\":\"") == Separator(Ascii("y"))
  {
  }

  lemma MidOkp()
    ensures Ascii("\",\"kty\":\"OKP\",\"x\":\"") ==
            [QUOTE] + [COMMA] + (Quoted(Ascii("kty")) + [COLON] + Quoted(Ascii("OKP")))
            + [COMMA] + Quoted(Ascii("x")) + [COLON] + [QUOTE]
  {
  }

  lemma EndOct()
    ensures Ascii("\",\"kty\":\"oct\"}") ==
            [QUOTE] + [COMMA] + (Quoted(Ascii("kty")) + [COLON] + Quoted(Ascii("oct"))) + [125]
  {
  }

  /** What stands before, between and after the values of an object with a fixed second member. */
  function Opening(name: bytes): bytes
  {
    [123] + Quoted(name) + [COLON] + [QUOTE]
  }

  function Between(b: Member, name: bytes): bytes
  {
    [QUOTE] + [COMMA] + (Quoted(b.name) + [COLON] + Quoted(b.value)) + [COMMA] + Quoted(name) + [COLON] + [QUOTE]
  }

  lemma ThreeMembers(a: Member, b: Member, c: Member)
    ensures Object([a] + ([b] + [c])) ==
            Opening(a.name) + a.value + Between(b, c.name) + c.value + ([QUOTE] + [125])
  {
    hide Members;
    MembersOne(c);
    MembersMore(b, [c]);
    MembersMore(a, [b] + [c]);
  }

  function Separator(name: bytes): bytes
  {
    [QUOTE] + [COMMA] + Quoted(name) + [COLON] + [QUOTE]
  }

  lemma TwoMembers(c: Member, d: Member)
    ensures Members([c] + [d]) ==
            Quoted(c.name) + [COLON] + [QUOTE] + (c.value + Separator(d.name) + d.value + [QUOTE])
  {
    hide Members;
    MembersOne(d);
    MembersMore(c, [d]);
  }

  lemma FourMembers(a: Member, b: Member, c: Member, d: Member)
    ensures Object([a] + ([b] + ([c] + [d]))) ==
            Opening(a.name) + a.value + Between(b, c.name) + c.value + Separator(d.name) + d.value + ([QUOTE] + [125])
  {
    hide Members, Separator;
    TwoMembers(c, d);
    MembersMore(b, [c] + [d]);
    MembersMore(a, [b] + ([c] + [d]));
  }

  /** Each canonical text is the compact object of exactly the required members. */
  lemma RsaIsCanonical(e: bytes, n: bytes)
    ensures RsaJson(e, n) == Object(RsaMembers(e, n))
  {
    hide Ascii, Object, Quoted;
    Openers();
    MidRsa();
    ThreeMembers(Member(Ascii("e"), e), Member(Ascii("kty"), Ascii("RSA")), Member(Ascii("n"), n));
  }

  lemma EcIsCanonical(crv: bytes, x: bytes, y: bytes)
    ensures EcJson(crv, x, y) == Object(EcMembers(crv, x, y))
  {
    hide Ascii, Object, Quoted;
    Openers();
    MidEc();
    FourMembers(Member(Ascii("crv"), crv), Member(Ascii("kty"), Ascii("EC")),
        Member(Ascii("x"), x), Member(Ascii("y"), y));
  }

  lemma OkpIsCanonical(crv: bytes, x: bytes)
    ensures OkpJson(crv, x) == Object(OkpMembers(crv, x))
  {
    hide Ascii, Object, Quoted;
    Openers();
    MidOkp();
    ThreeMembers(Member(Ascii("crv"), crv), Member(Ascii("kty"), Ascii("OKP")), Member(Ascii("x"), x));
  }

  lemma OctIsCanonical(k: bytes)
    ensures OctJson(k) == Object(OctMembers(k))
  {
    hide Ascii, Members;
    Openers();
    EndOct();
    var last := Member(Ascii("kty"), Ascii("oct"));
    MembersOne(last);
    MembersMore(Member(Ascii("k"), k), [last]);
  }

  /** The member names stand in lexicographic order. */
  lemma NamesInOrder(crv: bytes, a: bytes, b: bytes)
    ensures Sorted(RsaMembers(a, b)) && Sorted(EcMembers(crv, a, b))
    ensures Sorted(OkpMembers(crv, a)) && Sorted(OctMembers(a))
  {
    assert Ascii("e")[0] == 101 && Ascii("n")[0] == 110 && Ascii("crv")[0] == 99
           && Ascii("x")[0] == 120 && Ascii("y")[0] == 121;
    assert Ascii("kty")[0] == 107 && Ascii("k")[0] == 107 && Ascii("k")[1..] == [] && Ascii("kty")[1..] != [];
  }

  /** RFC 7638 section 3.2: the members a key's thumbprint is taken over. */
  function MembersOf(k: Key): seq<Member>
    requires WellTyped(k) && CanonicalJson(k).Some?
  {
    match k.kty
    case RSA => RsaMembers(BnToB64url(k.pkey.value.e, 0).value, BnToB64url(k.pkey.value.n, 0).value)
    case EC =>
      var w := CoordLen(k.pkey.value.group);
      EcMembers(k.crv, BnToB64url(k.pkey.value.x, w).value, BnToB64url(k.pkey.value.y, w).value)
    case OKP => OkpMembers(k.crv, Base64url.Encode(k.pkey.value.raw))
    case OCT => OctMembers(Base64url.Encode(k.secret))
  }

  /** RFC 7638 section 3.3: exactly the required members, in lexicographic order, without whitespace. */
  lemma CanonicalJsonIsCanonical(k: Key)
    requires WellTyped(k) && CanonicalJson(k).Some?
    ensures CanonicalJson(k).value == Object(MembersOf(k)) && Sorted(MembersOf(k))
  {
    hide Object, RsaMembers, EcMembers, OkpMembers, OctMembers, RsaJson, EcJson, OkpJson, OctJson,
         BnToB64url, Base64url.Encode, CoordLen, Sorted, Ascii;
    match k.kty
    case RSA =>
      var e, n := BnToB64url(k.pkey.value.e, 0).value, BnToB64url(k.pkey.value.n, 0).value;
      RsaIsCanonical(e, n);
      NamesInOrder([], e, n);
    case EC =>
      var w := CoordLen(k.pkey.value.group);
      var x, y := BnToB64url(k.pkey.value.x, w).value, BnToB64url(k.pkey.value.y, w).value;
      EcIsCanonical(k.crv, x, y);
      NamesInOrder(k.crv, x, y);
    case OKP =>
      OkpIsCanonical(k.crv, Base64url.Encode(k.pkey.value.raw));
      NamesInOrder(k.crv, Base64url.Encode(k.pkey.value.raw), []);
    case OCT =>
      OctIsCanonical(Base64url.Encode(k.secret));
      NamesInOrder([], Base64url.Encode(k.secret), []);
  }

  lemma HeaderLiterals()
    ensures Ascii("{\"alg\":\"") == Opening(Ascii("alg"))
    ensures Ascii("\",\"typ\":\"JWT\"") ==
            [QUOTE] + ([COMMA] + (Quoted(Ascii("typ")) + [COLON] + Quoted(Ascii("JWT"))))
    ensures Ascii(",\"kid\":") == [COMMA] + Quoted(Ascii("kid")) + [COLON]
    ensures Ascii("}") == [125]
  {
  }

  /** The header without a kid is the compact object of alg and typ. */
  lemma HeaderIsCompact(alg: string)
    ensures HeaderJson(alg, None) ==
            Object([Member(Ascii("alg"), Ascii(alg))] + [Member(Ascii("typ"), Ascii("JWT"))])
  {
    hide Ascii, Members;
    HeaderLiterals();
    var a, t := Member(Ascii("alg"), Ascii(alg)), Member(Ascii("typ"), Ascii("JWT"));
    MembersOne(t);
    MembersMore(a, [t]);
  }

  /** A kid, quoted, becomes one more member and nothing else. */
  lemma HeaderWithKidIsCompact(alg: string, kid: bytes)
    ensures HeaderJson(alg, Some(Quoted(kid))) ==
            Object([Member(Ascii("alg"), Ascii(alg))]
                   + ([Member(Ascii("typ"), Ascii("JWT"))] + [Member(Ascii("kid"), kid)]))
  {
    hide Ascii, Members, Quoted;
    HeaderLiterals();
    var a, t, k := Member(Ascii("alg"), Ascii(alg)), Member(Ascii("typ"), Ascii("JWT")), Member(Ascii("kid"), kid);
    MembersOne(k);
    MembersMore(t, [k]);
    MembersMore(a, [t] + [k]);
    OpeningQuoted(Ascii("alg"), Ascii(alg),
                  [COMMA] + (Quoted(Ascii("typ")) + [COLON] + Quoted(Ascii("JWT"))));
  }

  lemma OpeningQuoted(name: bytes, value: bytes, rest: bytes)
    ensures Opening(name) + value + ([QUOTE] + rest) == [123] + (Quoted(name) + [COLON] + Quoted(value)) + rest
  {
  }

  /** A member whose value is a string needing no escaping. */
  function Pair(name: string, value: bytes): bytes
  {
    Quoted(Ascii(name)) + [COLON] + Quoted(value)
  }

  /** The object {"alg":..,"typ":"JWT"}, with the kid as the JSON library quoted it for a third value. */
  function HeaderText(alg: bytes, quotedKid: Option<bytes>): bytes
  {
    [123] + Pair("alg", alg) + [COMMA] + Pair("typ", Ascii("JWT"))
    + (if quotedKid.None? then [] else [COMMA] + Quoted(Ascii("kid")) + [COLON] + quotedKid.value)
    + [125]
  }

  lemma HeaderJsonIsText(alg: string, quotedKid: Option<bytes>)
    ensures HeaderJson(alg, quotedKid) == HeaderText(Ascii(alg), quotedKid)
  {
    hide Ascii, Quoted;
    HeaderLiterals();
    OpeningQuoted(Ascii("alg"), Ascii(alg), [COMMA] + (Quoted(Ascii("typ")) + [COLON] + Quoted(Ascii("JWT"))));
  }

  /** What is signed as the header: no kid member without a kid, else the quoted kid and never the bare one. */
  lemma HeaderForIsText(env: Env, alg: string, kid: bytes)
    ensures kid == [] ==> HeaderFor(env, alg, kid) == Some(HeaderText(Ascii(alg), None))
    ensures kid != [] && env.quote(kid).None? ==> HeaderFor(env, alg, kid) == None
    ensures kid != [] && env.quote(kid).Some? ==>
              HeaderFor(env, alg, kid) == Some(HeaderText(Ascii(alg), env.quote(kid)))
  {
    hide HeaderText, Ascii;
    HeaderJsonIsText(alg, if kid == [] then None else env.quote(kid));
  }

  /** Where the quoted kid is a string v in quotes, the header is the compact object of alg, typ and kid = v. */
  lemma HeaderForIsCompact(env: Env, alg: string, kid: bytes, v: bytes)
    requires kid != [] && env.quote(kid) == Some(Quoted(v))
    ensures HeaderFor(env, alg, kid) ==
            Some(Object([Member(Ascii("alg"), Ascii(alg))]
                        + ([Member(Ascii("typ"), Ascii("JWT"))] + [Member(Ascii("kid"), v)])))
  {
    hide HeaderJson, Object, Ascii, Quoted;
    HeaderWithKidIsCompact(alg, v);
  }
}
