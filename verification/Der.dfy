/**
 * DER of SEQUENCE { INTEGER r, INTEGER s } with non-negative integers, after
 * sections 8.1.3 (length octets) and 8.3 (integers) of X.690: the stand-in for
 * i2d_ECDSA_SIG and d2i_ECDSA_SIG.
 */
module Der {
  import opened Bytes
  import opened BigNum

  const INTEGER: byte := 0x02
  const SEQUENCE: byte := 0x30

  // ---------------------------------------------------------------- writing

  /** Short form below 128, else the count of length octets and the length in the fewest octets. */
  function LengthOctets(n: nat): Option<bytes>
  {
    if n < 128 then Some([n])
    else
      var m := Minimal(n);
      if |m| <= 126 then Some([128 + |m|] + m) else None
  }

  function Tlv(tag: byte, content: bytes): Option<bytes>
  {
    var l := LengthOctets(|content|);
    if l.Some? then Some([tag] + l.value + content) else None
  }

  /** Fewest octets, with a zero octet in front when the top bit would read as a sign. */
  function IntegerContent(n: nat): (c: bytes)
  {
    var m := Minimal(n);
    if m == [] then [0] else if m[0] >= 128 then [0] + m else m
  }

  /** i2d_ECDSA_SIG. */
  function EncodeSig(r: nat, s: nat): Option<bytes>
  {
    var a, b := Tlv(INTEGER, IntegerContent(r)), Tlv(INTEGER, IntegerContent(s));
    if a.Some? && b.Some? then Tlv(SEQUENCE, a.value + b.value) else None
  }

  // ---------------------------------------------------------------- reading

  datatype Read = Read(content: bytes, rest: bytes)

  /** The length and the number of octets it takes; indefinite and reserved forms are refused. */
  function ReadLength(d: bytes): (r: Option<(nat, nat)>)
    ensures r.Some? ==> 0 < r.value.1 <= |d|
  {
    if d == [] then None
    else if d[0] < 128 then Some((d[0], 1))
    else if d[0] == 128 || d[0] == 255 || |d| <= d[0] - 128 then None
    else Some((ToNat(d[1..d[0] - 127]), d[0] - 127))
  }

  function ReadTlv(tag: byte, d: bytes): (r: Option<Read>)
    ensures r.Some? ==> d != [] && ReadLength(d[1..]).Some?
  {
    if d == [] || d[0] != tag then None
    else
      var l := ReadLength(d[1..]);
      if l.None? then None
      else
        var (n, k) := l.value;
        if |d| - 1 - k < n then None else Some(Read(d[1 + k..1 + k + n], d[1 + k + n..]))
  }

  /** Non-negative and in the fewest octets. */
  predicate ValidInteger(c: bytes)
  {
    c != [] && c[0] < 128 && (|c| > 1 && c[0] == 0 ==> c[1] >= 128)
  }

  function ReadInteger(d: bytes): (r: Option<Read>)
    ensures r.Some? ==> ReadTlv(INTEGER, d).Some?
  {
    var t := ReadTlv(INTEGER, d);
    if t.Some? && ValidInteger(t.value.content) then t else None
  }

  datatype Parts = Parts(body: bytes, trailing: bytes, first: bytes, second: bytes, tail: bytes)

  /** The outer sequence, its two integers and what is left over. */
  function Parse(d: bytes): (p: Option<Parts>)
  {
    var seq0 := ReadTlv(SEQUENCE, d);
    if seq0.None? then None
    else
      var r := ReadInteger(seq0.value.content);
      if r.None? then None
      else
        var s := ReadInteger(r.value.rest);
        if s.None? || s.value.rest != [] then None
        else Some(Parts(seq0.value.content, seq0.value.rest, r.value.content, s.value.content, r.value.rest))
  }

  /** d2i_ECDSA_SIG: octets after the sequence are not read. */
  function DecodeSig(d: bytes): Option<(nat, nat)>
  {
    var p := Parse(d);
    if p.None? then None else Some((ToNat(p.value.first), ToNat(p.value.second)))
  }

  /** The length octets at the start of d are the fewest possible. */
  predicate ShortestLength(d: bytes)
    requires ReadLength(d).Some?
  {
    d[0] < 128 || (d[1] != 0 && ReadLength(d).value.0 >= 128)
  }

  /** All three lengths are shortest and nothing follows the sequence. */
  predicate Canonical(d: bytes)
    requires Parse(d).Some?
  {
    var p := Parse(d).value;
    && ShortestLength(d[1..]) && p.trailing == []
    && ShortestLength(p.body[1..]) && ShortestLength(p.tail[1..])
  }

  // ---------------------------------------------------------------- round trips

  lemma LengthRoundTrip(n: nat, rest: bytes)
    requires LengthOctets(n).Some?
    ensures var l := LengthOctets(n).value;
      ReadLength(l + rest) == Some((n, |l|)) && ShortestLength(l + rest)
  {
    if n >= 128 {
      var l, m := LengthOctets(n).value, Minimal(n);
      NatOfMinimal(n);
      assert (l + rest)[1..1 + |m|] == m;
    }
  }

  lemma ShortestIsLengthOctets(d: bytes)
    requires ReadLength(d).Some?
    ensures ShortestLength(d) ==>
      var (n, k) := ReadLength(d).value; LengthOctets(n) == Some(d[..k])
  {
    assert d[..1] == [d[0]];
    if d[0] >= 128 && ShortestLength(d) {
      MinimalOfNat(d[1..d[0] - 127]);
      assert d[..d[0] - 127] == [d[0]] + d[1..d[0] - 127];
    }
  }

  lemma TlvRoundTrip(tag: byte, c: bytes, rest: bytes)
    requires Tlv(tag, c).Some?
    ensures ReadTlv(tag, Tlv(tag, c).value + rest) == Some(Read(c, rest))
    ensures ShortestLength((Tlv(tag, c).value + rest)[1..])
  {
    hide ReadLength, ShortestLength, LengthOctets;
    var l := LengthOctets(|c|).value;
    var d := Tlv(tag, c).value + rest;
    LengthRoundTrip(|c|, c + rest);
    assert d[1..] == l + (c + rest);
    var k := |l|;
    assert d[1 + k..1 + k + |c|] == c && d[1 + k + |c|..] == rest;
  }

  /** A value with the shortest length octets is the one the writer makes. */
  lemma TlvShortest(tag: byte, d: bytes)
    requires ReadTlv(tag, d).Some? && ShortestLength(d[1..])
    ensures var t := ReadTlv(tag, d).value;
      Tlv(tag, t.content).Some? && d == Tlv(tag, t.content).value + t.rest
  {
    hide ShortestLength, LengthOctets;
    var t := ReadTlv(tag, d).value;
    ShortestIsLengthOctets(d[1..]);
    var (n, k) := ReadLength(d[1..]).value;
    assert d == [d[0]] + d[1..][..k] + d[1 + k..1 + k + n] + d[1 + k + n..];
  }

  lemma IntegerRoundTrip(n: nat)
    ensures ValidInteger(IntegerContent(n)) && ToNat(IntegerContent(n)) == n
  {
    NatOfMinimal(n);
    LeadingZeros(1, Minimal(n));
    assert ZeroOctets(1) == [0];
  }

  lemma ValidIntegerIsContent(c: bytes)
    requires ValidInteger(c)
    ensures IntegerContent(ToNat(c)) == c
  {
    if c[0] == 0 {
      assert ZeroOctets(1) + c[1..] == c;
      LeadingZeros(1, c[1..]);
      MinimalOfNat(c[1..]);
    } else {
      MinimalOfNat(c);
    }
  }

  /** Reading what was written gives the two integers back, whatever follows. */
  lemma SigRoundTrip(r: nat, s: nat, trailing: bytes)
    requires EncodeSig(r, s).Some?
    ensures DecodeSig(EncodeSig(r, s).value + trailing) == Some((r, s))
    ensures Parse(EncodeSig(r, s).value).Some? && Canonical(EncodeSig(r, s).value)
  {
    hide ReadTlv, Tlv, ShortestLength, IntegerContent, ValidInteger, ReadLength;
    var a := Tlv(INTEGER, IntegerContent(r)).value;
    var b := Tlv(INTEGER, IntegerContent(s)).value;
    var d := EncodeSig(r, s).value;
    TlvRoundTrip(SEQUENCE, a + b, trailing);
    TlvRoundTrip(SEQUENCE, a + b, []);
    TlvRoundTrip(INTEGER, IntegerContent(r), b);
    TlvRoundTrip(INTEGER, IntegerContent(s), []);
    IntegerRoundTrip(r);
    IntegerRoundTrip(s);
    assert d + [] == d && b + [] == b;
  }

  /** Writing what was read gives the input back exactly when the input is canonical. */
  lemma ReencodeIffCanonical(d: bytes)
    requires Parse(d).Some?
    ensures var (r, s) := DecodeSig(d).value; EncodeSig(r, s) == Some(d) <==> Canonical(d)
  {
    hide ReadTlv, Tlv, ShortestLength, IntegerContent, ValidInteger, ReadLength;
    var p := Parse(d).value;
    var (r, s) := DecodeSig(d).value;
    ValidIntegerIsContent(p.first);
    ValidIntegerIsContent(p.second);
    if Canonical(d) {
      TlvShortest(SEQUENCE, d);
      TlvShortest(INTEGER, p.body);
      TlvShortest(INTEGER, p.tail);
      assert d == Tlv(SEQUENCE, p.body).value;
      assert p.tail == Tlv(INTEGER, p.second).value;
    }
    if EncodeSig(r, s) == Some(d) {
      SigRoundTrip(r, s, []);
    }
  }

  // ---------------------------------------------------------------- the octets themselves

  /** Section 8.3 of X.690 for a non-negative integer: the fewest octets whose top bit is no sign. */
  predicate MinimalInteger(a: bytes)
  {
    a != [] && a[0] < 128 && (|a| > 1 && a[0] == 0 ==> a[1] >= 128)
  }

  lemma MinimalContent(a: bytes)
    requires MinimalInteger(a)
    ensures IntegerContent(ToNat(a)) == a
  {
    ValidIntegerIsContent(a);
  }

  lemma ShortTlv(tag: byte, c: bytes)
    requires |c| < 128
    ensures Tlv(tag, c) == Some([tag, |c|] + c)
  {
    assert [tag, |c|] + c == [tag] + [|c|] + c;
  }

  lemma LongTlv(tag: byte, c: bytes)
    requires 128 <= |c| < 256
    ensures Tlv(tag, c) == Some([tag, 0x81, |c|] + c)
  {
    var m := Minimal(|c|);
    assert Minimal(0) == [] && m == [|c|];
    assert [128 + |m|] + m == [0x81] + [|c|];
    assert [tag, 0x81, |c|] + c == [tag] + ([0x81] + [|c|]) + c;
  }

  /** SEQUENCE is 30, INTEGER is 02, R comes first: below 128 octets, as on every curve but P-521. */
  lemma ShortSignature(a: bytes, b: bytes, rest: bytes)
    requires MinimalInteger(a) && MinimalInteger(b) && |a| + |b| + 4 < 128
    ensures var d := [0x30, |a| + |b| + 4] + ([0x02, |a|] + a + ([0x02, |b|] + b));
      EncodeSig(ToNat(a), ToNat(b)) == Some(d) && DecodeSig(d + rest) == Some((ToNat(a), ToNat(b)))
  {
    hide ToNat, IntegerContent, DecodeSig, Tlv;
    MinimalContent(a);
    MinimalContent(b);
    ShortTlv(0x02, a);
    ShortTlv(0x02, b);
    ShortTlv(0x30, [0x02, |a|] + a + ([0x02, |b|] + b));
    SigRoundTrip(ToNat(a), ToNat(b), rest);
  }

  /** From 128 octets on the sequence's length takes a second octet, after 81, as P-521 needs. */
  lemma LongSignature(a: bytes, b: bytes, rest: bytes)
    requires MinimalInteger(a) && MinimalInteger(b) && |a| < 128 && |b| < 128 && 128 <= |a| + |b| + 4 < 256
    ensures var d := [0x30, 0x81, |a| + |b| + 4] + ([0x02, |a|] + a + ([0x02, |b|] + b));
      EncodeSig(ToNat(a), ToNat(b)) == Some(d) && DecodeSig(d + rest) == Some((ToNat(a), ToNat(b)))
  {
    hide ToNat, IntegerContent, DecodeSig, Tlv;
    MinimalContent(a);
    MinimalContent(b);
    ShortTlv(0x02, a);
    ShortTlv(0x02, b);
    LongTlv(0x30, [0x02, |a|] + a + ([0x02, |b|] + b));
    SigRoundTrip(ToNat(a), ToNat(b), rest);
  }

  /** Only the content of the outer sequence counts. */
  lemma SameContent(d: bytes, d': bytes)
    requires ReadTlv(SEQUENCE, d).Some? && ReadTlv(SEQUENCE, d').Some?
    requires ReadTlv(SEQUENCE, d).value.content == ReadTlv(SEQUENCE, d').value.content
    ensures DecodeSig(d) == DecodeSig(d')
  {
    hide ReadTlv, ReadInteger, ToNat;
  }

  lemma LongRead(body: bytes, rest: bytes)
    requires |body| < 256
    ensures ReadTlv(0x30, [0x30, 0x81, |body|] + body + rest) == Some(Read(body, rest))
  {
    hide ReadLength;
    var n: byte := |body|;
    var long := [0x30, 0x81, n] + body + rest;
    assert long[1..] == [0x81, n] + (body + rest);
    LongLength(n, body + rest);
    assert long[3..3 + n] == body && long[3 + n..] == rest;
  }

  /** A length octet too many is tolerated when reading. */
  lemma TolerantLength(a: bytes, b: bytes, rest: bytes)
    requires MinimalInteger(a) && MinimalInteger(b) && |a| + |b| + 4 < 128
    ensures DecodeSig([0x30, 0x81, |a| + |b| + 4] + ([0x02, |a|] + a + ([0x02, |b|] + b)) + rest)
         == Some((ToNat(a), ToNat(b)))
  {
    hide ReadTlv, DecodeSig, ToNat, Tlv;
    var body := [0x02, |a|] + a + ([0x02, |b|] + b);
    var short := [0x30, |body|] + body;
    ShortSignature(a, b, []);
    assert short + [] == short;
    ShortTlv(0x30, body);
    TlvRoundTrip(0x30, body, []);
    LongRead(body, rest);
    SameContent(short, [0x30, 0x81, |body|] + body + rest);
  }

  lemma LongLength(n: byte, rest: bytes)
    ensures ReadLength([0x81, n] + rest) == Some((n as nat, 2))
  {
    assert ([0x81, n] + rest)[1..2] == [n];
    assert [n][..0] == [] && ToNat([]) == 0;
  }
  /** An integer with its top bit set would be negative, and is refused. */
  lemma NegativeIsRefused(a: bytes, rest: bytes)
    requires 0 < |a| < 128 && a[0] >= 128
    ensures ReadInteger([0x02, |a|] + a + rest) == None
  {
    ShortTlv(0x02, a);
    TlvRoundTrip(0x02, a, rest);
  }
}
