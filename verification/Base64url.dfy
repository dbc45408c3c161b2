/**
 * The base64url codec: an encoder that walks three octets at a time and a
 * decoder that shifts sextets through a 32-bit accumulator, both proved against
 * the regrouping of one bit string.
 */
module Base64url {
  import opened Bytes
  import opened Bits

  const PAD: byte := 61
  const DOT: byte := 46
  const QUOTE: byte := 34

  const UPPER: bytes := Ascii("ABCDEFGHIJKLM") + Ascii("NOPQRSTUVWXYZ")
  const LOWER: bytes := Ascii("abcdefghijklm") + Ascii("nopqrstuvwxyz")
  const ALPHABET: bytes := UPPER + LOWER + Ascii("0123456789-_")

  /** The sextet a character stands for, or -1. */
  function SextetOf(c: byte): (v: int)
    ensures -1 <= v < 64
  {
    if 65 <= c <= 90 then c - 65
    else if 97 <= c <= 122 then c - 97 + 26
    else if 48 <= c <= 57 then c - 48 + 52
    else if c == 45 then 62
    else if c == 95 then 63
    else -1
  }

  function CharOf(v: nat): (c: byte)
    requires v < 64
  {
    ALPHABET[v]
  }

  lemma Letters()
    ensures forall j :: 0 <= j < 13 ==> Ascii("ABCDEFGHIJKLM")[j] == 65 + j
    ensures forall j :: 0 <= j < 13 ==> Ascii("NOPQRSTUVWXYZ")[j] == 78 + j
  {
    assert forall j :: 0 <= j < 13 ==> "ABCDEFGHIJKLM"[j] as int == 65 + j;
    assert forall j :: 0 <= j < 13 ==> "NOPQRSTUVWXYZ"[j] as int == 78 + j;
  }

  lemma SmallLetters()
    ensures forall j :: 0 <= j < 13 ==> Ascii("abcdefghijklm")[j] == 97 + j
    ensures forall j :: 0 <= j < 13 ==> Ascii("nopqrstuvwxyz")[j] == 110 + j
  {
    assert forall j :: 0 <= j < 13 ==> "abcdefghijklm"[j] as int == 97 + j;
    assert forall j :: 0 <= j < 13 ==> "nopqrstuvwxyz"[j] as int == 110 + j;
  }

  lemma Digits()
    ensures forall j :: 0 <= j < 10 ==> Ascii("0123456789-_")[j] == 48 + j
    ensures Ascii("0123456789-_")[10] == 45 && Ascii("0123456789-_")[11] == 95
  {
    assert forall j :: 0 <= j < 10 ==> "0123456789-_"[j] as int == 48 + j;
  }

  lemma CharRanges(v: nat)
    requires v < 64
    ensures CharOf(v) ==
      if v < 26 then 65 + v else if v < 52 then 71 + v else if v < 62 then v - 4 else if v == 62 then 45 else 95
  {
    if v < 26 {
      Letters();
      assert CharOf(v) == UPPER[v];
    } else if v < 52 {
      SmallLetters();
      assert CharOf(v) == LOWER[v - 26];
    } else {
      Digits();
      assert CharOf(v) == Ascii("0123456789-_")[v - 52];
    }
  }

  lemma CharSextet(v: nat)
    requires v < 64
    ensures SextetOf(CharOf(v)) == v && CharOf(v) != PAD && CharOf(v) != DOT && CharOf(v) != QUOTE
  {
    CharRanges(v);
  }

  lemma SextetChar(c: byte)
    requires SextetOf(c) >= 0
    ensures CharOf(SextetOf(c)) == c
  {
    CharRanges(SextetOf(c));
  }

  // ---------------------------------------------------------------- specification

  predicate IsSextets(v: seq<nat>)
  {
    forall i :: 0 <= i < |v| ==> v[i] < 64
  }

  function Chars(v: seq<nat>): (s: bytes)
    requires IsSextets(v)
    ensures |s| == |v|
  {
    seq(|v|, i requires 0 <= i < |v| => CharOf(v[i]))
  }

  /** Fills the last sextet up with zero bits. */
  function PadBits(b: seq<bool>): (r: seq<bool>)
    ensures |r| % 6 == 0 && |b| <= |r| < |b| + 6
  {
    b + Zeros((6 - |b| % 6) % 6)
  }

  lemma Pow2Widths()
    ensures Pow2(2) == 4 && Pow2(4) == 16 && Pow2(6) == 64 && Pow2(8) == 256
  {
    assert Pow2(2) == 4;
    assert Pow2(4) == 4 * Pow2(2);
    assert Pow2(6) == 4 * Pow2(4);
    assert Pow2(8) == 4 * Pow2(6);
  }

  /** RFC 4648 section 5, without padding: the octets' bits, regrouped by six. */
  function Encode(src: bytes): bytes
  {
    Pow2Widths();
    Chars(Gather(6, PadBits(Spread(8, src))))
  }

  predicate Decodable(s: bytes)
  {
    forall i :: 0 <= i < |s| ==> s[i] == PAD || SextetOf(s[i]) >= 0
  }

  /** The sextets of s; every '=' is skipped, wherever it stands. */
  function Sextets(s: bytes): (v: seq<nat>)
    requires Decodable(s)
    ensures IsSextets(v) && |v| <= |s|
  {
    if s == [] then []
    else
      var front, c := s[..|s| - 1], s[|s| - 1];
      Sextets(front) + if c == PAD then [] else [SextetOf(c)]
  }

  /** The sextets' bits, regrouped by eight; an incomplete last octet is dropped. */
  function Decode(s: bytes): Option<bytes>
  {
    Pow2Widths();
    if Decodable(s) then Some(Gather(8, Spread(6, Sextets(s)))) else None
  }

  function EncodedLength(n: nat): nat { (n + 2) / 3 * 4 }

  function DecodedLength(n: nat): nat { n * 3 / 4 }

  // ---------------------------------------------------------------- the decoder

  lemma ShiftIn(buf: nat, bits: nat, v: nat)
    requires v < 64 && bits + 6 <= 32
    ensures ToBits((buf * 64 + v) % 0x1_0000_0000, bits + 6) == ToBits(buf, bits) + ToBits(v, 6)
  {
    Pow2Widths();
    var x := buf * 64 + v;
    Shl6(buf);
    ToBitsJoin(buf, v, bits, 6);
    Shl32(x / 0x1_0000_0000);
    ToBitsLow(x % 0x1_0000_0000, x / 0x1_0000_0000, 32, bits + 6);
  }

  lemma ShiftOut(buf: nat, bits: nat)
    ensures ToBits(buf, bits + 8) == ToBits(Shr(buf, bits) % 256, 8) + ToBits(buf, bits)
  {
    ToBitsSplit(buf, 8, bits);
    var x := Shr(buf, bits);
    Shl8(x / 256);
    ToBitsLow(x % 256, x / 256, 8, 8);
  }

  lemma SextetsStep(s: bytes, i: nat)
    requires i < |s| && Decodable(s[..i + 1])
    ensures Sextets(s[..i + 1]) == Sextets(s[..i]) + if s[i] == PAD then [] else [SextetOf(s[i])]
  {
    assert s[..i + 1][..i] == s[..i];
  }

  /** The octets written and the low bits of the accumulator together spell the sextets of s. */
  ghost predicate Accumulated(done: bytes, buf: nat, bits: nat, s: bytes)
  {
    && Decodable(s)
    && bits < 8 && bits % 2 == 0
    && 8 * |done| + bits == 6 * |Sextets(s)|
    && Spread(8, done) + ToBits(buf, bits) == Spread(6, Sextets(s))
  }

  lemma AccumulateStart()
    ensures Accumulated([], 0, 0, [])
  {
  }

  lemma AccumulateBounds(done: bytes, buf: nat, bits: nat, s: bytes, i: nat)
    requires i < |s| && Accumulated(done, buf, bits, s[..i])
    ensures bits < 8
    ensures SextetOf(s[i]) < 0 && s[i] != PAD ==> Decode(s) == None
  {
  }

  lemma AccumulateSkip(done: bytes, buf: nat, bits: nat, s: bytes, i: nat)
    requires i < |s| && Accumulated(done, buf, bits, s[..i]) && s[i] == PAD
    ensures Accumulated(done, buf, bits, s[..i + 1])
  {
    SextetsStep(s, i);
    assert Sextets(s[..i + 1]) == Sextets(s[..i]);
  }

  lemma AccumulateShift(done: bytes, buf: nat, bits: nat, s: bytes, i: nat, v: nat, buf': nat)
    requires i < |s| && Accumulated(done, buf, bits, s[..i])
    requires s[i] != PAD && v == SextetOf(s[i]) && buf' == (buf * 64 + v) % 0x1_0000_0000
    ensures Decodable(s[..i + 1])
    ensures 8 * |done| + bits + 6 == 6 * |Sextets(s[..i + 1])| <= 6 * (i + 1)
    ensures Spread(8, done) + ToBits(buf', bits + 6) == Spread(6, Sextets(s[..i + 1]))
  {
    ShiftIn(buf, bits, v);
    SextetsStep(s, i);
    SpreadAppend(6, Sextets(s[..i]), [v]);
    SpreadOne(6, v);
    Regroup(Spread(8, done), ToBits(buf, bits), ToBits(v, 6));
  }

  lemma AccumulateEmit(done: bytes, buf: nat, bits: nat, s: bytes)
    requires Decodable(s) && bits < 8 && bits % 2 == 0
    requires 8 * |done| + bits + 8 == 6 * |Sextets(s)|
    requires Spread(8, done) + ToBits(buf, bits + 8) == Spread(6, Sextets(s))
    ensures Accumulated(done + [Shr(buf, bits) % 256], buf, bits, s)
  {
    var octet := Shr(buf, bits) % 256;
    ShiftOut(buf, bits);
    SpreadAppend(8, done, [octet]);
    SpreadOne(8, octet);
    Regroup(Spread(8, done), ToBits(octet, 8), ToBits(buf, bits));
  }

  /** One turn of the loop on a character that carries a sextet. */
  lemma AccumulateSextet(done: bytes, buf: nat, bits: nat, s: bytes, i: nat, v: nat, buf': nat)
    requires i < |s| && Accumulated(done, buf, bits, s[..i])
    requires s[i] != PAD && v == SextetOf(s[i]) && buf' == (buf * 64 + v) % 0x1_0000_0000
    ensures bits < 2 ==> Accumulated(done, buf', bits + 6, s[..i + 1])
    ensures bits >= 2 ==> 8 * (|done| + 1) <= 6 * |s|
    ensures bits >= 2 ==> Accumulated(done + [Shr(buf', bits - 2) % 256], buf', bits - 2, s[..i + 1])
  {
    AccumulateShift(done, buf, bits, s, i, v, buf');
    if bits >= 2 {
      AccumulateEmit(done, buf', bits - 2, s[..i + 1]);
    }
  }

  lemma AccumulateEnd(done: bytes, buf: nat, bits: nat, s: bytes)
    requires Accumulated(done, buf, bits, s)
    ensures Decode(s) == Some(done)
  {
    Pow2Widths();
    GatherSpread(8, done, ToBits(buf, bits));
  }

  /** The 32-bit accumulator loop of ngx_decode_base64url. */
  method DecodeInto(dst: array<byte>, src: bytes) returns (ok: bool, len: nat)
    requires dst.Length >= DecodedLength(|src|)
    modifies dst
    ensures ok == Decode(src).Some?
    ensures ok ==> len <= dst.Length && dst[..len] == Decode(src).value
    ensures !ok ==> len == 0
  {
    hide Accumulated, Decode, Sextets;
    var buf: nat, bits: nat, out: nat := 0, 0, 0;
    AccumulateStart();
    assert dst[..0] == [] && src[..0] == [];
    var i := 0;
    while i < |src|
      invariant 0 <= i <= |src|
      invariant out <= dst.Length
      invariant Accumulated(dst[..out], buf, bits, src[..i])
    {
      AccumulateBounds(dst[..out], buf, bits, src, i);
      var ch := src[i];
      if ch == PAD {
        AccumulateSkip(dst[..out], buf, bits, src, i);
        i := i + 1;
        continue;
      }
      var v := SextetOf(ch);
      if v < 0 {
        return false, 0;
      }
      ghost var done := dst[..out];
      AccumulateSextet(done, buf, bits, src, i, v, (buf * 64 + v) % 0x1_0000_0000);
      buf := (buf * 64 + v) % 0x1_0000_0000;
      bits := bits + 6;
      if bits >= 8 {
        bits := bits - 8;
        dst[out] := Shr(buf, bits) % 256;
        out := out + 1;
        assert dst[..out] == done + [Shr(buf, bits) % 256];
      }
      i := i + 1;
    }
    assert src[..i] == src;
    AccumulateEnd(dst[..out], buf, bits, src);
    return true, out;
  }

  // ---------------------------------------------------------------- the encoder

  lemma SpreadThree(w: nat, a: nat, b: nat, c: nat)
    ensures Spread(w, [a, b, c]) == ToBits(a, w) + ToBits(b, w) + ToBits(c, w)
  {
    assert [a, b, c][1..] == [b, c] && [b, c][1..] == [c];
    SpreadOne(w, c);
    Regroup(ToBits(a, w), ToBits(b, w), ToBits(c, w));
  }

  lemma SpreadTwo(w: nat, a: nat, b: nat)
    ensures Spread(w, [a, b]) == ToBits(a, w) + ToBits(b, w)
  {
    assert [a, b][1..] == [b];
    SpreadOne(w, b);
  }

  /** An octet cut after its six, four or two high bits. */
  lemma OctetCuts(a: nat)
    requires a < 256
    ensures ToBits(a, 8) == ToBits(a / 4, 6) + ToBits(a % 4, 2)
    ensures ToBits(a, 8) == ToBits(a / 16, 4) + ToBits(a % 16, 4)
    ensures ToBits(a, 8) == ToBits(a / 64, 2) + ToBits(a % 64, 6)
  {
    hide ToBits;
    Pow2Widths();
    ShlTwo();
    Shl6(a / 16);
    Shl6(a / 64);
    ToBitsJoin(a / 4, a % 4, 6, 2);
    ToBitsJoin(a / 16, a % 16, 4, 4);
    ToBitsJoin(a / 64, a % 64, 2, 6);
  }

  /** The two sextets that straddle octets. */
  lemma Straddle(hi: nat, lo: nat)
    ensures lo < 16 ==> ToBits(hi * 16 + lo, 6) == ToBits(hi, 2) + ToBits(lo, 4)
    ensures lo < 4 ==> ToBits(hi * 4 + lo, 6) == ToBits(hi, 4) + ToBits(lo, 2)
  {
    hide ToBits;
    Pow2Widths();
    ShlTwo();
    Shl6(hi);
    if lo < 16 { ToBitsJoin(hi, lo, 2, 4); }
    if lo < 4 { ToBitsJoin(hi, lo, 4, 2); }
  }

  function Four(a: byte, b: byte, c: byte): (v: seq<nat>)
    ensures |v| == 4 && IsSextets(v)
  {
    [a / 4, a % 4 * 16 + b / 16, b % 16 * 4 + c / 64, c % 64]
  }

  /** One stride: three octets and their four sextets spell the same bits. */
  lemma Stride(a: byte, b: byte, c: byte)
    ensures Spread(6, Four(a, b, c)) == Spread(8, [a, b, c])
  {
    hide ToBits, Spread;
    var v := Four(a, b, c);
    OctetCuts(a);
    OctetCuts(b);
    OctetCuts(c);
    Straddle(a % 4, b / 16);
    Straddle(b % 16, c / 64);
    SpreadThree(8, a, b, c);
    SpreadAppend(6, [v[0]], [v[1], v[2], v[3]]);
    SpreadOne(6, v[0]);
    SpreadThree(6, v[1], v[2], v[3]);
    assert v == [v[0]] + [v[1], v[2], v[3]];
  }

  function Tail(rest: bytes): (v: seq<nat>)
    requires |rest| < 3
    ensures IsSextets(v)
  {
    if |rest| == 0 then []
    else if |rest| == 1 then [rest[0] / 4, rest[0] % 4 * 16]
    else [rest[0] / 4, rest[0] % 4 * 16 + rest[1] / 16, rest[1] % 16 * 4]
  }

  lemma TailOne(a: byte)
    ensures Spread(6, Tail([a])) == Spread(8, [a]) + Zeros(4)
  {
    hide ToBits, Spread;
    SpreadOne(8, a);
    OctetCuts(a);
    Straddle(a % 4, 0);
    ToBitsZero(4);
    SpreadTwo(6, a / 4, a % 4 * 16);
    Regroup(ToBits(a / 4, 6), ToBits(a % 4, 2), Zeros(4));
  }

  lemma TailTwo(a: byte, b: byte)
    ensures Spread(6, Tail([a, b])) == Spread(8, [a, b]) + Zeros(2)
  {
    hide ToBits, Spread;
    SpreadTwo(8, a, b);
    OctetCuts(a);
    OctetCuts(b);
    Straddle(a % 4, b / 16);
    Straddle(b % 16, 0);
    ToBitsZero(2);
    SpreadThree(6, a / 4, a % 4 * 16 + b / 16, b % 16 * 4);
  }

  lemma PadIs(b: seq<bool>, k: nat)
    requires k < 6 && (|b| + k) % 6 == 0
    ensures PadBits(b) == b + Zeros(k)
  {
    hide Zeros;
    assert (6 - |b| % 6) % 6 == k;
  }

  lemma TailNone()
    ensures Spread(6, Tail([])) == PadBits(Spread(8, []))
  {
  }

  /** The short last stride: the bits of one or two octets, filled up with zeros. */
  lemma TailBits(rest: bytes)
    requires |rest| < 3
    ensures Spread(6, Tail(rest)) == PadBits(Spread(8, rest))
  {
    hide ToBits, Spread, Zeros, Tail, PadBits;
    SpreadLength(8, rest);
    if |rest| == 0 {
      TailNone();
    } else if |rest| == 1 {
      assert rest == [rest[0]];
      TailOne(rest[0]);
      PadIs(Spread(8, rest), 4);
    } else {
      assert rest == [rest[0], rest[1]];
      TailTwo(rest[0], rest[1]);
      PadIs(Spread(8, rest), 2);
    }
  }

  lemma CharsAppend(a: seq<nat>, b: seq<nat>)
    requires IsSextets(a) && IsSextets(b)
    ensures Chars(a + b) == Chars(a) + Chars(b)
  {
  }

  lemma PadAppend(a: seq<bool>, b: seq<bool>)
    requires |a| % 6 == 0
    ensures PadBits(a + b) == a + PadBits(b)
  {
    hide Zeros;
    var k := (6 - |b| % 6) % 6;
    PadIs(a + b, k);
    Regroup(a, b, Zeros(k));
  }

  /** After i octets in whole strides, the characters out spell exactly those octets. */
  ghost predicate Strided(out: bytes, v: seq<nat>, s: bytes)
  {
    && IsSextets(v) && out == Chars(v)
    && Spread(6, v) == Spread(8, s)
  }

  lemma StrideStep(out: bytes, v: seq<nat>, s: bytes, i: nat)
    requires i + 3 <= |s| && Strided(out, v, s[..i])
    ensures Strided(out + Chars(Four(s[i], s[i + 1], s[i + 2])), v + Four(s[i], s[i + 1], s[i + 2]), s[..i + 3])
  {
    hide Spread, ToBits;
    var f := Four(s[i], s[i + 1], s[i + 2]);
    Stride(s[i], s[i + 1], s[i + 2]);
    SpreadAppend(6, v, f);
    SpreadAppend(8, s[..i], [s[i], s[i + 1], s[i + 2]]);
    assert s[..i + 3] == s[..i] + [s[i], s[i + 1], s[i + 2]];
    CharsAppend(v, f);
  }

  lemma StrideEnd(out: bytes, v: seq<nat>, s: bytes, i: nat)
    requires i <= |s| < i + 3 && i % 3 == 0 && Strided(out, v, s[..i])
    ensures out + Chars(Tail(s[i..])) == Encode(s)
  {
    hide Spread, ToBits, Gather, PadBits, Tail, Chars;
    var t := Tail(s[i..]);
    TailBits(s[i..]);
    SpreadAppend(6, v, t);
    SpreadAppend(8, s[..i], s[i..]);
    assert s == s[..i] + s[i..];
    SpreadLength(8, s[..i]);
    PadAppend(Spread(8, s[..i]), Spread(8, s[i..]));
    Pow2Widths();
    GatherSpread(6, v + t, []);
    assert Spread(6, v + t) + [] == Spread(6, v + t);
    CharsAppend(v, t);
  }

  /** The four characters of one stride, written at d. */
  method WriteStride(dst: array<byte>, d: nat, a: byte, b: byte, c: byte)
    requires d + 4 <= dst.Length
    modifies dst
    ensures dst[..d + 4] == old(dst[..d]) + Chars(Four(a, b, c))
  {
    hide CharOf, Chars;
    ghost var done := dst[..d];
    dst[d] := CharOf(a / 4);
    dst[d + 1] := CharOf(a % 4 * 16 + b / 16);
    dst[d + 2] := CharOf(b % 16 * 4 + c / 64);
    dst[d + 3] := CharOf(c % 64);
    CharsFour(a, b, c);
    assert dst[..d + 4] == done + [dst[d], dst[d + 1], dst[d + 2], dst[d + 3]];
  }

  /** The short last stride. */
  method WriteTail(dst: array<byte>, d: nat, rest: bytes) returns (e: nat)
    requires |rest| < 3 && (|rest| > 0 ==> d + 4 <= dst.Length) && d <= dst.Length
    modifies dst
    ensures d <= e <= dst.Length && dst[..e] == old(dst[..d]) + Chars(Tail(rest))
  {
    hide CharOf, Chars;
    ghost var done := dst[..d];
    CharsTail(rest);
    e := d;
    if |rest| > 0 {
      dst[e] := CharOf(rest[0] / 4);
      e := e + 1;
      if |rest| == 1 {
        dst[e] := CharOf(rest[0] % 4 * 16);
        e := e + 1;
        assert dst[..e] == done + [dst[d], dst[d + 1]];
      } else {
        dst[e] := CharOf(rest[0] % 4 * 16 + rest[1] / 16);
        dst[e + 1] := CharOf(rest[1] % 16 * 4);
        e := e + 2;
        assert dst[..e] == done + [dst[d], dst[d + 1], dst[d + 2]];
      }
    }
  }

  /** The three-octet stride loop of ngx_encode_base64url. */
  method EncodeInto(dst: array<byte>, src: bytes) returns (len: nat)
    requires dst.Length >= EncodedLength(|src|)
    modifies dst
    ensures len <= dst.Length && dst[..len] == Encode(src)
  {
    hide Strided, Encode, Spread, Chars, IsSextets, Tail, Four;
    var s: nat, d: nat, n := 0, 0, |src|;
    ghost var v: seq<nat> := [];
    StrideStart();
    assert dst[..0] == [] && src[..0] == [];
    while n >= 3
      invariant n >= 0 && s + n == |src| && s % 3 == 0 && d == s / 3 * 4
      invariant d <= dst.Length
      invariant Strided(dst[..d], v, src[..s])
    {
      StrideStep(dst[..d], v, src, s);
      v := v + Four(src[s], src[s + 1], src[s + 2]);
      WriteStride(dst, d, src[s], src[s + 1], src[s + 2]);
      d := d + 4;
      s := s + 3;
      n := n - 3;
    }
    StrideEnd(dst[..d], v, src, s);
    len := WriteTail(dst, d, src[s..]);
  }

  lemma StrideStart()
    ensures Strided([], [], [])
  {
  }

  lemma CharsFour(a: byte, b: byte, c: byte)
    ensures Chars(Four(a, b, c))
         == [CharOf(a / 4), CharOf(a % 4 * 16 + b / 16), CharOf(b % 16 * 4 + c / 64), CharOf(c % 64)]
  {
    hide CharOf;
  }

  lemma CharsTail(rest: bytes)
    requires |rest| < 3
    ensures |rest| == 0 ==> Chars(Tail(rest)) == []
    ensures |rest| == 1 ==> Chars(Tail(rest)) == [CharOf(rest[0] / 4), CharOf(rest[0] % 4 * 16)]
    ensures |rest| == 2 ==>
              Chars(Tail(rest))
              == [CharOf(rest[0] / 4), CharOf(rest[0] % 4 * 16 + rest[1] / 16), CharOf(rest[1] % 16 * 4)]
  {
    hide CharOf;
  }

  // ---------------------------------------------------------------- RFC 4648, by arithmetic

  /** Table 2 of RFC 4648. */
  function Table2(v: nat): (c: byte)
    requires v < 64
  {
    if v < 26 then 65 + v
    else if v < 52 then 97 + (v - 26)
    else if v < 62 then 48 + (v - 52)
    else if v == 62 then 45
    else 95
  }

  /** Sections 4 and 5 of RFC 4648 without padding: the input taken in groups of 24 bits. */
  function Rfc4648(s: bytes): bytes
  {
    if s == [] then []
    else if |s| == 1 then [Table2(s[0] / 4), Table2(s[0] % 4 * 16)]
    else if |s| == 2 then [Table2(s[0] / 4), Table2(s[0] % 4 * 16 + s[1] / 16), Table2(s[1] % 16 * 4)]
    else
      [Table2(s[0] / 4), Table2(s[0] % 4 * 16 + s[1] / 16), Table2(s[1] % 16 * 4 + s[2] / 64), Table2(s[2] % 64)]
      + Rfc4648(s[3..])
  }

  lemma CharsAreTable2(v: seq<nat>)
    requires IsSextets(v)
    ensures |Chars(v)| == |v| && forall i :: 0 <= i < |v| ==> Chars(v)[i] == Table2(v[i])
  {
    hide CharOf, Table2;
    forall i | 0 <= i < |v| ensures CharOf(v[i]) == Table2(v[i]) {
      CharIsTable2(v[i]);
    }
  }

  lemma CharIsTable2(v: nat)
    requires v < 64
    ensures CharOf(v) == Table2(v)
  {
    CharRanges(v);
  }

  /** The regrouped bit string is the text of RFC 4648, for every octet string. */
  lemma {:induction false} EncodeIsRfc4648(s: bytes)
    ensures Encode(s) == Rfc4648(s)
  {
    hide Encode, Chars, Table2, Spread;
    if |s| < 3 {
      StrideStart();
      assert s[..0] == [] && s[0..] == s;
      StrideEnd([], [], s, 0);
      CharsAreTable2(Tail(s));
      assert Encode(s) == Chars(Tail(s));
    } else {
      EncodeIsRfc4648(s[3..]);
      EncodeStep(s);
      CharsAreTable2(Four(s[0], s[1], s[2]));
      assert Chars(Four(s[0], s[1], s[2])) ==
             [Table2(s[0] / 4), Table2(s[0] % 4 * 16 + s[1] / 16),
              Table2(s[1] % 16 * 4 + s[2] / 64), Table2(s[2] % 64)];
    }
  }

  /** A whole group is encoded on its own. */
  lemma EncodeStep(s: bytes)
    requires |s| >= 3
    ensures Encode(s) == Chars(Four(s[0], s[1], s[2])) + Encode(s[3..])
  {
    hide Spread, ToBits, Gather, PadBits, Chars, Four;
    var f, p := Four(s[0], s[1], s[2]), PadBits(Spread(8, s[3..]));
    Stride(s[0], s[1], s[2]);
    assert s == [s[0], s[1], s[2]] + s[3..];
    SpreadAppend(8, [s[0], s[1], s[2]], s[3..]);
    SpreadLength(8, [s[0], s[1], s[2]]);
    PadAppend(Spread(8, [s[0], s[1], s[2]]), Spread(8, s[3..]));
    Pow2Widths();
    var g := Gather(6, p);
    WholeGroups(p, |p| / 6);
    SpreadGather(6, p);
    SpreadAppend(6, f, g);
    SpreadLength(6, g);
    assert Spread(6, g) == p;
    GatherSpread(6, f + g, []);
    assert Spread(6, f + g) + [] == Spread(6, f + g);
    CharsAppend(f, g);
  }

  /** The decoder takes exactly the characters of Table 2 and '='. */
  lemma DecodesIff(s: bytes)
    ensures Decode(s).Some? <==>
            forall i :: 0 <= i < |s| ==> s[i] == 61 || exists v: nat :: v < 64 && s[i] == Table2(v)
  {
    hide Gather, Spread, Sextets;
    forall c: byte ensures SextetOf(c) >= 0 <==> exists v: nat :: v < 64 && c == Table2(v) {
      if SextetOf(c) >= 0 {
        assert c == Table2(SextetOf(c));
      }
    }
  }

  // ---------------------------------------------------------------- what the codec promises

  predicate Clean(s: bytes)
  {
    forall i :: 0 <= i < |s| ==> SextetOf(s[i]) >= 0 && s[i] != PAD && s[i] != DOT && s[i] != QUOTE
  }

  lemma {:induction false} SextetsChars(v: seq<nat>)
    requires IsSextets(v)
    ensures Clean(Chars(v)) && Decodable(Chars(v)) && Sextets(Chars(v)) == v
  {
    hide CharOf, SextetOf;
    forall i | 0 <= i < |v| ensures SextetOf(Chars(v)[i]) == v[i] && Clean([Chars(v)[i]]) {
      CharSextet(v[i]);
      assert Chars(v)[i] == CharOf(v[i]);
    }
    assert forall i :: 0 <= i < |v| ==> Chars(v)[i] == [Chars(v)[i]][0];
    if v != [] {
      var front := v[..|v| - 1];
      SextetsChars(front);
      assert Chars(v)[..|v| - 1] == Chars(front);
      assert v == front + [v[|v| - 1]];
    }
  }

  /** A string without '=' is the characters of its sextets. */
  lemma {:induction false} CharsSextets(s: bytes)
    requires Decodable(s) && PAD !in s
    ensures Chars(Sextets(s)) == s
  {
    hide CharOf, SextetOf;
    if s != [] {
      var front, c := s[..|s| - 1], s[|s| - 1];
      assert PAD !in front;
      CharsSextets(front);
      assert SextetOf(c) >= 0 && c != PAD;
      SextetChar(c);
      assert Sextets(s) == Sextets(front) + [SextetOf(c)];
      CharsAppend(Sextets(front), [SextetOf(c)]);
      assert s == front + [c];
    }
  }

  lemma WholeGroups(b: seq<bool>, n: nat)
    requires |b| == 6 * n
    ensures Spread(6, Gather(6, b)) == b
    ensures |Gather(6, b)| == n
  {
    hide Gather, Spread;
    SpreadGather(6, b);
    SpreadLength(6, Gather(6, b));
  }

  lemma EncodeSextets(b: bytes)
    ensures Decodable(Encode(b)) && Clean(Encode(b))
    ensures Spread(6, Sextets(Encode(b))) == PadBits(Spread(8, b))
    ensures |Sextets(Encode(b))| == |Encode(b)| == (4 * |b| + 2) / 3
  {
    hide Gather, Spread, Chars, Clean, Decodable;
    Pow2Widths();
    var p := PadBits(Spread(8, b));
    SpreadLength(8, b);
    SextetsChars(Gather(6, p));
    WholeGroups(p, |p| / 6);
  }

  /** Decoding undoes encoding, for every octet string. */
  lemma RoundTrip(b: bytes)
    ensures Decode(Encode(b)) == Some(b)
  {
    hide Gather, Spread, Encode, Sextets;
    EncodeSextets(b);
    Pow2Widths();
    GatherSpread(8, b, Zeros((6 - |Spread(8, b)| % 6) % 6));
  }

  lemma DecodeEmpty()
    ensures Decode([]) == Some([])
  {
  }

  lemma {:induction false} SextetsAppend(a: bytes, b: bytes)
    requires Decodable(a) && Decodable(b)
    ensures Decodable(a + b) && Sextets(a + b) == Sextets(a) + Sextets(b)
  {
    hide SextetOf;
    if b == [] {
      assert a + b == a;
    } else {
      SextetsAppend(a, b[..|b| - 1]);
      assert (a + b)[..|a + b| - 1] == a + b[..|b| - 1];
    }
  }

  /** A '=' is skipped wherever it stands, not only at the end. */
  lemma PadIgnored(s: bytes, i: nat)
    requires i <= |s|
    ensures Decode(s[..i] + [PAD] + s[i..]) == Decode(s)
  {
    hide SextetOf, Gather, Spread, Sextets;
    var t := s[..i] + [PAD] + s[i..];
    assert s == s[..i] + s[i..];
    if Decodable(s) {
      PadSextets();
      SextetsAppend(s[..i], s[i..]);
      SextetsAppend(s[..i], [PAD]);
      SextetsAppend(s[..i] + [PAD], s[i..]);
      assert Sextets(t) == Sextets(s);
    } else {
      var j :| 0 <= j < |s| && s[j] != PAD && SextetOf(s[j]) < 0;
      assert t[if j < i then j else j + 1] == s[j];
    }
  }

  lemma PadSextets()
    ensures Decodable([PAD]) && Sextets([PAD]) == []
  {
  }

  lemma EncodeInjective(a: bytes, b: bytes)
    requires Encode(a) == Encode(b)
    ensures a == b
  {
    RoundTrip(a);
    RoundTrip(b);
  }

  /** The encoder never passes the buffer its caller allocates. */
  lemma EncodeFits(b: bytes)
    ensures |Encode(b)| == (4 * |b| + 2) / 3 <= EncodedLength(|b|)
    ensures |b| > 0 ==> |Encode(b)| > 0
  {
    EncodeSextets(b);
  }

  /** n characters other than '=' decode to floor(6n/8) octets, within the caller's floor(3*len/4). */
  lemma DecodeLength(s: bytes)
    requires Decode(s).Some?
    ensures |Decode(s).value| == 6 * |Sextets(s)| / 8 <= DecodedLength(|s|)
    ensures PAD !in s ==> |Sextets(s)| == |s|
  {
    hide Gather, Spread, Sextets;
    var b := Spread(6, Sextets(s));
    SpreadLength(6, Sextets(s));
    SpreadGather(8, b);
    SpreadLength(8, Gather(8, b));
    if PAD !in s {
      CharsSextets(s);
    }
  }

  /** The bits of the last sextet beyond the last whole octet are zero. */
  predicate TrailingBitsZero(s: bytes)
    requires s != []
  {
    var last := SextetOf(s[|s| - 1]);
    && (|s| % 4 == 2 ==> last % 16 == 0)
    && (|s| % 4 == 3 ==> last % 4 == 0)
  }

  /** What the encoder can produce. */
  predicate Canonical(s: bytes)
  {
    PAD !in s && |s| % 4 != 1 && (s != [] ==> TrailingBitsZero(s))
  }

  lemma LowBitsZero(x: nat)
    requires x < 64
    ensures ToBits(x, 2) == Zeros(2) <==> x % 4 == 0
    ensures ToBits(x, 4) == Zeros(4) <==> x % 16 == 0
  {
    hide ToBits, FromBits, Zeros;
    Pow2Widths();
    ShlTwo();
    Shl6(x / 16);
    ToBitsLow(x % 4, x / 4, 2, 2);
    ToBitsLow(x % 16, x / 16, 4, 4);
    FromToBits(x % 4, 2);
    FromToBits(x % 16, 4);
    ToBitsZero(2);
    ToBitsZero(4);
    FromToBits(0, 2);
    FromToBits(0, 4);
  }

  /** The dropped bits are the low bits of the last sextet. */
  lemma DroppedBits(v: seq<nat>, t: nat)
    requires v != [] && IsSextets(v) && t <= 6
    ensures t <= |Spread(6, v)|
    ensures Spread(6, v)[|Spread(6, v)| - t..] == ToBits(v[|v| - 1], t)
  {
    hide ToBits, Spread;
    var front, last := v[..|v| - 1], v[|v| - 1];
    assert v == front + [last];
    SpreadAppend(6, front, [last]);
    SpreadOne(6, last);
    ToBitsSplit(last, 6 - t, t);
    Regroup(Spread(6, front), ToBits(Shr(last, t), 6 - t), ToBits(last, t));
  }

  /** Re-encoding the octets before tail gives s back exactly when the dropped tail is zero. */
  lemma ReencodeTail(s: bytes, b: bytes, tail: seq<bool>)
    requires Decodable(s) && PAD !in s && |tail| < 6
    requires Spread(6, Sextets(s)) == Spread(8, b) + tail
    ensures Encode(b) == s <==> tail == Zeros(|tail|)
  {
    hide Gather, Spread, Sextets, Zeros, Encode;
    var v := Sextets(s);
    SpreadLength(6, v);
    PadIs(Spread(8, b), |tail|);
    EncodeSextets(b);
    CharsSextets(s);
    if tail == Zeros(|tail|) {
      Pow2Widths();
      CharsSextets(Encode(b));
      SpreadInjective(6, v, Sextets(Encode(b)));
    }
    if Encode(b) == s {
      CancelPrefix(Spread(8, b), tail, Zeros(|tail|));
    }
  }

  /** The bits behind the last whole octet. */
  lemma DecodeTail(s: bytes) returns (tail: seq<bool>)
    requires Decode(s).Some? && PAD !in s
    ensures Spread(6, Sextets(s)) == Spread(8, Decode(s).value) + tail
    ensures |Sextets(s)| == |s| && |tail| == 6 * |s| % 8
  {
    hide Gather, Spread, Sextets;
    var b, bits := Decode(s).value, Spread(6, Sextets(s));
    DecodeLength(s);
    SpreadGather(8, bits);
    SpreadLength(6, Sextets(s));
    SpreadLength(8, b);
    tail := bits[8 * |b|..];
  }

  /** The dropped bits are zero exactly when the low bits of the last character's sextet are. */
  lemma TailZero(s: bytes, tail: seq<bool>)
    requires Decodable(s) && PAD !in s && s != [] && |s| % 4 != 1 && |tail| == 6 * |s| % 8
    requires |tail| <= |Spread(6, Sextets(s))| && Spread(6, Sextets(s))[|Spread(6, Sextets(s))| - |tail|..] == tail
    ensures tail == Zeros(|tail|) <==> TrailingBitsZero(s)
  {
    hide Spread, Sextets, Zeros, ToBits, SextetOf;
    var v := Sextets(s);
    LastSextet(s);
    DroppedBits(v, |tail|);
    LowBitsZero(v[|v| - 1]);
    assert |tail| == if |s| % 4 == 2 then 4 else if |s| % 4 == 3 then 2 else 0;
  }

  lemma ReencodeUnpadded(s: bytes)
    requires Decode(s).Some? && PAD !in s && s != [] && |s| % 4 != 1
    ensures Encode(Decode(s).value) == s <==> TrailingBitsZero(s)
  {
    hide Gather, Spread, Encode, Zeros, ToBits, SextetOf, Sextets, TrailingBitsZero;
    var tail := DecodeTail(s);
    assert |tail| < 6;
    ReencodeTail(s, Decode(s).value, tail);
    TailZero(s, tail);
  }

  /** A length that no encoding has. */
  lemma WrongLength(s: bytes)
    requires Decode(s).Some? && PAD !in s && |s| % 4 == 1
    ensures Encode(Decode(s).value) != s
  {
    hide Decode, Encode, Sextets;
    DecodeLength(s);
    EncodeSextets(Decode(s).value);
  }

  /** Encoding undoes decoding exactly on canonical strings. */
  lemma ReencodeIffCanonical(s: bytes)
    requires Decode(s).Some?
    ensures Encode(Decode(s).value) == s <==> Canonical(s)
  {
    hide Decode, Encode, Sextets, TrailingBitsZero, Decodable, SextetOf;
    if PAD in s {
      EncodeSextets(Decode(s).value);
    } else if s == [] {
      EncodeEmpty();
    } else if |s| % 4 == 1 {
      WrongLength(s);
    } else {
      ReencodeUnpadded(s);
    }
  }

  lemma EncodeEmpty()
    ensures Decode([]) == Some([]) && Encode([]) == []
  {
    DecodeEmpty();
    EncodeSextets([]);
  }

  lemma LastSextet(s: bytes)
    requires Decodable(s) && s != [] && PAD !in s
    ensures Sextets(s) != [] && Sextets(s)[|Sextets(s)| - 1] == SextetOf(s[|s| - 1])
  {
  }

  // ---------------------------------------------------------------- the callers' buffers

  /** nxe_jwx_decode_b64url: allocate floor(3*len/4) octets and decode into them. */
  method DecodeBuffer(src: bytes) returns (r: Option<bytes>)
    ensures r == Decode(src)
  {
    var dst := new byte[DecodedLength(|src|)];
    var ok, len := DecodeInto(dst, src);
    r := if ok then Some(dst[..len]) else None;
  }

  /** nxe_jwx_encode_b64url: allocate ceil(len/3)*4 octets and encode into them. */
  method EncodeBuffer(src: bytes) returns (r: bytes)
    ensures r == Encode(src)
  {
    var dst := new byte[EncodedLength(|src|)];
    var len := EncodeInto(dst, src);
    r := dst[..len];
  }
}
