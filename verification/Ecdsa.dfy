/** The two ECDSA signature forms: R || S of fixed width for JWS, DER for OpenSSL. */
module Ecdsa {
  import opened Bytes
  import opened BigNum
  import Der

  datatype Conversion = Converted(value: bytes) | Refused(rc: Rc)

  /** nxe_jwx_ecdsa_raw_to_der. */
  function RawToDer(raw: bytes, coordLen: nat): Conversion
  {
    if |raw| != coordLen * 2 then Refused(Declined)
    else
      var der := Der.EncodeSig(ToNat(raw[..coordLen]), ToNat(raw[coordLen..]));
      if der.Some? then Converted(der.value) else Refused(Error)
  }

  /** nxe_jwx_ecdsa_der_to_raw. */
  function DerToRaw(der: bytes, coordLen: nat): Conversion
  {
    var sig := Der.DecodeSig(der);
    if sig.None? then Refused(Error)
    else
      var r, s := Padded(sig.value.0, coordLen), Padded(sig.value.1, coordLen);
      if r.Some? && s.Some? then Converted(r.value + s.value) else Refused(Error)
  }

  /** Fixed width to DER and back is the identity, for every width and every signature. */
  lemma RawRoundTrip(raw: bytes, coordLen: nat)
    requires RawToDer(raw, coordLen).Converted?
    ensures DerToRaw(RawToDer(raw, coordLen).value, coordLen) == Converted(raw)
  {
    hide Der.EncodeSig, Der.DecodeSig;
    var r, s := raw[..coordLen], raw[coordLen..];
    var der := RawToDer(raw, coordLen).value;
    Der.SigRoundTrip(ToNat(r), ToNat(s), []);
    assert der + [] == der;
    PaddedOfNat(r);
    PaddedOfNat(s);
    assert raw == r + s;
  }

  lemma {:induction false} MinimalLength(s: bytes)
    ensures |Minimal(ToNat(s))| <= |s|
  {
    PaddedOfNat(s);
  }

  lemma LengthOctetsTotal(n: nat)
    requires n < 0x1_0000_0000_00
    ensures Der.LengthOctets(n).Some? && |Der.LengthOctets(n).value| <= 6
  {
    PaddedIff(n, 5);
    assert Pow256(2) == 0x1_0000;
    assert Pow256(4) == 0x1_0000 * Pow256(2);
    assert Pow256(5) == 256 * Pow256(4);
  }

  /** Any width a C int can hold converts: only a wrong length is declined, and nothing else fails. */
  lemma RawToDerTotal(raw: bytes, coordLen: nat)
    requires coordLen <= 0x7fff_ffff
    ensures RawToDer(raw, coordLen).Converted? <==> |raw| == 2 * coordLen
    ensures |raw| != 2 * coordLen ==> RawToDer(raw, coordLen) == Refused(Declined)
  {
    if |raw| == 2 * coordLen {
      var r, s := ToNat(raw[..coordLen]), ToNat(raw[coordLen..]);
      MinimalLength(raw[..coordLen]);
      MinimalLength(raw[coordLen..]);
      var a, b := Der.IntegerContent(r), Der.IntegerContent(s);
      assert |a| <= coordLen + 1 && |b| <= coordLen + 1;
      LengthOctetsTotal(|a|);
      LengthOctetsTotal(|b|);
      LengthOctetsTotal(|Der.Tlv(Der.INTEGER, a).value| + |Der.Tlv(Der.INTEGER, b).value|);
    }
  }

  /** DER converts to fixed width exactly when it parses and both integers are below 256^coordLen. */
  lemma DerToRawIff(der: bytes, coordLen: nat)
    ensures DerToRaw(der, coordLen).Converted? <==>
            var sig := Der.DecodeSig(der);
            sig.Some? && sig.value.0 < Pow256(coordLen) && sig.value.1 < Pow256(coordLen)
  {
    hide Der.DecodeSig;
    if Der.DecodeSig(der).Some? {
      PaddedIff(Der.DecodeSig(der).value.0, coordLen);
      PaddedIff(Der.DecodeSig(der).value.1, coordLen);
    }
  }

  /** DER to fixed width and back is the identity exactly on canonical DER without trailing octets. */
  lemma DerRoundTripIff(der: bytes, coordLen: nat)
    requires DerToRaw(der, coordLen).Converted?
    ensures var raw := DerToRaw(der, coordLen).value;
      |raw| == 2 * coordLen && Der.Parse(der).Some? && (RawToDer(raw, coordLen) == Converted(der) <==> Der.Canonical(der))
  {
    hide Der.EncodeSig, Der.Canonical, Padded;
    var (r, s) := Der.DecodeSig(der).value;
    var raw := DerToRaw(der, coordLen).value;
    NatOfPadded(r, coordLen);
    NatOfPadded(s, coordLen);
    assert raw[..coordLen] == Padded(r, coordLen).value;
    assert raw[coordLen..] == Padded(s, coordLen).value;
    Der.ReencodeIffCanonical(der);
  }

  /** nxe_jwx_ecdsa_der_to_raw into a buffer of 2*coordLen octets, one half after the other. */
  method WriteRaw(der: bytes, coordLen: nat) returns (r: Conversion)
    ensures r == DerToRaw(der, coordLen)
  {
    hide Der.DecodeSig, Padded;
    var sig := Der.DecodeSig(der);
    if sig.None? {
      return Refused(Error);
    }
    var raw := new byte[coordLen * 2];
    var first, second := Padded(sig.value.0, coordLen), Padded(sig.value.1, coordLen);
    if first.None? || second.None? {
      return Refused(Error);
    }
    NatOfPadded(sig.value.0, coordLen);
    NatOfPadded(sig.value.1, coordLen);
    var p := Append(raw, 0, first.value);
    p := Append(raw, p, second.value);
    assert raw[..p] == raw[..];
    return Converted(raw[..]);
  }
}
