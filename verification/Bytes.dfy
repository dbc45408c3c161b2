/** Octet strings and the three-valued status shared by every module. */
module Bytes {

  type byte = x: int | 0 <= x < 256

  type bytes = seq<byte>

  datatype Option<+T> = None | Some(value: T)

  /** NGX_OK, NGX_ERROR and NGX_DECLINED. */
  datatype Rc = Ok | Error | Declined

  /** The octets of a C string literal, without its terminator. */
  function Ascii(s: string): (b: bytes)
    ensures |b| == |s|
  {
    seq(|s|, i requires 0 <= i < |s| => s[i] as int % 256)
  }

  predicate FreeOf(c: byte, s: bytes)
  {
    forall i :: 0 <= i < |s| ==> s[i] != c
  }

  /** Parts free of c end at the first c, so a common text is cut the same way. */
  lemma CutAgrees(c: byte, a: bytes, s: bytes, b: bytes, t: bytes)
    requires FreeOf(c, a) && FreeOf(c, b)
    requires s != [] && t != [] && s[0] == c && t[0] == c
    requires a + s == b + t
    ensures a == b && s == t
  {
    var j := a + s;
    assert j[|a|] == s[0] && (b + t)[|b|] == t[0];
    assert forall i :: 0 <= i < |a| ==> j[i] == a[i];
    assert forall i :: 0 <= i < |b| ==> j[i] == b[i];
    assert |a| == |b|;
    assert a == j[..|a|] && b == j[..|b|];
    assert s == j[|a|..] && t == j[|b|..];
  }

  /** ngx_memcpy at the write pointer p, followed by the advance of p. */
  method Append(buf: array<byte>, p: nat, s: bytes) returns (q: nat)
    requires p + |s| <= buf.Length
    modifies buf
    ensures q == p + |s|
    ensures buf[..q] == old(buf[..p]) + s
  {
    q := p;
    while q < p + |s|
      invariant p <= q <= p + |s|
      invariant buf[..q] == old(buf[..p]) + s[..q - p]
    {
      ghost var before := buf[..q];
      buf[q] := s[q - p];
      q := q + 1;
      assert buf[..q] == before + [s[q - 1 - p]];
    }
    assert s[..q - p] == s;
  }
}
