/** Unsigned big-endian integers: BN_bin2bn, BN_bn2bin, BN_bn2binpad and BN_num_bits over nat. */
module BigNum {
  import opened Bytes
  import Bits

  /** BN_bin2bn. */
  function ToNat(s: bytes): nat
  {
    if s == [] then 0 else 256 * ToNat(s[..|s| - 1]) + s[|s| - 1]
  }

  /** BN_bn2bin: no leading zero octet; BN_num_bytes is the length of the result. */
  function Minimal(n: nat): (s: bytes)
    ensures s != [] ==> s[0] != 0
    ensures s == [] <==> n == 0
  {
    if n == 0 then [] else Minimal(n / 256) + [n % 256]
  }

  function ZeroOctets(k: nat): (z: bytes)
    ensures |z| == k && forall i :: 0 <= i < k ==> z[i] == 0
  {
    seq(k, _ => 0)
  }

  /** BN_bn2binpad: left-padded to len octets, refused when the value needs more. */
  function Padded(n: nat, len: nat): Option<bytes>
  {
    var m := Minimal(n);
    if |m| <= len then Some(ZeroOctets(len - |m|) + m) else None
  }

  /** BN_num_bits. */
  function BitLength(n: nat): nat
  {
    if n == 0 then 0 else 1 + BitLength(n / 2)
  }

  function Pow256(len: nat): (p: nat)
    ensures p > 0
  {
    if len == 0 then 1 else 256 * Pow256(len - 1)
  }

  lemma {:induction false} NatOfMinimal(n: nat)
    ensures ToNat(Minimal(n)) == n
  {
    if n > 0 {
      NatOfMinimal(n / 256);
      assert Minimal(n)[..|Minimal(n)| - 1] == Minimal(n / 256);
    }
  }

  lemma {:induction false} MinimalOfNat(s: bytes)
    requires s != [] ==> s[0] != 0
    ensures Minimal(ToNat(s)) == s
    ensures s != [] ==> ToNat(s) > 0
  {
    if s != [] {
      var front, last := s[..|s| - 1], s[|s| - 1];
      MinimalOfNat(front);
      assert ToNat(s) / 256 == ToNat(front) && ToNat(s) % 256 == last;
      assert front == [] ==> s[0] == last;
      assert s == front + [last];
    }
  }

  /** Leading zero octets do not change the number. */
  lemma {:induction false} LeadingZeros(k: nat, s: bytes)
    ensures ToNat(ZeroOctets(k) + s) == ToNat(s)
  {
    var z := ZeroOctets(k) + s;
    if s != [] {
      assert z[..|z| - 1] == ZeroOctets(k) + s[..|s| - 1];
      LeadingZeros(k, s[..|s| - 1]);
    } else if k > 0 {
      assert z[..|z| - 1] == ZeroOctets(k - 1) + [];
      LeadingZeros(k - 1, []);
    }
  }

  /** A successful padding has the asked width and the same value. */
  lemma NatOfPadded(n: nat, len: nat)
    requires Padded(n, len).Some?
    ensures |Padded(n, len).value| == len && ToNat(Padded(n, len).value) == n
  {
    NatOfMinimal(n);
    LeadingZeros(len - |Minimal(n)|, Minimal(n));
  }

  /** Padding a string's number back to the string's width gives the string. */
  lemma {:induction false} PaddedOfNat(s: bytes)
    ensures Padded(ToNat(s), |s|) == Some(s)
  {
    hide ToNat, Minimal;
    if s == [] || s[0] != 0 {
      MinimalOfNat(s);
      assert ZeroOctets(0) + s == s;
    } else {
      var rest := s[1..];
      PaddedOfNat(rest);
      assert ZeroOctets(1) + rest == s;
      LeadingZeros(1, rest);
      var m := Minimal(ToNat(s));
      assert ZeroOctets(|rest| - |m|) + m == rest;
      assert [0] + rest == s;
      assert ZeroOctets(|s| - |m|) + m == [0] + rest;
    }
  }

  /** Padding fits exactly below 256^len. */
  lemma {:induction false} PaddedIff(n: nat, len: nat)
    ensures Padded(n, len).Some? <==> n < Pow256(len)
  {
    if n > 0 && len > 0 {
      PaddedIff(n / 256, len - 1);
    }
  }

  /** b bits are enough exactly below 2^b. */
  lemma {:induction false} BitLengthIff(n: nat, b: nat)
    ensures BitLength(n) <= b <==> n < Bits.Pow2(b)
  {
    if n > 0 && b > 0 {
      BitLengthIff(n / 2, b - 1);
    }
  }
}
