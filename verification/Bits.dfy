/** Fixed-width digits and the bit strings they spell, most significant bit first. */
module Bits {

  function Pow2(n: nat): (p: nat)
    ensures p >= 1
  {
    if n == 0 then 1 else 2 * Pow2(n - 1)
  }

  /** x shifted right by n places. */
  function Shr(x: nat, n: nat): nat
  {
    if n == 0 then x else Shr(x / 2, n - 1)
  }

  /** x shifted left by n places. */
  function Shl(x: nat, n: nat): nat
  {
    if n == 0 then x else 2 * Shl(x, n - 1)
  }

  /** The w low bits of x. */
  function ToBits(x: nat, w: nat): (b: seq<bool>)
    ensures |b| == w
  {
    if w == 0 then [] else ToBits(x / 2, w - 1) + [x % 2 == 1]
  }

  function FromBits(b: seq<bool>): (x: nat)
    ensures x < Pow2(|b|)
  {
    if b == [] then 0 else 2 * FromBits(b[..|b| - 1]) + if b[|b| - 1] then 1 else 0
  }

  /** The concatenation of w-bit digits. */
  function Spread(w: nat, digits: seq<nat>): (b: seq<bool>)
  {
    if digits == [] then [] else ToBits(digits[0], w) + Spread(w, digits[1..])
  }

  /** The complete w-bit groups of a bit string; an incomplete last group is dropped. */
  function Gather(w: nat, b: seq<bool>): (digits: seq<nat>)
    requires w > 0
    ensures forall i :: 0 <= i < |digits| ==> digits[i] < Pow2(w)
    decreases |b|
  {
    if |b| < w then [] else [FromBits(b[..w])] + Gather(w, b[w..])
  }

  function Zeros(n: nat): (b: seq<bool>)
    ensures |b| == n && forall i :: 0 <= i < n ==> !b[i]
  {
    seq(n, _ => false)
  }

  lemma {:induction false} ToFromBits(b: seq<bool>)
    ensures ToBits(FromBits(b), |b|) == b
  {
    if b != [] {
      ToFromBits(b[..|b| - 1]);
      assert FromBits(b) / 2 == FromBits(b[..|b| - 1]);
      assert b == b[..|b| - 1] + [b[|b| - 1]];
    }
  }

  lemma {:induction false} FromToBits(x: nat, w: nat)
    requires x < Pow2(w)
    ensures FromBits(ToBits(x, w)) == x
  {
    if w > 0 {
      FromToBits(x / 2, w - 1);
      assert ToBits(x, w)[..w - 1] == ToBits(x / 2, w - 1);
    }
  }

  /** Only the low w bits of x are read. */
  lemma {:induction false} ToBitsLow(x: nat, k: nat, m: nat, w: nat)
    requires w <= m
    ensures ToBits(x + Shl(k, m), w) == ToBits(x, w)
  {
    if w > 0 {
      var y := Shl(k, m - 1);
      assert (x + 2 * y) / 2 == x / 2 + y && (x + 2 * y) % 2 == x % 2;
      ToBitsLow(x / 2, k, m - 1, w - 1);
    }
  }

  /** A number put together from a high part and a b-bit low part. */
  lemma {:induction false} ToBitsJoin(hi: nat, lo: nat, a: nat, b: nat)
    requires lo < Pow2(b)
    ensures ToBits(Shl(hi, b) + lo, a + b) == ToBits(hi, a) + ToBits(lo, b)
  {
    if b > 0 {
      var y := Shl(hi, b - 1);
      assert (2 * y + lo) / 2 == y + lo / 2 && (2 * y + lo) % 2 == lo % 2;
      ToBitsJoin(hi, lo / 2, a, b - 1);
      assert ToBits(Shl(hi, b) + lo, a + b) == ToBits(y + lo / 2, a + b - 1) + [lo % 2 == 1];
    }
  }

  lemma {:induction false} ToBitsZero(w: nat)
    ensures ToBits(0, w) == Zeros(w)
  {
    if w > 0 {
      ToBitsZero(w - 1);
    }
  }

  /** A digit splits at any bit position. */
  lemma {:induction false} ToBitsSplit(x: nat, a: nat, b: nat)
    ensures ToBits(x, a + b) == ToBits(Shr(x, b), a) + ToBits(x, b)
  {
    if b > 0 {
      ToBitsSplit(x / 2, a, b - 1);
      assert ToBits(x, a + b) == ToBits(x / 2, a + b - 1) + [x % 2 == 1];
      assert ToBits(x, b) == ToBits(x / 2, b - 1) + [x % 2 == 1];
    }
  }

  lemma {:induction false} ShlAdd(x: nat, a: nat, b: nat)
    ensures Shl(Shl(x, a), b) == Shl(x, a + b)
  {
    if b > 0 {
      ShlAdd(x, a, b - 1);
    }
  }

  lemma ShlTwo()
    ensures forall y: nat :: Shl(y, 2) == 4 * y
  {
    forall y: nat ensures Shl(y, 2) == 4 * y {
      assert Shl(y, 1) == 2 * y;
    }
  }

  lemma Shl6(x: nat)
    ensures Shl(x, 4) == 16 * x && Shl(x, 6) == 64 * x
  {
    ShlTwo();
    ShlAdd(x, 2, 2);
    ShlAdd(x, 4, 2);
  }

  lemma Shl8(x: nat)
    ensures Shl(x, 8) == 256 * x
  {
    Shl6(x);
    ShlTwo();
    ShlAdd(x, 6, 2);
  }

  lemma Shl32(x: nat)
    ensures Shl(x, 32) == 0x1_0000_0000 * x
  {
    ShlAdd(x, 8, 8);
    ShlAdd(x, 16, 8);
    ShlAdd(x, 24, 8);
    Shl8(x);
    Shl8(Shl(x, 8));
    Shl8(Shl(x, 16));
    Shl8(Shl(x, 24));
  }

  lemma {:induction false} SpreadLength(w: nat, digits: seq<nat>)
    ensures |Spread(w, digits)| == w * |digits|
  {
    if digits != [] {
      SpreadLength(w, digits[1..]);
      assert w * |digits| == w + w * (|digits| - 1);
    }
  }

  lemma Regroup(a: seq<bool>, b: seq<bool>, c: seq<bool>)
    ensures a + (b + c) == (a + b) + c
  {
  }

  lemma {:induction false} SpreadAppend(w: nat, a: seq<nat>, b: seq<nat>)
    ensures Spread(w, a + b) == Spread(w, a) + Spread(w, b)
  {
    hide ToBits;
    if a == [] {
      assert a + b == b;
      assert Spread(w, a) == [];
    } else {
      SpreadAppend(w, a[1..], b);
      assert (a + b)[1..] == a[1..] + b;
      Regroup(ToBits(a[0], w), Spread(w, a[1..]), Spread(w, b));
    }
  }

  lemma SpreadOne(w: nat, d: nat)
    ensures Spread(w, [d]) == ToBits(d, w)
  {
  }

  /** Gathering undoes spreading and ignores an incomplete tail. */
  lemma {:induction false} GatherSpread(w: nat, digits: seq<nat>, tail: seq<bool>)
    requires w > 0 && |tail| < w
    requires forall i :: 0 <= i < |digits| ==> digits[i] < Pow2(w)
    ensures Gather(w, Spread(w, digits) + tail) == digits
  {
    if digits == [] {
      assert Spread(w, digits) + tail == tail;
    } else {
      var b := Spread(w, digits) + tail;
      assert b == ToBits(digits[0], w) + (Spread(w, digits[1..]) + tail);
      assert b[..w] == ToBits(digits[0], w);
      assert b[w..] == Spread(w, digits[1..]) + tail;
      FromToBits(digits[0], w);
      GatherSpread(w, digits[1..], tail);
    }
  }

  /** Spreading undoes gathering up to the dropped tail, which is shorter than a digit. */
  lemma {:induction false} SpreadGather(w: nat, b: seq<bool>)
    requires w > 0
    ensures Spread(w, Gather(w, b)) <= b
    ensures |b| - w < |Spread(w, Gather(w, b))|
    decreases |b|
  {
    if |b| >= w {
      SpreadGather(w, b[w..]);
      ToFromBits(b[..w]);
      var g := Gather(w, b);
      assert g[1..] == Gather(w, b[w..]);
      assert Spread(w, g) == b[..w] + Spread(w, Gather(w, b[w..]));
      assert b == b[..w] + b[w..];
    }
  }

  lemma SpreadInjective(w: nat, a: seq<nat>, b: seq<nat>)
    requires w > 0
    requires forall i :: 0 <= i < |a| ==> a[i] < Pow2(w)
    requires forall i :: 0 <= i < |b| ==> b[i] < Pow2(w)
    requires Spread(w, a) == Spread(w, b)
    ensures a == b
  {
    hide Spread, Gather;
    GatherSpread(w, a, []);
    GatherSpread(w, b, []);
  }

  lemma CancelPrefix(a: seq<bool>, b: seq<bool>, c: seq<bool>)
    requires a + b == a + c
    ensures b == c
  {
    assert b == (a + b)[|a|..];
    assert c == (a + c)[|a|..];
  }
}
