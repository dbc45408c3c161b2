/** A library that tells one key from all others, and a signature it accepts. */
module Picky {
  import opened Bytes
  import opened Keys
  import opened Verify
  import opened Thumbprint
  import Ecdsa

  /** Verifies everything under one EVP_PKEY or secret, and nothing under any other. */
  function PickyEnv(hmac: bool, k: Key): Env
  {
    Env(hmac, (p, _, _, _, _) => if Some(p) == k.pkey then Verified else Rejected,
        (_, _, _, _, _) => None, (s, _, _) => if s == k.secret then Some([7]) else None, b => Some(b),
        _ => None, _ => None, (_, _) => true, (_, _, _) => true, (_, _) => true, _ => None, _ => None)
  }

  lemma PickyBuild(hmac: bool, k: Key)
    ensures PickyEnv(hmac, k).hmac == hmac
  {
  }

  function ZeroSignature(a: Alg): (sig: bytes)
    ensures a.family == Ecdsa ==> |sig| == 2 * a.coordLen
  {
    if a.family == Ecdsa then seq(2 * a.coordLen, _ => 0) else [7]
  }

  /** The same public key, or the same secret. */
  predicate SameKey(k: Key, l: Key)
  {
    k.pkey == l.pkey && (k.kty == OCT ==> k.secret == l.secret)
  }

  /** A key verifies the zero signature under k's own library exactly when it is compatible and k's equal. */
  lemma PickyVerifies(hmac: bool, k: Key, l: Key, a: Alg)
    requires WellTyped(k) && WellTyped(l) && a in Algs(hmac) && Compatible(k, a)
    ensures ZeroSignature(a) != []
    ensures Verifies(PickyEnv(hmac, k), l, a, [], ZeroSignature(a)) <==> Compatible(l, a) && SameKey(k, l)
  {
    hide Algs, Ascii, Ecdsa.RawToDer;
    Widths(hmac, a);
    Ecdsa.RawToDerTotal(ZeroSignature(a), if a.family == Ecdsa then a.coordLen else 0);
    assert k.kty != OCT ==> k.pkey.Some?;
    assert l.kty != OCT ==> l.pkey.Some?;
  }

  lemma Widths(hmac: bool, a: Alg)
    requires a in Algs(hmac)
    ensures a.family == Ecdsa ==> 0 < a.coordLen <= 66
  {
    RowsByFamily(hmac, a);
  }

  lemma NameNotEmpty(hmac: bool, a: Alg)
    requires a in Algs(hmac)
    ensures Ascii(a.name) != []
  {
    hide Algs;
    TableNames(hmac, a);
  }

  /** Compatible keys that are the same key give the same verdicts. */
  lemma SameVerdict(env: Env, k: Key, l: Key, a: Alg, msg: bytes, sig: bytes)
    requires SameKey(k, l) && Compatible(k, a) && Compatible(l, a)
    ensures Verifies(env, k, a, msg, sig) <==> Verifies(env, l, a, msg, sig)
  {
    hide Ascii, Ecdsa.RawToDer;
  }

  lemma VerifiesIsCompatible(env: Env, k: Key, a: Alg, msg: bytes, sig: bytes)
    requires Verifies(env, k, a, msg, sig)
    ensures Compatible(k, a)
  {
    hide Ascii;
  }
}
