/**
 * Two comments let keys labelled otherwise verify a token: all keys once those
 * with its kid have failed, or all keys when none carries its kid. Both are
 * measured against the passes the code makes.
 */
module Fallback {
  import opened Bytes
  import opened Keys
  import opened Verify
  import opened Thumbprint
  import opened Picky
  import Raw
  import Jwks

  /** The file comment's policy: whatever its label, some key verifies. */
  predicate LoosePolicy(env: Env, t: Claim, keys: seq<Key>)
  {
    && Lookup(env, t.alg).Some?
    && t.signature != []
    && exists i :: 0 <= i < |keys| && Verifies(env, keys[i], Lookup(env, t.alg).value, t.signingInput, t.signature)
  }

  /** The code accepts nothing that the comment would not. */
  lemma PolicyIsStricter(env: Env, t: Claim, keys: seq<Key>)
    requires Policy(env, t, keys)
    ensures LoosePolicy(env, t, keys)
  {
    hide Lookup, Verifies, Eligible;
  }

  /** Comment and code agree on every token with that alg and kid, whatever the libraries answer. */
  ghost predicate Agree(hmac: bool, keys: seq<Key>, alg: bytes, kid: bytes)
  {
    forall e: Env, msg: bytes, sig: bytes :: e.hmac == hmac ==>
      (Policy(e, Claim(alg, kid, msg, sig), keys) <==> LoosePolicy(e, Claim(alg, kid, msg, sig), keys))
  }

  /** k is also there under a label the kid rule admits. */
  predicate Covered(keys: seq<Key>, a: Alg, kid: bytes, k: Key)
  {
    exists l <- keys :: Eligible(keys, kid, l) && Compatible(l, a) && SameKey(k, l)
  }

  /** Every key the algorithm could use is covered. */
  predicate LabelsCover(keys: seq<Key>, a: Alg, kid: bytes)
  {
    forall k <- keys :: Compatible(k, a) ==> Covered(keys, a, kid, k)
  }

  lemma CoveredBy(keys: seq<Key>, a: Alg, kid: bytes, k: Key) returns (j: nat)
    requires Covered(keys, a, kid, k)
    ensures j < |keys| && Eligible(keys, kid, keys[j]) && Compatible(keys[j], a) && SameKey(k, keys[j])
  {
    hide Compatible, Eligible, SameKey;
    var l :| l in keys && Eligible(keys, kid, l) && Compatible(l, a) && SameKey(k, l);
    j :| 0 <= j < |keys| && keys[j] == l;
  }

  lemma CoverSuffices(e: Env, keys: seq<Key>, a: Alg, t: Claim)
    requires LabelsCover(keys, a, t.kid) && Lookup(e, t.alg) == Some(a) && LoosePolicy(e, t, keys)
    ensures Policy(e, t, keys)
  {
    hide Lookup, Verifies, Compatible, Eligible, SameKey, Covered;
    var i :| 0 <= i < |keys| && Verifies(e, keys[i], a, t.signingInput, t.signature);
    VerifiesIsCompatible(e, keys[i], a, t.signingInput, t.signature);
    var j := CoveredBy(keys, a, t.kid, keys[i]);
    SameVerdict(e, keys[i], keys[j], a, t.signingInput, t.signature);
  }

  /** Comment and code agree on an algorithm and a kid exactly when the labels cover every key it could use. */
  lemma AgreeIff(hmac: bool, keys: seq<Key>, a: Alg, kid: bytes)
    requires a in Algs(hmac) && forall k <- keys :: WellTyped(k)
    ensures Agree(hmac, keys, Ascii(a.name), kid) <==> LabelsCover(keys, a, kid)
  {
    hide Lookup, Algs, Verifies, Compatible, Eligible, SameKey, WellTyped, PickyEnv, ZeroSignature, Ascii,
         Policy, LoosePolicy, Covered;
    if LabelsCover(keys, a, kid) {
      forall e: Env, msg: bytes, sig: bytes | e.hmac == hmac
        ensures Policy(e, Claim(Ascii(a.name), kid, msg, sig), keys) <==>
                LoosePolicy(e, Claim(Ascii(a.name), kid, msg, sig), keys)
      {
        var t := Claim(Ascii(a.name), kid, msg, sig);
        Raw.LookupOwnName(e, a);
        if Policy(e, t, keys) { PolicyIsStricter(e, t, keys); }
        if LoosePolicy(e, t, keys) { CoverSuffices(e, keys, a, t); }
      }
    }
    if Agree(hmac, keys, Ascii(a.name), kid) {
      forall k | k in keys && Compatible(k, a)
        ensures Covered(keys, a, kid, k)
      {
        PickyBuild(hmac, k);
        AgreementCovers(hmac, keys, a, kid, k);
      }
    }
  }

  /** Where they agree for k's own library, an eligible key is k's equal. */
  lemma AgreementCovers(hmac: bool, keys: seq<Key>, a: Alg, kid: bytes, k: Key)
    requires a in Algs(hmac) && (forall l <- keys :: WellTyped(l)) && k in keys && Compatible(k, a)
    requires var e, t := PickyEnv(hmac, k), Claim(Ascii(a.name), kid, [], ZeroSignature(a));
      Policy(e, t, keys) <==> LoosePolicy(e, t, keys)
    ensures Covered(keys, a, kid, k)
  {
    hide Lookup, Algs, Verifies, Compatible, Eligible, WellTyped, PickyEnv, ZeroSignature, Ascii;
    var e, t := PickyEnv(hmac, k), Claim(Ascii(a.name), kid, [], ZeroSignature(a));
    PickyBuild(hmac, k);
    Raw.LookupOwnName(e, a);
    PickyVerifies(hmac, k, k, a);
    assert exists i :: 0 <= i < |keys| && keys[i] == k;
    var i :| 0 <= i < |keys| && Eligible(keys, kid, keys[i]) && Verifies(e, keys[i], a, [], ZeroSignature(a));
    PickyVerifies(hmac, k, keys[i], a);
  }

  /** The other comment's policy: only the keys with the token's kid or, when there are none, any key. */
  predicate UnmatchedPolicy(env: Env, t: Claim, keys: seq<Key>)
  {
    if HasKid(keys, t.kid) then Policy(env, t, keys) else LoosePolicy(env, t, keys)
  }

  ghost predicate AgreeUnmatched(hmac: bool, keys: seq<Key>, alg: bytes, kid: bytes)
  {
    forall e: Env, msg: bytes, sig: bytes :: e.hmac == hmac ==>
      (Policy(e, Claim(alg, kid, msg, sig), keys) <==> UnmatchedPolicy(e, Claim(alg, kid, msg, sig), keys))
  }

  /** That comment and the code agree exactly when some key carries the kid or the labels cover every key. */
  lemma AgreeUnmatchedIff(hmac: bool, keys: seq<Key>, a: Alg, kid: bytes)
    requires a in Algs(hmac) && forall k <- keys :: WellTyped(k)
    ensures AgreeUnmatched(hmac, keys, Ascii(a.name), kid) <==> HasKid(keys, kid) || LabelsCover(keys, a, kid)
  {
    hide Policy, LoosePolicy, LabelsCover, HasKid, Algs, Ascii, WellTyped;
    AgreeIff(hmac, keys, a, kid);
    if !HasKid(keys, kid) {
      assert AgreeUnmatched(hmac, keys, Ascii(a.name), kid) <==> Agree(hmac, keys, Ascii(a.name), kid);
    }
  }

  /** A library that loads every text as the same RSA key and accepts every signature. */
  function LabelEnv(): Env
  {
    Env(false, (_, _, _, _, _) => Verified, (_, _, _, _, _) => None, (_, _, _) => None, b => Some(b),
        _ => None, _ => Some(RsaKey(Plain, 3, 1)), (_, _) => true, (_, _, _) => true, (_, _) => true,
        _ => Some(Object([([107], String([1]))])), _ => None)
  }

  lemma FirstRow()
    ensures RSA_ALGS[0] in Algs(false) && RSA_ALGS[0].name == "RS256" && RSA_ALGS[0].family == Rsa
  {
  }

  /** What the document stores. */
  function LabelKey(): Key
  {
    var k := Key(RSA, [107], [], [], [], Some(RsaKey(Plain, 3, 1)), []);
    k.(thumbprint := ThumbprintOf(LabelEnv(), k))
  }

  lemma LabelDocument(doc: bytes)
    requires 0 < |doc| <= Jwks.MAX_JWKS_SIZE
    ensures Jwks.KeyvalKeys(LabelEnv(), doc) == Some([LabelKey()])
  {
    hide ThumbprintOf;
    var ps := Jwks.ReadAllPem(LabelEnv(), [([107], String([1]))]);
    assert ps == [Jwks.Usable(LabelKey())];
    Jwks.CollectUsable(ps, [LabelKey()]);
  }

  /** A document's only key is labelled k: both comments let it verify a token that names m, the code does not. */
  lemma LabelMatters(doc: bytes) returns (keys: seq<Key>)
    requires 0 < |doc| <= Jwks.MAX_JWKS_SIZE
    ensures Jwks.KeyvalKeys(LabelEnv(), doc) == Some(keys)
    ensures var t := Claim(Ascii("RS256"), [109], [], [7]);
      && LoosePolicy(LabelEnv(), t, keys) && UnmatchedPolicy(LabelEnv(), t, keys)
      && !Policy(LabelEnv(), t, keys)
  {
    hide ThumbprintOf, Ascii, Algs, Lookup, Jwks.KeyvalKeys;
    LabelDocument(doc);
    keys := [LabelKey()];
    FirstRow();
    Raw.LookupOwnName(LabelEnv(), RSA_ALGS[0]);
    assert Verifies(LabelEnv(), keys[0], RSA_ALGS[0], [], [7]);
  }
}
