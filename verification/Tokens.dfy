/** Issuing and decoding in full: what is in a token, octet by octet, and exactly when there is one. */
module Tokens {
  import opened Bytes
  import opened Keys
  import opened Compact
  import opened Issue
  import Base64url
  import CompactJson
  import Jwa
  import Verify

  /** A segment that decodes to the text of a JSON object. */
  predicate HoldsObject(env: Env, b64: bytes)
  {
    && Base64url.Decode(b64).Some?
    && var json := env.parse(Base64url.Decode(b64).value); json.Some? && json.value.Object?
  }

  function ObjectIn(env: Env, b64: bytes): Json
    requires HoldsObject(env, b64)
  {
    env.parse(Base64url.Decode(b64).value).value
  }

  /** The text of a string member, nothing when it is missing or no string. */
  function TextOf(members: seq<(bytes, Json)>, name: string): bytes
  {
    match Member(members, Ascii(name))
    case Some(String(text)) => text
    case _ => []
  }

  /** A token of three segments decodes exactly within the limits, with readable segments, to what they hold. */
  lemma DecodedIff(env: Env, h: bytes, p: bytes, s: bytes)
    requires FreeOf(46, h) && FreeOf(46, p) && FreeOf(46, s)
    ensures var token := h + [46] + p + [46] + s;
      && (DecodeToken(env, token).Some? <==>
            && 0 < |h| <= 8192 && 0 < |p| && |token| <= 16384
            && HoldsObject(env, h) && HoldsObject(env, p) && Base64url.Decode(s).Some?)
      && (DecodeToken(env, token).Some? ==>
            var d := DecodeToken(env, token).value;
            && d.header == ObjectIn(env, h) && d.payload == ObjectIn(env, p)
            && d.claim == Verify.Claim(TextOf(ObjectIn(env, h).members, "alg"), TextOf(ObjectIn(env, h).members, "kid"),
                                       h + [46] + p, Base64url.Decode(s).value))
  {
    hide Base64url.Decode, Ascii, Member;
    var parts, token := Segments(h, p, s), h + [46] + p + [46] + s;
    assert parts.Join() == token;
    JoinHasSeparators(parts);
    SplitAtDots(token, |h|, |h| + 1 + |p|);
  }

  /** Nothing else decodes: a token with other than two dots is refused. */
  lemma DecodedHasThreeSegments(env: Env, token: bytes) returns (h: bytes, p: bytes, s: bytes)
    requires DecodeToken(env, token).Some?
    ensures FreeOf(46, h) && FreeOf(46, p) && FreeOf(46, s) && token == h + [46] + p + [46] + s
  {
    var parts := Split(token).value;
    h, p, s := parts.header, parts.payload, parts.signature;
  }

  /** The quoted kid, when there is a kid. */
  function QuotedKid(env: Env, kid: bytes): Option<bytes>
  {
    if kid == [] then None else env.quote(kid)
  }

  /** The first two segments, joined: what is signed. */
  function SignedText(env: Env, alg: bytes, kid: bytes, claims: bytes): bytes
  {
    Base64url.Encode(CompactJson.HeaderText(alg, QuotedKid(env, kid))) + [46] + Base64url.Encode(claims)
  }

  /** What issuing demands before it signs. */
  predicate Signable(env: Env, alg: bytes, kid: bytes, claims: bytes)
  {
    && Jwa.SuiteOf(env.hmac, alg) != Jwa.Unknown
    && |claims| <= 16384
    && env.parse(claims).Some? && env.parse(claims).value.Object?
    && (kid == [] || env.quote(kid).Some?)
    && |Base64url.Encode(CompactJson.HeaderText(alg, QuotedKid(env, kid)))| <= 8192
  }

  /**
   * A token is issued exactly for a known algorithm, claims that are an object, a
   * kid that can be quoted, a key that signs, and sizes within the limits; it is
   * the signed text, a dot and the encoded signature.
   */
  lemma IssuedIff(env: Env, alg: bytes, kid: bytes, claims: bytes, key: bytes, nonce: nat)
    ensures var text := SignedText(env, alg, kid, claims);
      var sig := Jwa.Makes(env, Jwa.SuiteOf(env.hmac, alg), key, text, nonce);
      && (Issued(env, alg, kid, claims, key, nonce).Some? <==>
            Signable(env, alg, kid, claims) && sig.Some? && |text + [46] + Base64url.Encode(sig.value)| <= 16384)
      && (Issued(env, alg, kid, claims, key, nonce).Some? ==>
            Issued(env, alg, kid, claims, key, nonce).value == text + [46] + Base64url.Encode(sig.value))
  {
    hide Base64url.Encode, Lookup, SignatureFor, Jwa.Makes, Jwa.SuiteOf, HeaderFor, CompactJson.HeaderText, Ascii;
    Jwa.TableIsJwa(env, alg);
    if Lookup(env, alg).Some? {
      var a := Lookup(env, alg).value;
      LookupRow(env, alg);
      CompactJson.HeaderForIsText(env, a.name, kid);
      Jwa.SignatureIsSuites(env, alg, key, SignedText(env, alg, kid, claims), nonce);
    }
  }
}
