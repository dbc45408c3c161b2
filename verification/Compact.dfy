/** Compact serialization, section 3.1 of RFC 7515: splitting, joining and decoding a token. */
module Compact {
  import opened Bytes
  import opened Keys
  import Base64url
  import Verify

  const MAX_JWT_SIZE := 16384
  const MAX_JWT_HEADER := 8192
  const DOT: byte := Base64url.DOT

  datatype Segments = Segments(header: bytes, payload: bytes, signature: bytes) {
    /** The octets that are signed. */
    function Signing(): bytes
    {
      header + [DOT] + payload
    }

    function Join(): bytes
    {
      Signing() + [DOT] + signature
    }

    /** Dot-free parts within the decoder's limits. */
    predicate Valid()
    {
      && FreeOf(DOT, header) && FreeOf(DOT, payload) && FreeOf(DOT, signature)
      && 0 < |header| <= MAX_JWT_HEADER && payload != []
    }
  }

  // ---------------------------------------------------------------- splitting

  /** The dots of token stand at d1 and d2 and nowhere else. */
  ghost predicate Separators(token: bytes, d1: int, d2: int)
  {
    && 0 <= d1 < d2 < |token|
    && forall i :: 0 <= i < |token| ==> (token[i] == DOT <==> i == d1 || i == d2)
  }

  function Cut(token: bytes, d1: int, d2: int): Segments
    requires 0 <= d1 < d2 < |token|
  {
    Segments(token[..d1], token[d1 + 1..d2], token[d2 + 1..])
  }

  /** Two dots cut a token into dot-free parts that rejoin to it; no other cut does. */
  lemma CutIsJoin(token: bytes, d1: int, d2: int)
    requires Separators(token, d1, d2)
    ensures Cut(token, d1, d2).Join() == token
    ensures Cut(token, d1, d2).Signing() == token[..d2]
    ensures Cut(token, d1, d2).Valid() <==> 0 < d1 <= MAX_JWT_HEADER && d1 + 1 < d2
  {
  }

  lemma JoinHasSeparators(s: Segments)
    requires FreeOf(DOT, s.header) && FreeOf(DOT, s.payload) && FreeOf(DOT, s.signature)
    ensures Separators(s.Join(), |s.header|, |s.header| + 1 + |s.payload|)
    ensures Cut(s.Join(), |s.header|, |s.header| + 1 + |s.payload|) == s
  {
    var t := s.Join();
    var d1, d2 := |s.header|, |s.header| + 1 + |s.payload|;
    forall i | 0 <= i < |t| ensures t[i] == DOT <==> i == d1 || i == d2 {
      if i < d1 {
        assert t[i] == s.header[i];
      } else if d1 < i < d2 {
        assert t[i] == s.payload[i - d1 - 1];
      } else if d2 < i {
        assert t[i] == s.signature[i - d2 - 1];
      }
    }
  }

  lemma SeparatorsUnique(token: bytes, d1: int, d2: int, e1: int, e2: int)
    requires Separators(token, d1, d2) && Separators(token, e1, e2)
    ensures d1 == e1 && d2 == e2
  {
    assert token[d1] == DOT && token[d2] == DOT && token[e1] == DOT && token[e2] == DOT;
  }

  /** The segments of a token, if valid parts rejoin to it. */
  ghost function Split(token: bytes): (r: Option<Segments>)
    ensures r.Some? ==> r.value.Valid() && r.value.Join() == token
    ensures r.None? ==> forall s: Segments :: s.Valid() ==> s.Join() != token
  {
    if s: Segments :| s.Valid() && s.Join() == token then Some(s) else None
  }

  /** Joining is undone by splitting. */
  lemma SplitJoin(s: Segments)
    requires s.Valid()
    ensures Split(s.Join()) == Some(s)
  {
    var t := Split(s.Join()).value;
    JoinHasSeparators(s);
    JoinHasSeparators(t);
    SeparatorsUnique(s.Join(), |s.header|, |s.header| + 1 + |s.payload|, |t.header|, |t.header| + 1 + |t.payload|);
  }

  ghost predicate Splittable(token: bytes)
  {
    exists d1, d2 :: Separators(token, d1, d2) && 0 < d1 <= MAX_JWT_HEADER && d1 + 1 < d2
  }

  /** The scan's two dots decide. */
  lemma SplitAtDots(token: bytes, d1: int, d2: int)
    requires Separators(token, d1, d2)
    ensures Split(token) == if Cut(token, d1, d2).Valid() then Some(Cut(token, d1, d2)) else None
    ensures Splittable(token) <==> 0 < d1 <= MAX_JWT_HEADER && d1 + 1 < d2
    ensures Cut(token, d1, d2).Valid() <==> 0 < d1 <= MAX_JWT_HEADER && d1 + 1 < d2
  {
    CutIsJoin(token, d1, d2);
    if Cut(token, d1, d2).Valid() {
      SplitJoin(Cut(token, d1, d2));
    } else if Split(token).Some? {
      var s := Split(token).value;
      JoinHasSeparators(s);
      SeparatorsUnique(token, d1, d2, |s.header|, |s.header| + 1 + |s.payload|);
      assert false;
    }
    if Splittable(token) {
      var e1, e2 :| Separators(token, e1, e2) && 0 < e1 <= MAX_JWT_HEADER && e1 + 1 < e2;
      SeparatorsUnique(token, d1, d2, e1, e2);
    }
  }

  /** Without exactly two dots there is nothing to split. */
  lemma SplitNowhere(token: bytes)
    requires forall d1, d2 :: !Separators(token, d1, d2)
    ensures Split(token) == None && !Splittable(token)
  {
    if Split(token).Some? {
      JoinHasSeparators(Split(token).value);
    }
  }

  lemma ThreeDots(token: bytes, a: int, b: int, c: int)
    requires 0 <= a < b < c < |token| && token[a] == DOT && token[b] == DOT && token[c] == DOT
    ensures Split(token) == None && !Splittable(token)
  {
    SplitNowhere(token);
  }

  lemma DotsAtSeparators(token: bytes, d1: int, d2: int)
    requires Separators(token, d1, d2)
    ensures token[d1] == DOT && token[d2] == DOT
  {
  }

  lemma TooFewDots(token: bytes, d: int)
    requires forall i :: 0 <= i < |token| && token[i] == DOT ==> i == d
    ensures Split(token) == None && !Splittable(token)
  {
    forall d1, d2 ensures !Separators(token, d1, d2) {
      if Separators(token, d1, d2) {
        DotsAtSeparators(token, d1, d2);
      }
    }
    SplitNowhere(token);
  }

  /** nxe_jwx_split_segments: one scan for two dots and no third. */
  method SplitSegments(token: bytes) returns (r: Option<Segments>)
    ensures r == Split(token)
    ensures r.Some? <==> Splittable(token)
    ensures r.Some? ==> token[..|r.value.Signing()|] == r.value.Signing()
  {
    hide Split, Splittable;
    var dot1, dot2 := -1, -1;
    var q := 0;
    while q < |token|
      invariant 0 <= q <= |token| && -1 <= dot2 < q && -1 <= dot1 < q
      invariant dot1 == -1 ==> dot2 == -1
      invariant dot2 >= 0 ==> 0 <= dot1 < dot2
      invariant forall i :: 0 <= i < q ==> (token[i] == DOT <==> i == dot1 || i == dot2)
    {
      if token[q] == DOT {
        if dot1 == -1 {
          dot1 := q;
        } else if dot2 == -1 {
          dot2 := q;
        } else {
          ThreeDots(token, dot1, dot2, q);
          return None;
        }
      }
      q := q + 1;
    }
    if dot1 == -1 || dot2 == -1 {
      TooFewDots(token, dot1);
      return None;
    }
    SplitAtDots(token, dot1, dot2);
    CutIsJoin(token, dot1, dot2);
    var s := Cut(token, dot1, dot2);
    if s.header == [] || s.payload == [] {
      return None;
    }
    if |s.header| > MAX_JWT_HEADER {
      return None;
    }
    return Some(s);
  }

  // ---------------------------------------------------------------- decoding

  /** What a decoded token holds. */
  datatype Decoded = Decoded(header: Json, payload: Json, claim: Verify.Claim)

  /** nxe_jwx_parse_json_object after nxe_jwx_decode_b64url. */
  function ParseObject(env: Env, b64: bytes): (r: Option<Json>)
    ensures r.Some? ==> r.value.Object?
  {
    var raw := Base64url.Decode(b64);
    if raw.None? then None
    else
      var json := env.parse(raw.value);
      if json.Some? && json.value.Object? then json else None
  }

  /** The decoded form of a token, if it is accepted. */
  ghost function DecodeToken(env: Env, token: bytes): Option<Decoded>
  {
    var s := Split(token);
    if token == [] || |token| > MAX_JWT_SIZE || s.None? then None
    else
      var header, payload := ParseObject(env, s.value.header), ParseObject(env, s.value.payload);
      var signature := Base64url.Decode(s.value.signature);
      if header.None? || payload.None? || signature.None? then None
      else
        Some(Decoded(header.value, payload.value,
                     Verify.Claim(StringMember(header.value, "alg"), StringMember(header.value, "kid"),
                                  s.value.Signing(), signature.value)))
  }

  /** struct nxe_jwx_token_s. */
  class Token {
    var header: Option<Json>
    var payload: Option<Json>
    var alg: bytes
    var kid: bytes
    var signingInput: bytes
    var signature: bytes

    /** ngx_pcalloc: all fields zero. */
    constructor ()
      ensures header == None && payload == None && alg == [] && kid == [] && signingInput == [] && signature == []
    {
      header, payload, alg, kid, signingInput, signature := None, None, [], [], [], [];
    }

    predicate Holds(d: Decoded)
      reads this
    {
      && header == Some(d.header) && payload == Some(d.payload)
      && d.claim == Verify.Claim(alg, kid, signingInput, signature)
    }
  }

  /** nxe_jwx_decode: the token's fields are filled one after the other, or nothing is returned. */
  method Decode(env: Env, token: bytes) returns (t: Token?)
    ensures t == null <==> DecodeToken(env, token).None?
    ensures t != null ==> fresh(t) && t.Holds(DecodeToken(env, token).value)
  {
    if token == [] || |token| > MAX_JWT_SIZE {
      return null;
    }
    var s := SplitSegments(token);
    if s.None? {
      return null;
    }
    var r := new Token();
    r.signingInput := s.value.Signing();
    r.header := DecodeObject(env, s.value.header);
    if r.header.None? {
      return null;
    }
    r.payload := DecodeObject(env, s.value.payload);
    if r.payload.None? {
      return null;
    }
    if s.value.signature != [] {
      var signature := Base64url.DecodeBuffer(s.value.signature);
      if signature.None? {
        return null;
      }
      r.signature := signature.value;
    } else {
      Base64url.DecodeEmpty();
    }
    r.alg := StringMember(r.header.value, "alg");
    r.kid := StringMember(r.header.value, "kid");
    return r;
  }

  method DecodeObject(env: Env, b64: bytes) returns (r: Option<Json>)
    ensures r == ParseObject(env, b64)
  {
    var raw := Base64url.DecodeBuffer(b64);
    if raw.None? {
      return None;
    }
    var json := env.parse(raw.value);
    return if json.Some? && json.value.Object? then json else None;
  }

  /** Joined parts decode exactly when they fit and each part is readable; what is signed is header.payload. */
  lemma DecodeJoined(env: Env, s: Segments)
    requires s.Valid()
    ensures var header, payload := ParseObject(env, s.header), ParseObject(env, s.payload);
      var d := DecodeToken(env, s.Join());
      && (d.Some? <==>
            (|s.Join()| <= MAX_JWT_SIZE && header.Some? && payload.Some? && Base64url.Decode(s.signature).Some?))
      && (d.Some? ==> d.value.header == header.value && d.value.payload == payload.value
                      && d.value.claim.signingInput == s.Signing()
                      && Some(d.value.claim.signature) == Base64url.Decode(s.signature))
  {
    hide Base64url.Decode, ParseObject;
    SplitJoin(s);
  }

  /** A token with an empty signature segment can be decoded, but no keyset verifies it. */
  lemma UnsignedNeverVerifies(env: Env, s: Segments, keys: seq<Key>)
    requires s.Valid() && s.signature == [] && DecodeToken(env, s.Join()).Some?
    ensures !Verify.Policy(env, DecodeToken(env, s.Join()).value.claim, keys)
  {
    hide Base64url.Decode, ParseObject;
    DecodeJoined(env, s);
    Base64url.DecodeEmpty();
  }
}
