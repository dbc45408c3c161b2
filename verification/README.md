# Verification of nxe-jwx

nxe-jwx decodes, verifies and issues compact JWS tokens, parses key documents
and computes JWK thumbprints. This project models its own logic in Dafny and
proves what the code promises about it. `dafny verify dfyconfig.toml` checks
everything.

| file | what it models |
|---|---|
| `Bytes`, `Bits` | octet strings, the three-valued status, the advancing write pointer; digits as bit strings |
| `Base64url` | the codec of `tests/ngx_compat/ngx_stub.c`: the 3-octet stride encoder and the 32-bit accumulator decoder |
| `BigNum`, `Der`, `Ecdsa` | big-endian integers, DER of SEQUENCE { INTEGER, INTEGER }, and the two signature forms |
| `Keys` | algorithm and curve tables, keys, and the foreign libraries as an `Env` of functions with their laws |
| `Verify`, `Raw` | the two-pass verifier, and detached verification by thumbprint and by kid |
| `Compact`, `Issue` | splitting, decoding and issuing tokens, and the end-to-end result |
| `Thumbprint`, `CompactJson` | the canonical JSON of RFC 7638: its writers, what it identifies, and a reference writer |
| `Jwks`, `Pool` | key documents as filters, and keysets on a pool with its cleanup list and every EVP_PKEY accounted for |
| `Jwa`, `Tokens`, `Entries` | reference definitions of verifying and signing by algorithm name, of a token's octets, and of a document's entries, each proved equal to what the code does |
| `ThumbprintLookup` | the stored thumbprint is the RFC 7638 digest, and finds its key |
| `Picky`, `Fallback` | libraries that tell keys apart; two comments' looser second pass against the code's |
| `FirstMatch` | when the lookup by thumbprint, which stops at the first match, does as well as trying all |
| `JwkRoundTrip`, `Publish` | keys and keysets written out as JWKs and read back, and the issuing key published to its verifiers |
| `Laws` | the assumed laws hold together in a concrete `Env`, and tokens are issued in it |

Main results: decoding undoes encoding for every octet string, and the converse
holds exactly on canonical strings (`Base64url.RoundTrip`,
`Base64url.ReencodeIffCanonical`); the fixed-width and DER signature forms are
inverse to each other (`Ecdsa`); the two-pass verifier is a short declarative
policy (`Verify.JwsVerify`, `Jwa.PolicyIff`) indifferent to order and foreign
labels; a canonical JSON text identifies a key
(`Thumbprint.CanonicalJsonInjective`); what is issued is determined octet by
octet (`Tokens.IssuedIff`); whatever is issued decodes to what was put in and
verifies against every keyset that holds an eligible matching key
(`Issue.IssuedVerifies`), in particular against every document that publishes
the issuing key (`Publish.IssuedVerifiesAgainstPublished`,
`Publish.IssuedVerifiesAgainstKeyval`); a keyset written out as a document
parses back to itself (`JwkRoundTrip.DocumentRoundTrip`); the lookup by
thumbprint is as good as trying every match exactly under a condition on types
and pins (`FirstMatch.FirstMatchIsEnoughIff`); and any run of parses and
releases, allocation failures included, releases every EVP_PKEY exactly once
(`Pool.Pool.Run`).

## How the source's terms are rendered

- An octet is an integer below 256. Shifts and masks are division and remainder
  by powers of two, and `|` of disjoint bits is a sum. The decoder's `int buf` is
  taken modulo 2^32; its sign never shows, because only its low 12 bits are read.
- OpenSSL and nxe-json are the total functions of `Keys.Env`: signature
  checking, signing (randomness is the `nonce` parameter), MACs, SHA-256, PEM
  loading, building a public key, JSON parsing and string quoting. `Keys.Lawful`
  states the laws used: verify accepts what sign produced for the matching key,
  digest and padding, and a plain RSA key what was signed with PSS padding (the
  code sets salt length and mask digest itself); an EC signature is the DER of two
  integers; signatures and MACs are not empty; a header parses to an object with its alg and kid.
- `Der` stands in for `i2d_ECDSA_SIG` and `d2i_ECDSA_SIG`, after sections 8.1.3
  and 8.3 of X.690. The reader accepts only minimal non-negative integers, takes
  any definite length form, and does not read past the sequence.
- An empty octet string stands for an absent kid, alg or crv, as a zero `len`
  does in the code. NXE_JWX_HAVE_HMAC is the field `Env.hmac`, so every result
  covers both builds.
- NULL-argument guards are preconditions by type: the arguments exist.
- A status of NGX_OK is `Ok`; the verification methods return `Ok` exactly when
  the stated policy holds and `Declined` otherwise.

## Where the code and its documentation differ

- `src/nxe_jwx_jws.c:11-15` says that after the keys with the token's kid all
  compatible keys are tried, and `src/nxe_jwx_jws.c:518-523` that differently
  labelled keys are when none carries the kid. The code, and
  `src/nxe_jwx_jws.h:34-47`, try only kid-less keys, and only when no key carries
  the kid. `Fallback.AgreeIff` and `Fallback.AgreeUnmatchedIff` say for which
  keysets each comment agrees with the code; `Fallback.LabelMatters` gives a
  document where neither does.
- `src/nxe_jwx_jwks.h:26-29` says a document is rejected when an RSA modulus is
  out of range. The code skips that entry and keeps the rest:
  `Jwks.OutOfRangeEntryIsDropped` says exactly when such a document is rejected,
  and `Publish.ShortModulusIsNoRejection` gives one that is not.
- `README.md:126-129` of the repository says out-of-range RSA keys are rejected
  at parse time. The keyval parser does not measure the modulus:
  `Jwks.ShortModulusIsStored` gives a document that stores a two-bit one, and
  `Jwks.KeyvalRangeIff` says exactly which documents store none out of range.
- The comment at `tests/ngx_compat/ngx_stub.c:108-111` speaks of missing or
  trailing '='; the decoder skips '=' anywhere (`Base64url.PadIgnored`).
- `src/nxe_jwx_jws.h:137-139` relies on the thumbprint's uniqueness to select one
  key. The thumbprint ignores a JWK's `alg`, and the RSASSA-PSS type of a PEM key
  together with its parameters, so two entries can share it. `FirstMatch.FirstMatchIsEnoughIff` says for which
  keysets looking at the first one alone is right; `FirstMatch.PinMatters`,
  `FirstMatch.PssMatters` and `FirstMatch.PssParametersMatter` give parsed
  documents where it is not.

## Model

| member | source | states |
|---|---|---|
| `Base64url.DecodeInto` | tests/ngx_compat/ngx_stub.c:112-143 | the accumulator loop, wrapping at 32 bits, fails exactly on a foreign character and otherwise writes the octets of the concatenated 6-bit groups, inside floor(3*len/4) octets |
| `Base64url.EncodeInto` | tests/ngx_compat/ngx_stub.c:151-181 | the stride loop writes the octets' bits regrouped by six, zero-filled at the end, inside ceil(len/3)*4 octets |
| `Base64url.RoundTrip` | tests/ngx_compat/ngx_stub.c:112-181 | decoding an encoded octet string gives it back, for every octet string |
| `Base64url.EncodeIsRfc4648` | tests/ngx_compat/ngx_stub.c:151-181 | the encoding is the text of RFC 4648 with the URL-safe table and without padding, group by group and by arithmetic |
| `Base64url.DecodesIff` | tests/ngx_compat/ngx_stub.c:118-131 | the decoder takes exactly the table's characters and '=' |
| `Base64url.ReencodeIffCanonical` | tests/ngx_compat/ngx_stub.c:112-181 | re-encoding a decoded string gives it back exactly when it has no '=', its length mod 4 is not 1 and its unused trailing bits are zero |
| `Base64url.DecodeLength` | tests/ngx_compat/ngx_stub.h:142-142 | n characters other than '=' decode to exactly floor(6n/8) octets, never more than the caller allocates |
| `Base64url.EncodeFits` | tests/ngx_compat/ngx_stub.h:143-143 | an encoding takes ceil(4n/3) characters, never more than the caller allocates |
| `Base64url.PadIgnored` | tests/ngx_compat/ngx_stub.c:124-129 | inserting '=' anywhere leaves the decoding as it was |
| `Base64url.EncodeInjective` | tests/ngx_compat/ngx_stub.c:151-181 | different octet strings have different encodings |
| `Base64url.DecodeBuffer` | src/nxe_jwx_decode.c:156-180 | the allocated buffer is large enough for the decoder on every input |
| `Base64url.EncodeBuffer` | src/nxe_jwx_jws.c:747-764 | the allocated buffer is large enough for the encoder on every input |
| `BigNum.PaddedOfNat` | src/nxe_jwx_jws.c:800-806 | reading octets as a number and padding back to their width is the identity |
| `BigNum.PaddedIff` | src/nxe_jwx_jws.c:794-806 | padding to a width succeeds exactly below 256^width |
| `BigNum.LeadingZeros` | src/nxe_jwx_jwks.c:548-561 | leading zero octets do not change the number read |
| `BigNum.BitLengthIff` | src/nxe_jwx_jwks.c:564-569 | a number has at most b bits exactly when it is below 2^b |
| `Der.SigRoundTrip` | src/nxe_jwx_jws.c:151-161 | reading a written signature gives its two integers back, whatever follows it |
| `Der.ShortSignature` | src/nxe_jwx_jws.c:151-161 | below 128 octets the signature is 30, its length, then 02, length and octets of R, then of S; those octets are written and read |
| `Der.LongSignature` | src/nxe_jwx_jws.c:784-788 | from 128 octets on, as P-521 needs, the length takes the form 81 and one octet; those octets are written and read |
| `Der.TolerantLength` | src/nxe_jwx_jws.c:784-788 | a length octet too many is tolerated when reading |
| `Der.NegativeIsRefused` | src/nxe_jwx_jws.c:784-788 | an integer with its top bit set is refused when reading |
| `Der.ReencodeIffCanonical` | src/nxe_jwx_jws.c:784-788 | writing what was read gives the input back exactly when its lengths are shortest and nothing follows |
| `Ecdsa.RawRoundTrip` | src/nxe_jwx_jws.c:117-172 | R and S of fixed width, to DER and back, is the identity for every width and signature |
| `Ecdsa.RawToDerTotal` | src/nxe_jwx_jws.c:127-141 | a signature of any width an int holds converts; exactly a wrong length is declined |
| `Ecdsa.DerToRawIff` | src/nxe_jwx_jws.c:784-807 | DER converts exactly when it parses and both integers are below 256^coord_len |
| `Ecdsa.DerRoundTripIff` | src/nxe_jwx_jws.c:773-816 | DER to fixed width and back is the identity exactly on canonical DER without trailing octets |
| `Ecdsa.WriteRaw` | src/nxe_jwx_jws.c:773-816 | the buffer filled half by half holds the converted signature |
| `Keys.LookupAlg` | src/nxe_jwx_jws.c:95-107 | the table walk finds the row of that name and nothing else |
| `Jwa.TableIsJwa` | src/nxe_jwx_jws.c:64-107 | a name is found exactly when section 3.1 of RFC 7518, RFC 8037 or RFC 8812 lists it, HS names in HMAC builds only, with that name's padding, digest, curve and width |
| `Jwa.VerifiesIff` | src/nxe_jwx_jws.c:339-444 | a key verifies under a name exactly when its pin allows the name and the name's own check succeeds on the whole message and signature |
| `Verify.JwsVerify` | src/nxe_jwx_jws.c:447-596 | NGX_OK exactly when the alg is in the table, there is a signature, and an eligible key verifies it; the internal-error flag is set exactly when an eligible key failed on a declined token |
| `Jwa.PolicyIff` | src/nxe_jwx_jws.c:447-596 | the verifier's policy in full: a signature, and a key whose kid is the token's, or is empty while no key has the token's, or any when the token has none, whose pin allows the alg and whose check succeeds |
| `Jwa.UnmatchedKid` | src/nxe_jwx_jws.c:546-583 | a kid no key carries leaves exactly the unlabelled keys |
| `Verify.OrderDoesNotMatter` | src/nxe_jwx_jws.c:524-583 | permuting the keyset does not change the result |
| `Verify.ForeignLabelDoesNotMatter` | src/nxe_jwx_jws.c:524-569 | for a token with a kid, inserting a key labelled otherwise does not change the result |
| `Fallback.AgreeIff` | src/nxe_jwx_jws.c:11-15 | trying all keys after those with the kid gives the code's verdicts, whatever the libraries answer, exactly when each key the algorithm could use is also there under a label the kid rule admits |
| `Fallback.AgreeUnmatchedIff` | src/nxe_jwx_jws.c:518-523 | trying all keys when none carries the kid gives the code's verdicts exactly when some key carries it or the labels cover every key |
| `Fallback.LabelMatters` | src/nxe_jwx_jws.c:546-583 | a keyval document whose one key, labelled otherwise, verifies a token under both comments and not under the code |
| `Raw.VerifyRaw` | src/nxe_jwx_jws.c:672-695 | NGX_OK exactly when the first key with that thumbprint accepts |
| `Jwa.ByThumbprintIff` | src/nxe_jwx_jws.c:672-695 | under a named alg exactly the first key with that thumbprint is asked, for its pin and the name's check |
| `Raw.FindKey` | src/nxe_jwx_jwks.c:1284-1306 | the walk returns the first key with that thumbprint, none for an empty one |
| `Raw.DeriveAlg` | src/nxe_jwx_jws.c:607-634 | the walk returns the first row that suits the key's type and curve |
| `Raw.WithKey` | src/nxe_jwx_jws.c:642-669 | the shared tail answers NGX_OK exactly when the resolved algorithm verifies |
| `Raw.VerifyRawByKid` | src/nxe_jwx_jws.c:698-737 | NGX_OK exactly when some key with that kid accepts |
| `Jwa.ByKidIff` | src/nxe_jwx_jws.c:698-737 | under a named alg exactly the keys with that kid are asked; without such a key, or with an empty kid, nothing is accepted |
| `Raw.EntryPointsAgree` | src/nxe_jwx_jws.c:524-545 | when the keyset holds the token's kid, the token verifier and the by-kid verifier agree, duplicates included |
| `Raw.OmittedAlgIsExact` | src/nxe_jwx_jws.c:607-669 | without alg a curve key accepts exactly what it accepts under some explicit name, which is unique; RSA and oct keys accept nothing |
| `Raw.LookupOwnName` | src/nxe_jwx_jws.c:64-107 | every row is found under its own name, so names are distinct |
| `FirstMatch.FirstMatchExact` | src/nxe_jwx_jws.c:689-694 | for any stored keys, trying the first thumbprint match alone succeeds exactly when its pin admits the algorithm and some match with its EVP_PKEY accepts |
| `FirstMatch.FirstMatchIsEnoughIff` | src/nxe_jwx_jws.c:672-695 | whatever the libraries answer and whatever is asked, the first match is as good as trying all, exactly when every algorithm another match may be used with suits the first one too, on the same EVP_PKEY, PSS parameters included |
| `FirstMatch.FirstMatchIsEnough` | src/nxe_jwx_jws.c:689-694 | where matches carry the same pin and EVP_PKEY, the first match is as good as trying all |
| `FirstMatch.JwksFirstMatch` | src/nxe_jwx_jwks.c:1284-1306 | on a JWKS document the lookup errs only through the first match's own pin |
| `FirstMatch.JwksFirstMatchIsEnoughIff` | src/nxe_jwx_jws.c:346-354 | on a JWKS document the first match is enough exactly when its pin admits every algorithm another match may be used with |
| `FirstMatch.KeyvalFirstMatch` | src/nxe_jwx_jwks.c:959-975 | on a keyval document the lookup accepts exactly when a match with the first one's EVP_PKEY accepts |
| `FirstMatch.KeyvalFirstMatchIsEnoughIff` | src/nxe_jwx_jwks.c:959-975 | on a keyval document the first match is enough, whatever the libraries answer, exactly when all matches have the same RSA form: plain, or PSS-typed with the same parameters |
| `FirstMatch.PinMatters` | src/nxe_jwx_jws.c:346-354 | a JWKS document whose second key accepts what its first key, of the same thumbprint but pinned otherwise, refuses |
| `FirstMatch.PssMatters` | src/nxe_jwx_jwks.c:959-975 | a keyval document whose plain RSA key accepts what the PSS-typed key before it, of the same thumbprint, cannot check |
| `FirstMatch.PssParametersMatter` | src/nxe_jwx_jws.c:251-265 | a keyval document of two PSS-typed keys of the same thumbprint, whose second, for SHA-256, accepts under PS256 what the first, for SHA-384, cannot check |
| `FirstMatch.FormMatters` | src/nxe_jwx_thumbprint.c:65-139 | the same for any two RSA forms and any RSA algorithm that the second permits and the first does not |
| `Compact.SplitSegments` | src/nxe_jwx_decode.c:92-148 | the scan accepts exactly tokens with two dots, a header of 1 to 8192 octets and a payload, and cuts them there |
| `Compact.SplitJoin` | src/nxe_jwx_decode.c:85-90 | splitting undoes joining any valid dot-free parts |
| `Compact.SplitAtDots` | src/nxe_jwx_decode.c:125-147 | the two dots decide acceptance, the pieces rejoin to the token and signing is header.payload |
| `Compact.Decode` | src/nxe_jwx_decode.c:239-342 | the token object filled step by step holds the decoded form, or nothing is returned |
| `Compact.DecodeJoined` | src/nxe_jwx_decode.c:258-341 | joined parts decode exactly when they fit and each part is readable; header, payload, signed octets and signature are theirs |
| `Tokens.DecodedIff` | src/nxe_jwx_decode.c:239-342 | three dot-free segments decode exactly when the header has 1 to 8192 octets, the payload some, the token at most 16384, and header and payload hold objects; alg and kid are the header's string members |
| `Tokens.DecodedHasThreeSegments` | src/nxe_jwx_decode.c:105-123 | nothing but three dot-free segments decodes |
| `Compact.UnsignedNeverVerifies` | src/nxe_jwx_decode.c:321-328 | a token with an empty signature may decode but no keyset verifies it |
| `Issue.BuildHeader` | src/nxe_jwx_jws.c:1036-1095 | the buffer computed in advance is filled exactly with the header for that alg and kid |
| `CompactJson.HeaderForIsText` | src/nxe_jwx_jws.c:1060-1092 | the header carries no kid member without a kid, and else the kid as the JSON library quoted it |
| `CompactJson.HeaderForIsCompact` | src/nxe_jwx_jws.c:1060-1092 | with a kid quoted as the string v the header is the compact object of alg, typ and kid = v |
| `Jwa.SignatureIsSuites` | src/nxe_jwx_jws.c:1185-1236 | issuing signs with the padding, digest, curve and width the alg's name asks for, with a key of its type only |
| `Issue.EcSignatureOctets` | src/nxe_jwx_jws.c:1198-1217 | an ECDSA token carries the signer's two integers, each in the curve's width; signing is refused exactly when one of them does not fit |
| `Issue.WriteToken` | src/nxe_jwx_jws.c:1242-1269 | the token and its terminating zero fill the allocation exactly; too long a token leaves `out` empty |
| `Issue.Encode` | src/nxe_jwx_jws.c:1098-1282 | `out` holds the NUL-terminated issued token on NGX_OK and is empty on every failure after the argument check, which leaves it untouched |
| `Tokens.IssuedIff` | src/nxe_jwx_jws.c:1098-1282 | a token is issued exactly for a listed alg, claims that are an object of at most 16384 octets, a kid that can be quoted, a header segment of at most 8192 octets, a key that signs and a total of at most 16384; it is header, dot, claims, dot, signature, each encoded |
| `Issue.AssembledValid` | src/nxe_jwx_jws.c:1162-1183 | what is assembled passes the decoder's segment checks |
| `Issue.IssuedDecodes` | src/nxe_jwx_jws.c:1119-1281 | an issued token decodes to the header, claims, signed octets and signature it was made from |
| `Issue.EcSignatureSurvives` | src/nxe_jwx_jws.c:1198-1217 | an EC signature converted for the token converts back to the signer's DER |
| `Issue.SignatureVerifies` | src/nxe_jwx_jws.c:397-444 | every matching key verifies the signature issued, in each family |
| `Issue.IssuedVerifies` | src/nxe_jwx_jws.c:1098-1282 | an issued token decodes and verifies against every keyset with an eligible matching key that is unpinned or pinned to the alg |
| `Publish.IssuedVerifiesAgainstPublished` | src/nxe_jwx_jws.c:1098-1282 | a JWKS document that publishes the issuing key's public side, pinned or not and among any other keys, under the token's kid or unlabelled when no key has that kid, parses and verifies every token issued with that key; a PSS-typed key is published by its n and e for PS256, PS384 and PS512 |
| `Publish.IssuedVerifiesAgainstKeyval` | src/nxe_jwx_jwks.c:1127-1243 | a keyval document with the PEM text of the issuing key's public side under the token's kid, or for PS algorithms of a plain key with the same n and e, parses and verifies every token issued with that key |
| `Thumbprint.WriteRsa` | src/nxe_jwx_thumbprint.c:113-139 | the writer fills exactly what it allocates |
| `Thumbprint.WriteEc` | src/nxe_jwx_thumbprint.c:223-255 | the writer fills exactly what it allocates |
| `Thumbprint.WriteOkp` | src/nxe_jwx_thumbprint.c:281-307 | the writer fills exactly what it allocates |
| `Thumbprint.WriteOct` | src/nxe_jwx_thumbprint.c:324-344 | the writer fills exactly what it allocates |
| `Thumbprint.FillThumbprint` | src/nxe_jwx_thumbprint.c:359-418 | only the thumbprint changes, to the encoded digest of the canonical text, or to nothing when a step fails |
| `ThumbprintLookup.TextIff` | src/nxe_jwx_thumbprint.c:35-62 | a key has a canonical text unless an RSA number is zero or a coordinate exceeds its curve's width |
| `ThumbprintLookup.ThumbprintIsDigest` | src/nxe_jwx_thumbprint.c:359-418 | every key of a parsed document carries the encoded SHA-256 of exactly the compact object of its required members, or nothing where there is none |
| `ThumbprintLookup.DigestFinds` | src/nxe_jwx_jwks.c:1284-1306 | looked up under that digest, the key or one of the same material is found |
| `ThumbprintLookup.ForeignDigestFindsNothing` | src/nxe_jwx_jwks.c:1284-1306 | under a digest that is no key's, nothing is found |
| `Thumbprint.BnInjective` | src/nxe_jwx_thumbprint.c:35-62 | the minimal and the padded integer texts are injective |
| `Thumbprint.CanonicalJsonInjective` | src/nxe_jwx_thumbprint.c:65-355 | two keys have the same canonical JSON exactly when they have the same type and public material |
| `Thumbprint.RsaFormattingIgnored` | src/nxe_jwx_thumbprint.c:35-62 | leading zeros in n or e change neither the measured size nor the text |
| `Thumbprint.RsaTextIsMinimal` | src/nxe_jwx_thumbprint.c:42-59 | an RSA integer's text decodes to octets without a leading zero, of the same value |
| `Thumbprint.EcCoordinateUnchanged` | src/nxe_jwx_thumbprint.c:53-56 | a coordinate of the curve's width is re-encoded as itself |
| `CompactJson.CanonicalJsonIsCanonical` | src/nxe_jwx_thumbprint.c:113-344 | the text is the compact JSON object of exactly the members RFC 7638 requires, in lexicographic order |
| `CompactJson.HeaderIsCompact` | src/nxe_jwx_jws.c:1040-1092 | the header without a kid is the compact object of alg and typ |
| `CompactJson.HeaderWithKidIsCompact` | src/nxe_jwx_jws.c:1040-1092 | a quoted kid adds the member kid and nothing else |
| `Jwks.CollectIsStableFilter` | src/nxe_jwx_jwks.c:901-921 | the stored keys are the usable entries, each once and in document order, and one hard error anywhere leaves none |
| `Entries.OnlyTheseMembersMatter` | src/nxe_jwx_jwks.c:728-810 | nine members and whether use is "enc" decide what an entry is read as; no other member and no other use matters |
| `Entries.ForeignIff` | src/nxe_jwx_jwks.c:737-797 | an entry is passed over before its type's part exactly when it is no object, has no known kty, is for encryption or has an empty kid |
| `Entries.ForeignEntriesDoNotMatter` | src/nxe_jwx_jwks.c:901-921 | a document reads as if such entries were not there |
| `Entries.FieldIff` | src/nxe_jwx_jwks.c:132-166 | a base64url member is absent unless it is a non-empty string, broken when that string is no base64url, and otherwise its octets |
| `Entries.SizeAllowedIff` | src/nxe_jwx.h:54-55 | the range is from 2^2047 up to, but not including, 2^16384 |
| `Entries.RsaEntryIff` | src/nxe_jwx_jwks.c:515-596 | exactly when an RSA entry is stored and when it rejects its document; what is stored |
| `Entries.EcEntryIff` | src/nxe_jwx_jwks.c:599-656 | the same for an EC entry, with the curves' names and widths |
| `Entries.OkpEntryIff` | src/nxe_jwx_jwks.c:659-696 | the same for an OKP entry |
| `Entries.OctEntryIff` | src/nxe_jwx_jwks.c:699-719 | the same for a secret |
| `Entries.PemEntryIff` | src/nxe_jwx_jwks.c:1127-1243 | a keyval member is stored exactly when a named text loads as RSA, on one of four EC curves, or as Ed25519 or Ed448; none rejects the document |
| `Entries.JwksIff` | src/nxe_jwx_jwks.c:843-930 | a JWKS document of at most 262144 octets is accepted exactly when its keys array has at most 64 entries, none is a hard error and one is usable |
| `Entries.KeyvalIff` | src/nxe_jwx_jwks.c:1052-1254 | a keyval document is accepted exactly when it has 1 to 64 members and one is usable |
| `Jwks.JwkKeyInvariant` | src/nxe_jwx_jwks.c:728-810 | a stored JWK's type fits its public key and curve, its RSA modulus is in range, it is never PSS-typed, its thumbprint is its own, its labels are the entry's, and it has no kid only without a string kid |
| `Jwks.PemKeyInvariant` | src/nxe_jwx_jwks.c:1127-1243 | a stored keyval key is what its text loads as, its type fits it, its thumbprint is its own, it carries its member's name as kid, no pin, and is never a MAC secret |
| `Jwks.JwksKeysInvariant` | src/nxe_jwx_jwks.c:843-930 | a parsed document yields 1 to 64 keys, all keeping the invariant |
| `Jwks.KeyvalKeysInvariant` | src/nxe_jwx_jwks.c:1052-1254 | a parsed keyval document yields 1 to 64 keys, all labelled, unpinned, public and under their own thumbprint |
| `Jwks.KeyvalRangeIff` | src/nxe_jwx_jwks.c:1170-1225 | a keyval document stores RSA keys in range only, exactly when every non-empty text under a non-empty name that loads as RSA has a modulus in range |
| `Jwks.ShortModulusIsStored` | src/nxe_jwx_jwks.c:1170-1225 | a keyval document that stores an RSA key with a modulus of two bits |
| `Jwks.OutOfRangeEntryIsDropped` | src/nxe_jwx_jwks.c:563-579 | a document with an out-of-range RSA entry reads as it would without that entry, and is rejected exactly when another entry is a hard error or none of the others is usable |
| `Publish.ShortModulusIsNoRejection` | src/nxe_jwx_jwks.c:563-579 | a document whose first entry has a modulus of two bits and which parses to its second entry's key |
| `Jwks.RsaEntryFormatting` | src/nxe_jwx_jwks.c:548-595 | leading zeros in n and e change neither what an RSA entry is read as nor whether it is |
| `Jwks.EcEntryCoordinates` | src/nxe_jwx_jwks.c:621-647 | an EC entry's coordinates are thumbprinted as the very octets the entry decodes to |
| `JwkRoundTrip.PublishedKeyRoundTrip` | src/nxe_jwx_jwks.c:728-810 | the members a thumbprint is taken over, with kid and alg, parsed as a JWK, yield the key: type, material, labels, canonical text and thumbprint, for all four key types; a crv the type does not use is dropped |
| `JwkRoundTrip.KeyWithUse` | src/nxe_jwx_jwks.c:750-757 | followed by a use and by members no reader looks at, they yield the key, and nothing when the use is "enc" |
| `JwkRoundTrip.DocumentRoundTrip` | src/nxe_jwx_jwks.c:843-930 | a keyset written out in a JWKS document parses back to itself, in order, whatever unread members, other uses and passed-over entries stand beside |
| `Publish.ParsedIsPublishable` | src/nxe_jwx_jwks.c:843-930 | a parsed keyset can be written out again exactly when no RSA exponent in it is zero |
| `Publish.RepublishedSamePolicy` | src/nxe_jwx_jws.c:447-596 | writing a parsed keyset out and parsing it again changes no verdict on any token and no thumbprint |
| `JwkRoundTrip.RsaRoundTrip` | src/nxe_jwx_jwks.c:515-596 | an RSA key's n and e survive being written and parsed |
| `JwkRoundTrip.EcRoundTrip` | src/nxe_jwx_jwks.c:599-656 | an EC key's curve and coordinates survive being written and parsed |
| `JwkRoundTrip.OkpRoundTrip` | src/nxe_jwx_jwks.c:659-696 | an OKP key's curve and octets survive being written and parsed |
| `JwkRoundTrip.OctRoundTrip` | src/nxe_jwx_jwks.c:699-719 | a secret survives being written and parsed |
| `Pool.AccountRelease` | src/nxe_jwx_jwks.c:225-228 | a handle found in a slot was made and not yet released, and releasing it keeps the account balanced |
| `Pool.Pool.ParseOneKey` | src/nxe_jwx_jwks.c:728-810 | the cleared slot holds exactly the entry's key with one handle per public part, or the entry is declined or fails; a refused allocation makes it fail or costs the thumbprint |
| `Pool.Pool.TakeEntry` | src/nxe_jwx_jwks.c:901-921 | one entry adds its key, without its thumbprint if that allocation was refused, leaves the keys as they are, or ends the parse |
| `Pool.Pool.ParseJwks` | src/nxe_jwx_jwks.c:843-930 | the keyset is the document's and null means that there is none, unless one of the requests the call made for memory was refused; then the result is null or lacks thumbprints; the account stays balanced in every case |
| `Pool.Pool.TakePem` | src/nxe_jwx_jwks.c:1127-1243 | one member adds its key to an untouched slot or gives its handle back |
| `Pool.Pool.ParseKeyval` | src/nxe_jwx_jwks.c:1052-1254 | the same for a keyval document |
| `Pool.Pool.Register` | tests/ngx_compat/ngx_stub.c:64-93 | the new node heads the list, knows its keyset and is armed; the account does not change |
| `Pool.LinkedStep` | tests/ngx_compat/ngx_stub.c:46-53 | walking the list meets the registered nodes, last first, each once |
| `Pool.Pool.Cleanup` | src/nxe_jwx_jwks.c:213-237 | every handle of the keyset is released and its slot emptied; repeating it releases nothing |
| `Pool.Pool.Free` | src/nxe_jwx_jwks.c:240-265 | the keyset is disarmed and emptied, on any number of calls |
| `Pool.Pool.Destroy` | tests/ngx_compat/ngx_stub.c:35-61 | after the armed handlers have run, every handle ever made was released exactly once |
| `Pool.Pool.Perform` | src/nxe_jwx_jwks.h:71-93 | a parse hands out the keyset its document asks for, or none after a refused allocation; a release, repeated ones included, disarms and empties; the pool stays valid and the account balanced |
| `Pool.Pool.Run` | src/nxe_jwx_jwks.c:213-267 | over any sequence of parses and releases and the final destroy, every handle is released exactly once and none twice; unless memory was refused, one keyset was handed out for each acceptable document |
| `Laws.LawsAreConsistent` | src/nxe_jwx_jws.c:227-285 | the laws assumed of the foreign libraries hold together, in either build |
| `Laws.RsIsIssued` | src/nxe_jwx_jws.c:1098-1282 | all premises of `Issue.IssuedVerifies` can be met with RS256 |
| `Laws.EsIsIssued` | src/nxe_jwx_jws.c:1098-1282 | all premises of `Issue.IssuedVerifies` and `Publish.IssuedVerifiesAgainstPublished` can be met with ES256, a labelled and pinned key, and a document |
| `Laws.PssUnderRsMatters` | src/nxe_jwx_jws.c:964-975 | under the laws a PSS-typed key issues an RS256 token that the plain key of the same n and e does not verify |

## Left out

- OpenSSL's arithmetic, PEM loading and the 1.1.x and 3.0 construction branches: functions of `Keys.Env`.
- The JSON parser and string escaping of nxe-json, which is not part of this model: functions of `Keys.Env` with one law; an object is a list of members.
- nginx's own base64 and pool code, which is not in the repository: the stub the test build links is modelled.
- `src/nxe_jwx_claims.c` and the one-line accessors: each is settled by reading one branch.
- Logging, wiping of secrets and constant-time comparison have no functional content here.
- Memory other than EVP_PKEY handles (JSON nodes, BIGNUMs, pool blocks) is not accounted for; allocation succeeds everywhere except in `Pool`, where any request may be refused and requests that fail alike are one.
- `Pool.Pool.Run`: a keyset's slots are a sequence updated slot by slot, not an array, and the list holds keyset nodes only; token cleanup nodes are not modelled.
- `Verify.JwsVerify`: keys are passed as a sequence of values; what the log says beyond the internal-error flag is not modelled.
- `FirstMatch.FirstMatchExact`: takes SHA-256 as free of collisions, as `FirstMatch.FirstMatchIsEnoughIff` and the document results do.
- `Publish.IssuedVerifiesAgainstPublished`: a PSS-typed key that issues under RS256, RS384 or RS512 has no public side, because OpenSSL pads such a signature as the key's type says and a JWK's plain key need not accept it (`Laws.PssUnderRsMatters`); what a PEM text holds is `Env.loadPrivate`.
