# A verified model of cosesign1go

cosesign1go signs, unpacks and checks COSE_Sign1 envelopes, and checks the transparency
receipts of CCF ledgers that are attached to them. This project models the parts of it whose
correctness is not visible from one function, and proves what they promise:

* **Receipts.** A receipt carries inclusion proofs. A proof is decoded from CBOR, its leaf and
  path are hashed up to a Merkle root, and the root must carry the ledger's signature
  (`MerkleTree`, `CcfProof`, `Receipts`).
* **Statements.** A receipt attests the digest of an envelope with its unprotected header
  emptied. The `attach_receipt` tool rewrites that header (`CborSyntax`, `Floats`, `CborValue`,
  `Envelope`).
* **Keys.** COSE Key Sets, Transparency Trust Lists, JWKs, the merge of the keys of several
  issuers, the host check before a fetch, and the way from fetched keys to a trust list (`KeySets`,
  `Jwk`, `Base64`, `KeyFetch`, `IssuerHost`, `TrustLists`).
* **Text.** Certificate chains as PEM, and output that must not depend on Go's map order: the JSON
  dump of a trust list and printed header values (`Pem`, `Sorting`, `Rendering`, `Utf8`,
  `Printing`, `Joining`, `Determinism`).

`dafny verify dfyconfig.toml` checks everything.

## How things are modelled

Bytes are integers below 256 and a Go string is a byte sequence. A raw CBOR message that the
program keeps verbatim is a concrete syntax tree (`Item`) that remembers every choice of the
encoder, head widths and indefinite lengths included; trees and well-formed messages correspond
one to one (`CborSyntax.ParseWholeExact`). A decoded map is a Dafny map, and whatever walks a Go
map here does so in an arbitrary order: encoders take the order as a parameter that may differ
from place to place, loops pick any remaining key.

SHA-256 is any function from byte strings to 32-byte strings. Nothing is assumed about
collisions. A statement such as "this leaf is in the tree" is proved in the form "it is, or these
two strings collide", where the two strings are computed from the proof and the tree by a
function, and belong to the finitely many strings the two sides hash.

The answer of each operation is stated twice: by the function that its method is proved against, and
by lemmas that spell out bytes, labels, alphabets and orders literally, without that function. An
envelope, a one-step proof and a trust list are given byte by byte, an accepted receipt label by
label, a root as an equation over the hash function alone.

`Result` tells a returned error from a panic. Signature checks, single COSE keys, certificate
parsing, lower-casing and the network are function parameters, with the laws they must obey as
named predicates.

## Where the code falls short of a promise

* `Pem.Pem2Der` (`pem2der`) never returns when text remains after the last block. Its loop ends
  exactly for texts that their blocks use up (`Pem.EndsIffDrains`); a chain file may end in one
  newline, but not in two (`Pem.TrailingNewlines`).
* The documentation of `RequireReceiptFrom` (cmd/sign1util/main.go:90-93) requires a receipt of
  that issuer. The code asks for it only if the envelope has receipts; an envelope without any
  passes. `KeyFetch.CheckReceipts` states both cases.
* An issuer with a port is not accepted by an allow list that names just that issuer, because the
  port is cut from the one and not from the other (`IssuerHost.OwnAllowList`). So
  `--require-receipt-from host:port` fails unless the keys are preloaded, and
  `ttl-from-ledger --ledger host:port` always fails (`TrustLists.PortsAreRefused`).
* `replaceReceipts` panics on an envelope whose unprotected header is null
  (`Envelope.ReplaceReceipts`; five bytes are such an envelope, `Envelope.NullHeaderDecodes`).
* A key fetched without a key ID is written to a trust list but ignored by its parser: each ledger
  gets back exactly the keys it served if and only if all have a key ID
  (`TrustLists.ListedExactly`), and a ledger with no other key makes the whole list unreadable
  (`KeySets.NamelessKeysSpoilList`).
* The JSON dump of a trust list replaces every byte of a key ID that is not UTF-8. It gives its keys
  back if and only if all key IDs are UTF-8 (`Rendering.DumpReadsBack`). With the key IDs ff and fe
  it cannot even be read (`Rendering.MergedKids`); when it can is stated exactly by
  `Rendering.DumpAccepted`.
* `formatValue` promises a deterministic text. It keeps the promise for a value if and only if, in
  each of its maps, the entries of keys that print alike read the same in either order
  (`Determinism.FormatDeterministic`). Keys that are integers, strings, booleans or null meet that
  (`Determinism.UsualDeterministic`). A byte string as a key is printed like a number of the same
  digits, and then the text is left to the map order and the sort
  (`Determinism.DecodedMapUnordered`).

Three more cases exist for the functions alone; no command of the program leads there:

* `replaceReceipts` writes a nil list of receipts as null, which cannot be read back
  (`Envelope.ExtractAfterReplace`); `attach_receipt` stops before at a donor without receipts.
* `encodeTTLPayload` takes issuer names that are not UTF-8 and writes an unreadable list
  (`KeySets.EncodeTTLPayload`); `ttl-from-ledger` fetches keys only for names that are ASCII.
* `publicKeyToJWK` panics on a coordinate wider than its curve (`Jwk.JwkOutcome`), and
  `jwkToPublicKey` lets such keys through (`Jwk.WideCoordinates`); no command passes a key from the
  one directly to the other.

## Model

| member | source | states |
|---|---|---|
| CborSyntax.ParseUnparse | pkg/cosesign1/check.go:556-566 | a CBOR item is self-delimiting: whatever bytes follow it, the reader stops exactly at its end and returns its tree |
| CborSyntax.UnparseParse | pkg/cosesign1/check.go:556-566 | what is read from a raw message is well formed and reproduces the very bytes it was read from |
| CborSyntax.PrefixFree | pkg/cosesign1/check.go:557-563 | no raw item is a proper prefix of another, and equal bytes are equal items |
| CborSyntax.ParseWholeExact | pkg/cosesign1/check.go:564-566 | decoding a whole message and writing an item are inverse bijections; trailing bytes are refused |
| CborSyntax.HeadLayout | pkg/cosesign1/check.go:564-566 | an item begins with a byte of major type and length code, then its argument; with `BigEndianBytes` and `HeadRange` this is section 3 of RFC 8949 |
| CborSyntax.BigEndianBytes | pkg/cosesign1/check.go:564-566 | arguments of 1, 2, 4 and 8 bytes have their highest byte first |
| CborValue.DecodeEncode | cmd/attach_receipt/main.go:103-112 | for every value in decoded form and every order in which its maps are walked, encoding then decoding returns the value |
| CborValue.DecodedIsPlain | cmd/attach_receipt/main.go:62-71 | what the decoder returns can be encoded again: it fits, its texts are UTF-8 and its integer keys are in the form a decoder makes |
| Floats.ShortestFloat | cmd/attach_receipt/main.go:103-107 | a float is written in a form that decodes to the same number, and no form of that number is shorter |
| CborValue.DecodeEncodePairs | cmd/attach_receipt/main.go:98-101 | encoded map entries decode to the same entries with int64 keys turned into uint64, provided no two keys meet on the wire |
| CborValue.DecodeNumber | cmd/attach_receipt/main.go:62-71 | major types 0 and 1 are n and -1-n, in whatever width |
| CborValue.DecodeString | cmd/attach_receipt/main.go:62-71 | major types 2 and 3 are byte strings and UTF-8 texts |
| CborValue.DecodeChunks | cmd/attach_receipt/main.go:62-71 | the chunks of a string of open length are put together in order |
| CborValue.DecodeArrayBytes | cmd/attach_receipt/main.go:62-71 | major type 4 is the array of its items in order, in either length form |
| CborValue.DecodeMapBytes | cmd/attach_receipt/main.go:62-71 | major type 5 is the map of its entries, in either length form |
| CborValue.MapEntry | cmd/attach_receipt/main.go:62-71 | of two entries with one key the later one counts |
| CborValue.DecodeTagBytes | cmd/attach_receipt/main.go:62-71 | major type 6 is a tag on a value; tag 55799 is dropped |
| CborValue.DecodeSimple | cmd/attach_receipt/main.go:62-71 | f4 is false, f5 true, f6 and f7 null |
| CborValue.KeysOfValues | cmd/attach_receipt/main.go:62-71 | which values may be map keys, and as what |
| CborValue.ElementsExact | cmd/attach_receipt/main.go:62-71 | a struct or Go map is read from an array or map of either length form or a null, under any tags but 0 to 3 |
| CborValue.ShortestHead | cmd/attach_receipt/main.go:103-107 | the encoder writes a number in the shortest head there is for it |
| Floats.HalfValue | cmd/attach_receipt/main.go:62-71 | a half-precision number is read as the number it is: sign, 10 bits of fraction, exponent with bias 15 |
| Floats.SingleValue | cmd/attach_receipt/main.go:62-71 | a single-precision number likewise: 23 bits of fraction, bias 127 |
| Utf8.ValidUtf8Exact | cmd/attach_receipt/main.go:62-71 | a text is UTF-8 exactly when it is made of the bytes of Unicode scalar values |
| MerkleTree.Soundness | pkg/cosesign1/check.go:493-547 | a leaf and path that fold to the root of a tree are the tree's own leaf and path at the position of the flags, or two colliding strings are found, one hashed by the tree and one by the verifier |
| MerkleTree.Completeness | pkg/cosesign1/check.go:493-547 | the path read off a tree for a position folds to the root of the tree |
| MerkleTree.PositionsPrefixFree | pkg/cosesign1/check.go:493-547 | two proofs with one root never stand on each other's path, and with equal flags are equal, or a collision is found; no tree is assumed |
| MerkleTree.CompareLeavesFindsCollision | pkg/cosesign1/check.go:493-501 | two leaves with one hash are equal in transaction hash, evidence text and data-hash, or a collision is found in the leaf or in the evidence |
| CcfProof.ReadProofExact | pkg/cosesign1/check.go:449-534 | the type and size checks accept exactly the maps of the profile's grammar, each for one leaf and one non-empty path |
| CcfProof.ProofEntries | pkg/cosesign1/check.go:449-534 | what the map of a proof must be, entry by entry, with its keys, lengths and orders |
| CcfProof.HashPath | pkg/cosesign1/check.go:512-546 | the loop over the path returns the fold of the whole path, or an error exactly when some element is not a flag with a 32-byte hash |
| CcfProof.ComputeRoot | pkg/cosesign1/check.go:444-548 | the method returns the root and data-hash of the proof the bytes stand for, and an error for all other bytes |
| CcfProof.OneStepRoot | pkg/cosesign1/check.go:493-547 | for a path of one step the root is an equation over the hash function: hash of sibling and H(tx, H(evidence), data-hash) in the order of the flag |
| CcfProof.LongerPathRoot | pkg/cosesign1/check.go:512-546 | one more step hashes the root so far together with the new sibling in the order of the flag |
| CcfProof.ProofBytesRoot | pkg/cosesign1/check.go:444-548 | the bytes of a one-step proof, written out, and their root |
| CcfProof.ComputeRootSound | pkg/cosesign1/check.go:444-548 | bytes accepted with the root of a tree hold a leaf of that tree at exactly the flags' position, and the tree has more than one leaf; else a collision is found |
| CcfProof.TypedMapAgrees | pkg/cosesign1/check.go:445-448 | decoding into a map keyed by int64 agrees with the generic decode wherever all keys are int64 numbers |
| CcfProof.DecodesEncoded | pkg/cosesign1/check.go:444-492 | every proof within the size limits, encoded in either order of its two entries, decodes to itself |
| CcfProof.ComputeRootComplete | pkg/cosesign1/check.go:444-548 | every leaf of a tree with at least two leaves has bytes that are accepted with the tree's root and the leaf's data-hash |
| Envelope.DecodedFieldsValid | cmd/attach_receipt/main.go:51-71 | the decoded struct holds well-formed raw items and a header map that can be encoded again |
| Envelope.DecodeEncodeSign1 | cmd/attach_receipt/main.go:103-116 | an encoded envelope decodes to the same raw items, the same header map and the same tag flag, for every map order |
| Envelope.EnvelopeBytes | cmd/attach_receipt/main.go:51-71 | the bytes (d2) 84 and four items are the envelope of those items in that order, and its digest is the hash of d2 84, protected, a0, payload, signature |
| Envelope.DecodeFieldsExact | cmd/attach_receipt/main.go:51-71 | nothing but an array of exactly four items, with a map or null for the second, or a null, is an envelope |
| Envelope.StrippedEncoding | pkg/cosesign1/check.go:567-579 | the emptied envelope, encoded and tagged, is the bytes d2 84, protected, a0, payload, signature |
| Envelope.ComputeStatementHash | pkg/cosesign1/check.go:556-582 | the method hashes exactly those bytes of the decoded envelope and fails exactly when the envelope does not decode |
| Envelope.StatementPreimageInjective | pkg/cosesign1/check.go:567-580 | the digest input and the three raw items determine each other |
| Envelope.ReplaceReceipts | cmd/attach_receipt/main.go:93-117 | on success the output decodes to the same raw items and tag flag with only the receipts entry replaced; the error and panic cases are exact |
| Envelope.RewrittenEntries | cmd/attach_receipt/main.go:98-101 | in the output label 394 holds the receipts and every other label what it held before; tag, protected header, payload and signature are the same |
| Envelope.NullHeaderDecodes | cmd/attach_receipt/main.go:62-71 | the bytes 84 40 f6 40 40 are decoded as an envelope with a null header |
| Envelope.RewrittenMap | cmd/attach_receipt/main.go:98-101 | deleting label 394 under both integer types and setting it under one leaves a map that encodes without a clash and decodes to exactly one receipts entry |
| Envelope.ExtractAfterReplace | cmd/attach_receipt/main.go:73-117 | the receipts read after a rewrite are the receipts written, exactly when the list written was not nil |
| Envelope.ExtractReceiptsExact | cmd/attach_receipt/main.go:73-91 | the receipts are the array under label 394, absent without the label, an error if it is no array |
| Envelope.DonorReceiptsEncodable | cmd/attach_receipt/main.go:32-47 | receipts extracted from a donor can always be written to another envelope |
| Envelope.ReplaceTwice | cmd/attach_receipt/main.go:98-101 | a second rewrite overrides the first entirely |
| Envelope.DigestInvariant | cmd/attach_receipt/main.go:93-117 | rewriting the receipts never changes the digest of the statement |
| Receipts.ParseReceipts | pkg/cosesign1/check.go:100-149 | all receipts are returned in order, or an error exactly when the header is no array or one receipt is unusable |
| Receipts.ParseReceiptExact | pkg/cosesign1/check.go:111-146 | which value is which receipt: its bytes, the key ID under label 4, the issuer under claim 1 of label 15 |
| Receipts.UnpackReceipts | pkg/cosesign1/check.go:279-291 | the receipts are those of the header in the bytes, in order, each told to expect the digest of these bytes; an error means that there are none to return |
| Receipts.UnpackedExact | pkg/cosesign1/check.go:279-291 | unpacking adds the digest to each receipt and changes nothing else |
| Receipts.UnpackedExtracted | pkg/cosesign1/check.go:100-149 | the receipts unpacked are the very ones that the generic decode of `extractReceipts` finds in the bytes |
| Receipts.Validate | pkg/cosesign1/check.go:353-436 | the method accepts exactly when the header checks hold, there is a proof, and every single proof is acceptable |
| Receipts.AcceptsExactly | pkg/cosesign1/check.go:353-436 | what is accepted, label by label: 395, 1, 396 and -1, detached payload, known key, and for every proof the digest and the signature over its root |
| Receipts.AcceptedIsSigned | pkg/cosesign1/check.go:427-431 | the signature of an accepted receipt verifies over the root of each of its proofs under the key of its key ID |
| Receipts.HonestReceiptAccepted | pkg/cosesign1/check.go:353-436 | the proof of a ledger leaf with the envelope's digest, and a signature over the ledger's root, are accepted |
| Receipts.AcceptsSubset | pkg/cosesign1/check.go:408-434 | a receipt accepted with some proofs is accepted with any non-empty choice of them, in any order and repeated at will |
| Receipts.AcceptsProofSet | pkg/cosesign1/check.go:408-434 | the verdict depends on the set of proofs only |
| Receipts.AcceptedIsBound | pkg/cosesign1/check.go:414-425 | an accepted receipt has a 32-byte expected digest and the CCF data structure number |
| Receipts.ReceiptBinding | pkg/cosesign1/check.go:283-290 | one receipt accepted for two envelopes: protected header, payload and signature are identical, or the two digest inputs collide |
| Receipts.AcceptedMeansRegistered | pkg/cosesign1/check.go:353-436 | where the recomputed root is that of a ledger tree, that root is signed, the ledger holds the envelope's digest at the proof's position, and whatever envelope that leaf was written for is the same statement; else a collision is found |
| KeySets.ParseKeySetAsMap | pkg/cosesign1/keyset.go:16-64 | the method returns the keys gathered from the elements, and a non-nil error exactly when there are none |
| KeySets.GatherIsFirstUsable | pkg/cosesign1/keyset.go:26-58 | the key IDs of the result are those of usable elements, and each key is Equal to the first usable one of its key ID |
| KeySets.GatherExactly | pkg/cosesign1/keyset.go:26-58 | the same by positions: an element counts when it is a key with a key ID, and the first of a key ID wins |
| KeySets.IrrelevantElements | pkg/cosesign1/keyset.go:27-58 | unusable, repeated and conflicting later elements may be inserted or deleted anywhere without changing the result up to Equal |
| KeySets.ParseTTLPayload | pkg/cosesign1/keyset.go:73-98 | all ledgers are returned, whatever the map order, or nothing if one of them cannot be parsed |
| KeySets.TrustListBytes | pkg/cosesign1/keyset.go:73-98 | the bytes of a trust list, written out: issuer, attribute 1, array of keys |
| KeySets.NothingListed | pkg/cosesign1/keyset.go:21-23 | an empty or null key set is refused, and a ledger entry without attribute 1 |
| KeySets.EmptyTrustList | pkg/cosesign1/keyset.go:78-80 | an empty or null trust list is refused |
| KeySets.LedgerMissing | pkg/cosesign1/keyset.go:82-95 | one ledger that cannot be parsed spoils the list |
| KeySets.EncodeKeySet | cmd/sign1util/ccf_keyfetch.go:140-164 | the output is the array of the encoded keys in order, and there is an output exactly when the list is non-empty and all keys encode |
| KeySets.GatherEncoded | cmd/sign1util/ccf_keyfetch.go:140-164 | parsing an encoded list keeps, by the conflict rule of the parser, exactly the keys that have a key ID |
| KeySets.KeptEntries | cmd/sign1util/ccf_keyfetch.go:140-164 | of a list with distinct key IDs every key with a key ID is kept unchanged, and nothing else |
| KeySets.EncodeTTLPayload | cmd/sign1util/ccf_keyfetch.go:168-187 | whatever the map orders, the parser reads from the output every issuer with the kept keys of its list, or nothing if an issuer name is not UTF-8 |
| KeySets.TrustListRoundTrip | cmd/sign1util/ccf_keyfetch.go:168-187 | for non-empty lists with distinct key IDs, each issuer gets back exactly its keys if and only if every key has a key ID |
| KeySets.NamelessKeysSpoilList | pkg/cosesign1/keyset.go:82-95 | one issuer whose keys all lack a key ID makes the written list unreadable as a whole |
| TrustLists.FetchLists | cmd/sign1util/main.go:734-744 | success exactly when no ledger is named twice and the keys of all can be fetched |
| TrustLists.TtlFromLedgers | cmd/sign1util/main.go:730-748 | the command succeeds exactly when all ledgers are named once and serve encodable keys, and reading its bytes gives each ledger the keys it served that have a key ID |
| TrustLists.ListedExactly | cmd/sign1util/main.go:730-748 | each ledger is read back with exactly the keys it serves if and only if all of them have a key ID |
| TrustLists.PortsAreRefused | cmd/sign1util/main.go:739 | the keys of a ledger named with a port are never fetched |
| Base64.DecodeEncode | cmd/sign1util/jwks.go:43-50 | decoding inverts encoding for the padded standard and the unpadded URL alphabet |
| Base64.Alphabets | cmd/sign1util/jwks.go:43-50 | the 64 digits of the two alphabets in the order of RFC 4648 |
| Base64.UndigitExact | cmd/sign1util/jwks.go:43-50 | a character is read as its place in the alphabet, and no other character is read |
| Base64.BitsOfFour | pkg/cosesign1/misc.go:44-48 | three bytes and their four digits are one number of 24 bits, highest part first |
| Base64.BitsOfOctets | cmd/sign1util/jwks.go:43-50 | the same for reading; what is left over of the last digit is dropped |
| Base64.StripExact | cmd/sign1util/jwks.go:43-50 | line feeds and carriage returns are skipped, and nothing else |
| Base64.RawUrlDecodes | cmd/sign1util/jwks.go:43-50 | exactly which texts are read as unpadded URL base64 |
| Base64.StdDecodes | pkg/cosesign1/makedidx509.go:20-21 | exactly which texts are read as padded standard base64 |
| Jwk.JwkOutcome | cmd/sign1util/jwks.go:60-84 | a key becomes a JWK exactly when its curve is named and both coordinates fit; other curves and key types are errors |
| Jwk.JwkExact | cmd/sign1util/jwks.go:28-56 | which JWKs are keys, and of which curve and coordinates |
| Jwk.JwkWritten | cmd/sign1util/jwks.go:60-84 | the members of the JWK of a key: EC, the curve's name, the key ID, x and y in 32, 48 or 66 bytes |
| Jwk.RepresentableExact | cmd/sign1util/jwks.go:60-84 | which keys can be written: on a named curve, with coordinates of at most 32, 48 or 66 bytes |
| Jwk.WideCoordinates | cmd/sign1util/jwks.go:28-50 | a JWK with coordinates of one byte too many is accepted, and writing its key again panics |
| Jwk.JwkRoundTrip | cmd/sign1util/jwks.go:28-84 | the JWK of a key has coordinates of exactly 43, 64 or 88 characters and decodes to that key |
| Jwk.NormalisationIdempotent | cmd/sign1util/jwks.go:28-84 | re-encoding an accepted JWK keeps key and key ID, and a second time changes nothing |
| KeyFetch.CollectKeys | cmd/sign1util/ccf_keyfetch.go:118-136 | success exactly when all keys decode and equal the first of their key ID; list key IDs are distinct and list and map agree |
| KeyFetch.ConsistentExact | cmd/sign1util/ccf_keyfetch.go:118-136 | a list is consistent exactly when all keys decode and those of one key ID are Equal |
| KeyFetch.FirstKeyAt | cmd/sign1util/ccf_keyfetch.go:125-135 | the key kept for a key ID is the one at its first place in the list |
| KeyFetch.PreloadedFirst | cmd/sign1util/ccf_keyfetch.go:206-215 | preloaded keys are used whatever the network serves; only without them an acceptable issuer is asked |
| KeyFetch.FetchIssuerKeys | cmd/sign1util/ccf_keyfetch.go:70-137 | preloaded keys come first; otherwise keys come only from an issuer that passes the host check |
| KeyFetch.FetchIssuerJwks | cmd/sign1util/ccf_keyfetch.go:70-137 | the fetch returns the keys of a consistent list as a map and as a list that agree, only for an acceptable host |
| KeyFetch.FetchReceiptKeys | cmd/sign1util/ccf_keyfetch.go:195-224 | success exactly when all issuers are named, can be looked up and share no key ID; the result is the union of their keys |
| KeyFetch.FetchExact | cmd/sign1util/ccf_keyfetch.go:195-224 | the same receipt by receipt: every issuer named and with keys, no key ID of two issuers, all keys in the result and no others |
| KeyFetch.FetchIgnoresOthers | cmd/sign1util/ccf_keyfetch.go:206-215 | what preloaded issuers and hosts outside the allow list serve cannot change the result |
| KeyFetch.FetchPreloaded | cmd/sign1util/ccf_keyfetch.go:206-215 | with all issuers preloaded neither network nor allow list changes the result |
| KeyFetch.FetchDeterministic | cmd/sign1util/ccf_keyfetch.go:196-223 | the result depends on the set of issuers only, not on receipt order, repetition or map order |
| KeyFetch.KeyTraceable | cmd/sign1util/ccf_keyfetch.go:216-221 | each merged key is the key of exactly one issuer |
| KeyFetch.SelectMatching | cmd/sign1util/main.go:134-141 | the selection is the subsequence of receipts of the required issuer, with strictly increasing places that point back to them |
| KeyFetch.FromMembers | cmd/sign1util/main.go:134-141 | the selected receipts are those of the issuer and no others |
| KeyFetch.RequirementPreloaded | cmd/sign1util/main.go:128-161 | with preloaded keys the check of a required issuer depends on these keys and the receipts alone |
| KeyFetch.CheckRequired | cmd/sign1util/main.go:130-161 | success exactly when a receipt of the required issuer exists and all of them are accepted under the keys of that issuer alone |
| KeyFetch.CheckReceipts | cmd/sign1util/main.go:128-178 | which of the three cases applies, and exactly when each succeeds |
| KeyFetch.RequiredMeansRegistered | cmd/sign1util/main.go:128-161 | where the requirement is met there is a receipt of the issuer with a proof, and every proof of every such receipt with the root of a ledger shows that the issuer signed that root and that the ledger holds this envelope's digest; else a collision is found |
| KeyFetch.GraftedReceipts | cmd/attach_receipt/main.go:34-48 | an envelope that carries the receipts of a donor and the donor itself both meet the requirement only if target and donor are the same statement, or their digest inputs collide |
| KeyFetch.SharedReceipts | pkg/cosesign1/cosesign1util_test.go:380-403 | the same for any two envelopes with the same receipts |
| IssuerHost.ValidateIssuer | cmd/sign1util/ccf_keyfetch.go:38-54 | the issuer is returned unchanged exactly when it matches the regular expression and its host is in an allowed domain |
| IssuerHost.PlainHostExact | cmd/sign1util/ccf_keyfetch.go:32-41 | the regular expression accepts exactly the texts that split into two or more labels and an optional port |
| IssuerHost.IssuerGrammar | cmd/sign1util/ccf_keyfetch.go:32 | the regular expression spelled out: two or more labels of ASCII letters, digits and hyphens joined by dots, then perhaps a colon and ASCII digits |
| IssuerHost.LabelCharacters | cmd/sign1util/ccf_keyfetch.go:32 | which single characters are a label |
| IssuerHost.PortCharacters | cmd/sign1util/ccf_keyfetch.go:32 | which single characters are a port |
| IssuerHost.DefaultDomain | cmd/sign1util/ccf_keyfetch.go:26-54 | every ledger directly under confidential-ledger.azure.com is accepted by default |
| IssuerHost.SuffixIsLabelSuffix | cmd/sign1util/ccf_keyfetch.go:49-51 | a host is a domain or a subdomain of it exactly when the domain's labels end the host's |
| IssuerHost.AcceptableByLabels | cmd/sign1util/ccf_keyfetch.go:28-54 | the whole check in terms of label lists, in both directions, for any lower-casing that is the usual one on ASCII |
| IssuerHost.AsciiDomainLabels | cmd/sign1util/ccf_keyfetch.go:50 | for an ASCII domain the labels compared are its own in lower case |
| IssuerHost.OwnAllowList | cmd/sign1util/ccf_keyfetch.go:38-54 | an issuer is accepted by the allow list of itself exactly when it matches the regular expression and has no port |
| Pem.JoinChain | pkg/cosesign1/check.go:222-228 | the joined text is the certificate texts with one newline between any two |
| Pem.ChainTextExact | pkg/cosesign1/misc.go:68-80 | the text of a certificate: the two marker lines with one line of standard base64 between, and one newline before the next certificate |
| Pem.ParsePemChain | pkg/cosesign1/makedidx509.go:17-32 | terminates on every text and returns the certificates of all certificate blocks in order, or an error if one does not parse |
| Pem.CertificatesExact | pkg/cosesign1/makedidx509.go:20-28 | there is a chain exactly when all certificate blocks parse, and it has one certificate for each of them, in order |
| Pem.CertificateBlocksAre | pkg/cosesign1/makedidx509.go:21 | those are the blocks of type CERTIFICATE |
| Pem.Pem2Der | pkg/cosesign1/create.go:16-30 | returns the bytes of all blocks in order when the blocks use the text up |
| Pem.ConcatStep | pkg/cosesign1/create.go:21-29 | the bytes of blocks of every type, one after the other |
| Pem.EndsIffDrains | pkg/cosesign1/create.go:21-26 | the loop ends after some number of turns exactly when the blocks use the text up |
| Pem.DecodeCertificate | pkg/cosesign1/misc.go:68-80 | the text of a certificate, followed by nothing or by a new line, is read as one block with its raw bytes |
| Pem.ChainBlocks | pkg/cosesign1/check.go:222-228 | a chain text followed by anything on a new line is read as the certificates in order and then whatever follows |
| Pem.TrailingNewlines | pkg/cosesign1/create.go:16-30 | a chain text with at most one final newline is used up; with two it never is |
| Pem.ChainRoundTrip | pkg/cosesign1/check.go:222-228 | for every non-empty chain the joined text parses back to the same certificates in order and to the concatenation of their raw bytes |
| Rendering.RenderLedger | cmd/sign1util/jwks.go:92-101 | one JWK per key, sorted by key ID, exactly when all keys can be written |
| Rendering.RenderTrustList | cmd/sign1util/jwks.go:89-104 | the same for every ledger, whatever the map order |
| Rendering.RenderingDeterministic | cmd/sign1util/jwks.go:86-101 | the list of a ledger is the same for every map order and every sorting algorithm |
| Rendering.DumpAccepted | cmd/sign1util/jwks.go:89-104 | the JSON of a ledger's keys is accepted by the reader exactly when key IDs that JSON makes one belong to Equal keys |
| Rendering.DumpReadsBack | cmd/sign1util/jwks.go:89-104 | the JSON gives back the very keys, under their key IDs, if and only if all key IDs are UTF-8 |
| Rendering.MergedKids | cmd/sign1util/jwks.go:98-103 | two different keys under the key IDs ff and fe make the dump unreadable |
| Utf8.CoerceExact | cmd/sign1util/jwks.go:103 | a string comes back from JSON unchanged if and only if it is UTF-8 |
| Utf8.CoerceBadByte | cmd/sign1util/jwks.go:103 | a byte that starts no character comes back as ef bf bd, alone |
| Determinism.FormatDeterministic | cmd/sign1util/main.go:19-53 | all runs print one text for a value, for every map order and every unstable sort, if and only if in each of its maps, at any depth, the entries of keys that print alike read the same in either order |
| Determinism.AssembledMap | cmd/sign1util/main.go:21-37 | any order of a map's keys, any text its children can have in some run, and any sort of the entries occur together in one run |
| Joining.SortedLines | cmd/sign1util/main.go:32-37 | all sorts of a list of entries join to one text if entries with equal keys interchange |
| Printing.KeyTextsExact | cmd/sign1util/main.go:29-52 | integers, strings, booleans and null as keys print alike only if they are one number under two integer types |
| Printing.HexExact | cmd/sign1util/main.go:43-44 | two lower-case hexadecimal digits a byte, the high one first |
| Printing.DecimalExact | cmd/sign1util/main.go:49-51 | numbers in decimal digits without a leading zero |
| Printing.ScalarTexts | cmd/sign1util/main.go:43-51 | what each kind of scalar prints |
| Printing.ContainerTexts | cmd/sign1util/main.go:33-42 | brackets, braces, colons and the text between them |
| Printing.ElementTexts | cmd/sign1util/main.go:37-42 | every element of an array has its place in the text |
| Printing.MapIsSorted | cmd/sign1util/main.go:28-36 | the text of a map is that of its entries in the order of their key texts |
| Determinism.UsualDeterministic | cmd/sign1util/main.go:16-18 | hence maps with such keys, no number twice, print the same in every run, at any depth and with no condition on values |
| Determinism.AlikeKeysUnordered | cmd/sign1util/main.go:28-36 | a map of any size with two keys that print alike and whose entries do not interchange: some valid run prints another text |
| Determinism.DecodedMapUnordered | cmd/sign1util/main.go:28-36 | the number 5 and the byte string "5" as keys of one map, which the decoder can return: some run prints another text |
| Sorting.SortDetermined | cmd/sign1util/main.go:32 | the result of a sort is determined if and only if entries with equal keys are equal |
| Sorting.LessExact | cmd/sign1util/main.go:32 | strings are ordered by their first different byte, and a prefix comes before what it begins |

## Left out

- ComputeStatementHash: inputs are shorter than 2^64 bytes, as every Go slice is; an envelope whose unprotected header holds a value with one of the tags 0 to 3 (times, big integers), or a map keyed by a float or a tag, is refused by the model and hashed by the program.
- ReplaceReceipts: the same inputs are refused; the CBOR library turns the values of tags 0 to 3 into Go times and big integers, which it may encode in another form than it read.
- UnpackReceipts: the same inputs have no digest; the decoding by the COSE library is a parameter, of which `LawfulCose` asks only that its receipts header is the one in the bytes.
- ToValue: the self-description tag 55799 is refused directly inside another tag; the CBOR library's limits on nesting and element counts are not modelled.
- FetchIssuerKeys: the network, TLS, the size limit and JSON decoding are one function from issuer to key list, which answers the same each time.
- EncodeTTLPayload: a single key is encoded and decoded by an inverse pair given as a parameter.
- FormatDeterministic: quoting is an injective parameter, and the text of floats, tagged values and integers below the int64 range is another.
- DumpReadsBack: JSON is modelled by what it does to strings; its syntax is not.
- Decode: the block decoder is that of Go 1.21's `encoding/pem`, which is not part of the repository; header names and values are skipped, not kept.
- CheckReceipts: what the command prints, and the errors of DID resolution, are not modelled.
- The cryptography (SHA-256, signing, verification), X.509, certificate chain verification and did:x509 resolution: parameters or absent.
- The decoding of protected headers and of receipts by the COSE library: a receipt arrives as its decoded message.
- `CreateCoseSign1`, `MakeDidX509`, `ParsePemChain` of misc.go, `StringToAlgorithm`, header printing and the command line: one pass over library calls each.
- Error texts: a call succeeds, returns an error or panics.
