# A verified model of the hybrid key object of oqs-provider

oqs-provider gives OpenSSL 3 post-quantum (PQ) algorithms and *hybrids*, which pair a PQ algorithm with a
classical one (EC, X25519/X448, RSA). A hybrid key is one flat buffer per half:

    4-byte big-endian length | classical bytes | PQ bytes | zero padding up to the table maximum

The length may be smaller than the maximum in the classical key table, so where the PQ bytes start depends on the
header. Key generation, PKCS#8 and SubjectPublicKeyInfo, import and export, the TLS key share, the KEM, signatures,
matching and the text dump each slice this buffer with arithmetic of their own. This project models them and proves
that the slices agree, end to end. It also covers the signature context as a state machine, reference counting over
every interleaving, the ownership of a decoded key, and the template generator that writes parts of the sources.

`dafny verify dfyconfig.toml` checks the whole project. The build modelled is the default one: public keys are stored
with private ones, no external encoding library, atomic reference counts.

## How it is arranged

| file | contents |
|---|---|
| `Bytes.dfy`, `Der.dfy` | the length header and C's integer conversions; DER OCTET STRING (sections 8.1.3, 8.7 and 10.1 of X.690) |
| `Schemes.dfy` | the classical and PQ schemes as parameters, with the laws assumed of them; the algorithm record |
| `KeyLayout.dfy`, `KeySteps.dfy` | the buffer layout, and what each operation does to it |
| `KeyAgreement.dfy`, `KeyRuns.dfy` | whether the classical key is the one the public buffer encodes; what holds over whole runs |
| `Pkcs8.dfy`, `KeyTransfer.dfy` | private key blobs (the privateKey field of section 5 of RFC 5208), export and import, public keys, the TLS key share |
| `KeyBytes.dfy` | generated, stored, decoded, imported and replaced keys byte by byte |
| `Keys.dfy`, `KeyReplay.dfy`, `Encoder.dfy` | the key object as a class over heap buffers, proved against those state functions; lists of operations on it |
| `HybridKem.dfy`, `KemContext.dfy` | the hybrid KEM (sections 3.2 and 3.3 of draft-ietf-tls-hybrid-design): values, then heap buffers |
| `HybridSig.dfy`, `SigStreams.dfy` | hybrid signatures; the signature context as a state machine |
| `SigContext.dfy`, `SigDuplicates.dfy` | the context object; a context and its duplicate in any interleaving |
| `KeyMatch.dfy`, `TextDump.dfy` | matching; the text form |
| `RefCounts.dfy`, `DecoderOwnership.dfy` | reference counts under interleaving; who frees a decoded key |
| `Template.dfy` | `populate` of the generator |
| `Consistency.dfy`, `Counterexamples.dfy` | an instance in which every assumed law holds; inputs on which expected statements fail |

Each imperative method is specified by a function of values (`Generated`, `Imported`, `DecodePrivate`, `Encapsulated`,
`Signed`, `Next`, ...), and the properties are proved of those functions. A signature context keeps a ledger of what
was ever allocated for it (`born`) and what went back (`gone`); nothing can be freed that is not in the first or is in
the second, and `Conserved` says that its parts are exactly what is in the first alone. `GenerateStoreReload`,
`Handshake` and `SignThenVerifyInPieces` join both levels: they call the methods on the heap and end in a property.

## What is assumed

* Cryptography is a set of functions of the random draws, gathered in `Classical` and `Pq`. The laws (encodings of
  generated keys are read back, a DER private key says where it ends, both ends of an exchange derive the same secret,
  the PQ KEM and both signature schemes are correct) are predicates a theorem asks for by name, and
  `Consistency.LawsCanHold` gives an instance that meets them all; `FullLengthsGenerate` has one at the table's lengths,
  as DER and raw.
* Outputs of the component schemes have their advertised sizes, and no classical encoding is longer than the key
  buffer it is written into before its length is checked (`Algorithm.Valid`).
* The private decoder reads the header before it tests the length, so its input has four bytes. Public decoding, import
  and signature verification read as many bytes as the header says: it has to stay inside the buffer
  (`ImportReadable`, `HeaderInBuffer`). Nothing else is asked of a header; `ImportedIsCompletedIff` says when it is
  within the table.
* One function stands for each way OpenSSL has of parsing a classical public key, and one for each way of parsing a
  private key, although the provider calls different ones in the key object and in the KEM.
* A signature or KEM context is used by one thread at a time. Keys are shared freely.

## What turned out to be conditional

* **PKCS#8.** Key generation accepts a classical public encoding shorter than the table says, the private decoder does
  not. `FreshKeyRoundTrip`: a fresh key comes back identical if the encoding has the table's length and is refused
  otherwise. `RoundTripIff` gives the condition for any finished key. `ShortPublicKeyIsLost` is an input.
* **Import.** The layout holds after a successful import if and only if the headers are within the table
  (`ImportedIsCompletedIff`); `ImportedHeaderCanExceedTable` is an input.
* **Replacing the encoded public key.** The layout survives if and only if there was a public buffer and, for hybrid
  signature keys, the new header is the old one, since the component pointers are not recomputed
  (`ReplacedIsCompletedIff`, `ReplacedHeaderBreaksLayout`). For hybrid KEMs the public buffer arrives whole if and only
  if both keys carry the same header (`EncodedPublicTransfersIff`). The classical key is not rebuilt: it remains the one
  the public buffer encodes if and only if the classical bytes do not change (`ReplacedAgreesIff`). A hybrid signature
  key then checks the classical part with its old key and the PQ part with the new one (`ReplacedAccepts`), and may
  refuse the very signer whose public key it was given (`ReplacedKeyRefusesItsOwner`). Hybrid KEM operations read the
  buffers and do not use the classical key.
* **Key generation** returns 0, its success value, also when the classical half fails: `Keys.OqsxKey.Gen` states the exact
  condition, `FailureReportedAsSuccess` is an input. When the PQ half fails, the generator returns NULL without
  releasing the key it made (`Keys.NewKeyPair`, `FailedGenerationLeaks`). So `references` is the number of live handles
  and of handles dropped this way, and a key nobody holds is torn down if and only if none was (`CountIsLiveHandles`,
  `QuietMeansTornIffReleased`, `AbandonedForGood`).
* **Reusing a signature context.** Neither initialisation nor a final call empties the collected data, and an
  initialisation that names no digest leaves the digest context of an earlier one in place. A context used again in this
  way takes just its new data, as it is, if and only if it had neither (`ReuseIsCleanIff`); otherwise old data comes first,
  or hashing goes on, or, if that digest context was finalised, every update and final call fails (`ReuseGoesOn`,
  `ReusedContextKeepsOldData`, `ReusedContextKeepsHashing`). An initialisation that names a digest is clean from any
  context. Setting a digest after initialisation drops the digest context, and from then on the data itself is signed
  (`SetDigestStopsHashing`). A first update with no data fails.
* **Digest lock.** A comment in the source says that the final calls let the digest be changed again. Verification does
  so only with an active digest context; `DigestLock` follows the code, and `VerificationKeepsTheLock` is an input:
  without a digest, one update and a final verification leave every later attempt to set a digest refused.
* **TLS key share.** It travels without its header, so the server reads it under its own. Both pairs are taken to have
  classical public encodings of the table's length (`FreshKemKey`). On the client's side this cannot be done without if
  the classical parser takes no trailing bytes: the server hands it a window of that length (`ShareNeedsTableLength`).
  On the server's side another header makes it take the PQ key from another place in the share (`OtherHeaderShiftsPq`).
* **A decoded key** is taken by the first load with the right size, and every other load gets NULL (`CallBack`).
* **Matching** with domain parameters is not transitive (`DomainMatchIsNotTransitive`); `DomainMatchChainsIff` says when
  a chain breaks.

## Model

| member | source | states |
|---|---|---|
| Bytes.HeaderReadsBack | oqsprov/oqs_prov.h:55-65 | a length header is read back as written, whatever follows it |
| Bytes.HeaderIsUnique | oqsprov/oqs_prov.h:61-65 | every four bytes are the header of exactly one length |
| Bytes.OrIsSum | oqsprov/oqs_prov.h:61-65 | the OR-ed accumulation of the macro, bit by bit, is the sum the model decodes with |
| Bytes.StoreUint32 | oqsprov/oqs_prov.h:56-60 | storing a header writes its four bytes at the front of the buffer and leaves the rest |
| Der.OctetsReadBack | oqsprov/oqs_encode_key2any.c:619-630 | a wrapped blob is unwrapped whatever follows it, and its length field is minimal |
| Der.OctetsEncodingIsUnique | oqsprov/oqsprov_keys.c:606-613 | of the primitive encodings, the encoder's output is exactly the one with a minimal length field |
| Der.OctetsSpelledOut | oqsprov/oqs_encode_key2any.c:619-630 | the encoder's bytes for every length: tag 4, one length octet below 128, a count and base-256 digits from there on, the contents |
| Der.ParserSpelledOut | oqsprov/oqsprov_keys.c:606-613 | which inputs the parser takes and what it makes of them: any other tag is refused, leading zeros in the length are not |
| KeyLayout.PartitionIffHeaderWithinTable | oqsprov/oqsprov_keys.c:209-242 | a buffer is exactly header, classical slice, PQ slice and padding if and only if its header is at most the table maximum |
| KeySteps.GeneratedPrivateParts | oqsprov/oqsprov_keys.c:1083-1201 | generation puts the classical encoding in the classical slice, the PQ secret in the PQ slice, and in a new buffer leaves zeros behind them |
| KeySteps.GeneratedPublicParts | oqsprov/oqsprov_keys.c:1083-1201 | the same for the public buffer: classical encoding, PQ public key, and zeros behind them in a new buffer |
| KeySteps.GeneratedIsCompleted | oqsprov/oqsprov_keys.c:1160-1201 | generation leaves a finished key: partitioned buffers, pointers at the slices, a classical key exactly for hybrids |
| KeySteps.ImportedIsCompletedIff | oqsprov/oqsprov_keys.c:1013-1065 | a successful import leaves a finished key if and only if its headers are within the table |
| KeySteps.ReplacedIsCompletedIff | oqsprov/oqs_kmgmt.c:410-450 | replacing the encoded public key keeps a finished key finished if and only if there was a public buffer and a hybrid signature key gets the header it had |
| KeyRuns.EveryRunKeepsLayout | oqsprov/oqsprov_keys.c:753-900 | over every run of decoding, allocation, generation, import and replacement, buffers keep their sizes and a finished key keeps the whole layout |
| KeyRuns.EveryRunKeepsAgreement | oqsprov/oqs_kmgmt.c:410-450 | over every run, a finished key whose classical bytes were only replaced by the same ones has the classical key its public buffer encodes |
| KeyReplay.Replay | oqsprov/oqsprov_keys.c:753-1201 | on the heap: a list of operations carried out on a new key object takes it through the states of a run |
| KeyReplay.ReplayKeepsLayout | oqsprov/oqs_kmgmt.c:410-450 | so the object has the whole layout when a run finishes a key, and the classical key its public buffer encodes when the halves were kept in step |
| KeyAgreement.GeneratedAgrees | oqsprov/oqsprov_keys.c:1176-1189 | generation leaves the classical key that the public buffer encodes |
| KeyAgreement.DecodedAgrees | oqsprov/oqsprov_keys.c:533-571 | so does decoding a private blob |
| KeyAgreement.ImportedAgreesIff | oqsprov/oqsprov_keys.c:495-577 | an import, public decoding included, does if and only if the header has the table length, with a private buffer, or the classical bytes are those the encoder writes, without |
| KeyAgreement.FreshPublicAgrees | oqsprov/oqsprov_keys.c:579-592 | the public half of a generated key does after decoding |
| KeyAgreement.ReplacedAgreesIff | oqsprov/oqs_kmgmt.c:410-438 | a replacement keeps it if and only if the classical bytes do not change |
| KeyAgreement.ReplacedAccepts | oqsprov/oqs_sig.c:337-449 | after a replacement, verification checks the classical part with the old key and the PQ part with the new one |
| Pkcs8.LengthsNeverWrap | oqsprov/oqs_encode_key2any.c:565-575 | for every 32-bit header, those negative as an int included, encoder and decoder compute the same exact length or both reject |
| Pkcs8.DecodedIsCompleted | oqsprov/oqsprov_keys.c:385-487 | an accepted blob is header, classical bytes, PQ secret, PQ public key; the key made of it is finished and zero past the PQ secret |
| Pkcs8.EncodedParts | oqsprov/oqs_encode_key2any.c:563-616 | the blob of a finished key is its header, classical slice, PQ secret and PQ public key, with neither padding nor classical public bytes |
| Pkcs8.ReencodingReturnsTheBlob | oqsprov/oqsprov_keys.c:385-487 | any blob the decoder accepts is exactly what the encoder makes of the resulting key |
| Pkcs8.RoundTripIff | oqsprov/oqs_encode_key2any.c:540-637 | encoding and decoding any finished key succeeds if and only if its classical half can be rebuilt at the table's length, and restores both buffers if and only if they are canonical |
| Pkcs8.FreshKeyIsCanonical | oqsprov/oqsprov_keys.c:1083-1157 | a generated hybrid key can be rebuilt exactly when its classical public encoding has the table's length, and is then canonical |
| Pkcs8.FreshKeyRoundTrip | oqsprov/oqsprov_keys.c:385-487 | a generated key comes back identical (buffers, pointers, classical key) if its classical public encoding has the table's length, and is refused otherwise |
| Pkcs8.FreshKeyDerRoundTrip | oqsprov/oqsprov_keys.c:594-618 | the same through the OCTET STRING wrapping |
| Pkcs8.DerReencodingIff | oqsprov/oqsprov_keys.c:594-618 | any wrapped key that is accepted is, up to what follows it, exactly what the encoder makes of the key, if and only if its length field is minimal |
| KeyBytes.ClassicalPairKeptIff | oqsprov/oqsprov_keys.c:1106-1141 | a drawn classical pair is kept exactly when its encodings are at most, or for raw ones exactly, as long as the table says; the selftest refuses none |
| KeyBytes.GeneratedBytes | oqsprov/oqsprov_keys.c:1083-1201 | the whole state of a new hybrid key: big-endian length, classical encoding, PQ bytes and zeros in both buffers, the four pointers, the classical key |
| KeyBytes.PlainGeneratedBytes | oqsprov/oqsprov_keys.c:1067-1078 | a new plain key is the PQ pair, or nothing |
| KeyBytes.StoredBytes | oqsprov/oqs_encode_key2any.c:563-616 | the blob of a new key: big-endian length, classical private encoding, PQ secret, PQ public key |
| KeyBytes.DecodedBytes | oqsprov/oqsprov_keys.c:385-487 | of every hybrid input, whether it is accepted, and the key it makes byte by byte |
| KeyBytes.PlainDecodedBytes | oqsprov/oqsprov_keys.c:385-487 | the same for plain keys |
| KeyBytes.ImportedPublicBytes | oqsprov/oqsprov_keys.c:346-384 | a public buffer alone is taken as it is if and only if the bytes its header names parse |
| KeyBytes.ImportedPrivateBytes | oqsprov/oqsprov_keys.c:1013-1065 | a private buffer decides an import; the classical public bytes it determines go over those that came with it, behind the header that came with them |
| KeyBytes.ReplacedBytes | oqsprov/oqs_kmgmt.c:410-450 | what a replacement takes, by length, and every field it leaves, type by type |
| KeyBytes.PointersSpelledOut | oqsprov/oqsprov_keys.c:209-242 | the pointers of any hybrid buffer, a length of 2^31 or more becoming negative |
| KeyBytes.LongestOutput | oqsprov/oqsprov_keys.c:1208-1227 | the maximum size, key type by key type |
| KeyBytes.ImportOfFreshPair | oqsprov/oqs_kmgmt.c:198-310 | on the heap: a generated pair exported and imported into a new key arrives whole if and only if a parameter bit is selected and its classical public encoding has the table's length |
| KeyTransfer.ExportThenImport | oqsprov/oqs_kmgmt.c:198-310 | for every selection, when exporting a finished pair into a new key succeeds, and which buffers and pointers come back; the public buffer does if and only if it matches the private key that came along |
| KeyTransfer.FreshKeyExportImport | oqsprov/oqsprov_keys.c:1013-1065 | a generated pair survives export and import whole exactly when its classical public encoding has the table's length |
| KeyTransfer.FreshKeyPublicRoundTrip | oqsprov/oqsprov_keys.c:579-592 | the public half decoded from its SubjectPublicKeyInfo has the same buffer, pointers and classical public key, and nothing private, whatever the classical length |
| KeyTransfer.EncodedPublicTransfersIff | oqsprov/oqs_kmgmt.c:352-366 | the encoded public key of one key, set on another, transfers the whole public buffer if and only if hybrid KEM keys carry equal headers |
| Keys.OqsxKey.constructor | oqsprov/oqsprov_keys.c:753-927 | a new key has the lengths of its type, no buffers, one reference |
| Keys.OqsxKey.SetComposites | oqsprov/oqsprov_keys.c:209-242 | the component pointers become the slices' starts, through a signed 32-bit length |
| Keys.OqsxKey.AllocateKeymaterial | oqsprov/oqsprov_keys.c:997-1011 | allocates the one missing buffer asked for, zeroed, and changes nothing else |
| Keys.OqsxKey.GenEvpKey | oqsprov/oqsprov_keys.c:1083-1157 | both buffers get header and classical encoding and keep every byte behind them; it fails exactly when generation, a length check against the table or the selftest does |
| Keys.OqsxKey.GenOqs | oqsprov/oqsprov_keys.c:1067-1078 | the PQ pair is written where the last component pointers point, and nowhere else |
| Keys.OqsxKey.Gen | oqsprov/oqsprov_keys.c:1160-1201 | leaves the generated state; returns 0 exactly when both halves succeed or the classical half fails; after a successful PQ draw the classical key is the one drawn if it passes the checks, and otherwise the one from before |
| Keys.OqsxKey.RecreateClassickey | oqsprov/oqsprov_keys.c:495-577 | succeeds exactly when the classical half can be rebuilt, and writes the classical public bytes back into the public buffer |
| Keys.OqsxKey.FromData | oqsprov/oqsprov_keys.c:1013-1065 | succeeds exactly when the sizes fit and the classical key can be rebuilt, and then leaves the imported state in new buffers |
| Keys.OqsxKey.Import | oqsprov/oqs_kmgmt.c:198-213 | does the same when domain or other parameters are selected, and nothing otherwise |
| Keys.OqsxKey.Export | oqsprov/oqs_kmgmt.c:266-310 | hands over the buffers the selection asks for |
| Keys.OqsxKey.GetEncodedPublic | oqsprov/oqs_kmgmt.c:352-366 | the public buffer, for hybrid KEMs without its header, or an error for other keys without one |
| Keys.OqsxKey.SetEncodedPublic | oqsprov/oqs_kmgmt.c:410-450 | replaces the public bytes in place, or puts them in a buffer of their own where there is none, and drops the private buffer, leaving its pointers dangling; or changes nothing |
| Keys.OqsxKey.UpRef | oqsprov/oqsprov_keys.c:978-995 | one reference more |
| Keys.KeyFree | oqsprov/oqsprov_keys.c:929-976 | one reference less; the last one tears the key down, buffers and classical key with it, any other leaves it untouched |
| Keys.NewKeyPair | oqsprov/oqs_kmgmt.c:484-506 | returns NULL exactly when only the PQ half fails, with the key it made left at one reference; otherwise that key, in the generated state if both halves succeeded, with the drawn classical key exactly if it passes the checks |
| Keys.HalfwayToDecoded | oqsprov/oqsprov_keys.c:455-487 | rebuilding the classical half in the key the copies leave gives exactly the decoded key |
| Keys.KeyOp | oqsprov/oqsprov_keys.c:315-492 | returns a key exactly when the input is accepted, and then the decoded one, in new memory |
| Keys.DecodePublicInto | oqsprov/oqsprov_keys.c:346-384 | the public branch leaves what importing the same public buffer leaves |
| Keys.DecodePrivateInto | oqsprov/oqsprov_keys.c:385-485 | the private branch, with the C length arithmetic, leaves the decoded state or fails |
| Keys.CopyBlob | oqsprov/oqsprov_keys.c:455-477 | the copies turn a blob into a padded private buffer, and a public buffer with room for the classical part |
| Encoder.PrivToDer | oqsprov/oqs_encode_key2any.c:540-637 | the buffers assembled with the C length arithmetic are the wrapped blob, whose first bytes are 4 and the length |
| Encoder.FromPkcs8 | oqsprov/oqsprov_keys.c:594-618 | a key is made exactly when the wrapping parses and its contents decode; never when the first byte is not 4 |
| Encoder.SpkiPubToDer | oqsprov/oqs_encode_key2any.c:496-538 | the whole public buffer, or an error without one |
| Encoder.GenerateStoreReload | oqsprov/oqs_encode_key2any.c:540-637 | on the heap: generate, write, read back; the copy exists exactly when the classical public encoding has the table's length, equals the original in memory of its own, and matches it under every selection |
| HybridKem.WindowParses | oqsprov/oqs_kem.c:253-271 | the maximum-length window handed to the classical parser, running on into the PQ key, parses to the generated classical key |
| HybridKem.EncapsulationOpens | oqsprov/oqs_kem.c:306-391 | what is encapsulated to a public buffer is opened by the key holding its private half; the secret is the classical one, then the PQ one |
| HybridKem.EncapsulatesIff | oqsprov/oqs_kem.c:306-346 | encapsulation to such a buffer fails exactly when one of its own draws does |
| HybridKem.EncapsulationBytes | oqsprov/oqs_kem.c:167-241 | ciphertext and secret in terms of the schemes: ephemeral share, then PQ ciphertext; derived secret, then PQ secret; and exactly when there are any |
| HybridKem.DecapsulationBytes | oqsprov/oqs_kem.c:348-391 | the same for decapsulation, which splits the ciphertext at the table's length |
| HybridKem.KeyShareArrives | oqsprov/oqs_kmgmt.c:416-438 | the client's header-less key share, set on the server's own key, becomes the client's public buffer there, and the private half is gone |
| HybridKem.TlsAgreement | STANDARDS.md:15 | key generation, key share, encapsulation and decapsulation give both sides the same secret, classical followed by PQ |
| HybridKem.ShareNeedsTableLength | oqsprov/oqs_kem.c:167-211 | whatever key pair the server has, it can encapsulate to a generated key's share only if its classical public encoding has the table's length, when the classical parser takes no trailing bytes |
| HybridKem.OtherHeaderShiftsPq | oqsprov/oqs_kmgmt.c:416-438 | the server reads the PQ half of a share where its own header says |
| KemContext.KemCtx.Init | oqsprov/oqs_kem.c:77-89 | takes a reference before releasing the old one; re-initialising with the held key changes neither its count nor the key |
| KemContext.KemCtx.Free | oqsprov/oqs_kem.c:68-75 | releases exactly one reference |
| KemContext.EvpEncaps | oqsprov/oqs_kem.c:167-241 | writes share and secret of an ephemeral exchange at its pointers only; a query reports the same lengths |
| KemContext.QsEncaps | oqsprov/oqs_kem.c:107-129 | writes PQ ciphertext and secret at its pointers only; a query reports the same lengths |
| KemContext.HybEncaps | oqsprov/oqs_kem.c:306-346 | query and real call report the same lengths; the two ciphertexts, and the two secrets, lie side by side, cover the outputs, and nothing else is touched |
| KemContext.EvpDecaps | oqsprov/oqs_kem.c:243-302 | the exchange redone from the private window, written at the secret pointer only |
| KemContext.QsDecaps | oqsprov/oqs_kem.c:131-150 | the PQ secret, written at its pointer only |
| KemContext.HybDecaps | oqsprov/oqs_kem.c:348-391 | the secret length is the maximum size; a ciphertext of any other length is refused with nothing written |
| KemContext.Handshake | oqsprov/oqs_kem.c:306-391 | on the heap, from two key generations on: it succeeds exactly when the server's draws do, and then both secret buffers hold the same bytes |
| KeyMatch.MatchIsReflexive | oqsprov/oqs_kmgmt.c:126-196 | every key matches itself under every selection |
| KeyMatch.MatchIsSymmetric | oqsprov/oqs_kmgmt.c:126-196 | matching does not depend on the order of the keys |
| KeyMatch.NothingSelectedMatches | oqsprov/oqs_kmgmt.c:126-196 | with neither half selected any two keys match |
| KeyMatch.PrivateMatchIsEquality | oqsprov/oqs_kmgmt.c:154-171 | private-only matching is equality of name and optional private buffer |
| KeyMatch.PublicMatchIsEquality | oqsprov/oqs_kmgmt.c:173-192 | public matching without domain parameters is equality of name and optional public buffer |
| KeyMatch.EqualityMatchesChain | oqsprov/oqs_kmgmt.c:154-192 | both are transitive, hence equivalences |
| KeyMatch.DomainMatchIff | oqsprov/oqs_kmgmt.c:173-192 | with domain parameters, equal private buffers also count where the public parts cannot be compared |
| KeyMatch.DomainMatchChainsIff | oqsprov/oqs_kmgmt.c:173-192 | exactly when two matches in a row fail to give the third |
| KeyMatch.DomainMatchIsNotTransitive | oqsprov/oqs_kmgmt.c:119-124 | three keys that show it |
| HybridSig.AcceptsIffBothAccept | oqsprov/oqs_sig.c:337-449 | a signature put together from two parts is accepted if and only if the classical check accepts the first and the PQ check the second, both with the level's digest |
| HybridSig.AcceptedIff | oqsprov/oqs_sig.c:337-449 | what is accepted, in terms of the schemes: by a plain key exactly what its PQ check accepts, by a hybrid key exactly what passes both checks, the classical one over the digest of the claimed level |
| HybridSig.SignatureBytes | oqsprov/oqs_sig.c:207-335 | what is signed, in terms of the schemes: the PQ signature over the data, for hybrids behind the length and bytes of a classical one over the digest of the claimed level; and exactly when there is one |
| HybridSig.EverySignatureIsAPair | oqsprov/oqs_sig.c:380-436 | any signature with its header inside is such a pair |
| HybridSig.SignThenVerify | oqsprov/oqs_sig.c:207-335 | every signature of a generated key verifies under it, and under its public half decoded by another party |
| SigStreams.MessageIsConcatenation | oqsprov/oqs_sig.c:504-540 | from any context, updates with size queries in between append exactly their chunks, hashed or collected; a finalised digest context takes none |
| SigStreams.CallEffects | oqsprov/oqs_sig.c:451-750 | every call, field by field: what it changes, what it keeps, when it fails |
| SigStreams.StreamingEqualsOneShot | oqsprov/oqs_sig.c:451-600 | after initialising a new context, or any context with a digest, what is signed is the concatenation of the chunks, or its digest |
| SigStreams.ReuseIsCleanIff | oqsprov/oqs_sig.c:451-486 | any context initialised again without a digest takes exactly its new chunks, as they are, if and only if it had neither collected data nor a digest context |
| SigStreams.ReuseGoesOn | oqsprov/oqs_sig.c:134-167 | what it signs otherwise, and that everything fails when its digest context was finalised |
| SigStreams.SetDigestStopsHashing | oqsprov/oqs_sig.c:134-167 | a digest set after initialisation drops the digest context, and the data itself is signed |
| SigStreams.DigestLock | oqsprov/oqs_sig.c:720-750 | over every run, setting a digest is refused if and only if some update has not been followed by a call that unlocks in the state it meets |
| SigStreams.RefusedAttemptsChangeNothing | oqsprov/oqs_sig.c:720-750 | and then any number of attempts fail and change nothing |
| SigContext.Sign | oqsprov/oqs_sig.c:207-335 | a query reports the maximum size; too small a buffer is left alone; otherwise the signature of the schemes, the classical one over SHA-256, SHA-384 or SHA-512 by level, and its length are written at the front |
| SigContext.Verify | oqsprov/oqs_sig.c:337-449 | accepts exactly what the PQ check accepts over the data, and for hybrids the classical check over the digest of the level as well |
| SigContext.SigCtx.constructor | oqsprov/oqs_sig.c:115-132 | a new context is empty |
| SigContext.SigCtx.SetUpDigest | oqsprov/oqs_sig.c:134-167 | a digest that can be fetched replaces digest and algorithm id and drops the digest context, giving back what it replaces; another changes nothing |
| SigContext.SigCtx.SignVerifyInit | oqsprov/oqs_sig.c:169-187 | the new key gains a reference, the old one loses one, the same key keeps its count; fails exactly without a private half to sign or a public half to verify |
| SigContext.SigCtx.DigestInit | oqsprov/oqs_sig.c:451-486 | the initialisation step of the state machine |
| SigContext.SigCtx.DigestUpdate | oqsprov/oqs_sig.c:504-540 | the update step; collected data moves to a grown buffer |
| SigContext.SigCtx.SetDigestParam | oqsprov/oqs_sig.c:720-750 | the step that sets the digest |
| SigContext.SigCtx.DigestSignQuery | oqsprov/oqs_sig.c:542-576 | the size query; it unlocks the digest and changes nothing else |
| SigContext.SigCtx.DigestSignFinal | oqsprov/oqs_sig.c:542-576 | signs exactly the message of the state before the call |
| SigContext.SigCtx.DigestVerifyFinal | oqsprov/oqs_sig.c:578-600 | verifies against exactly the message of the state before the call |
| SigContext.SigCtx.Dup | oqsprov/oqs_sig.c:623-678 | equal contents in buffers of its own, one more reference on the shared key |
| SigContext.SigCtx.Free | oqsprov/oqs_sig.c:602-621 | gives back exactly the buffers the context owned, the property query included, and one reference; with that everything ever allocated for it has gone back |
| SigContext.SigCtx.ReplaceData | oqsprov/oqs_sig.c:514-524 | growing the collected data gives the old buffer back, which had not gone back before, and the new one is the context's |
| SigContext.SigCtx.Replay | oqsprov/oqs_sig.c:504-600 | any sequence of updates, queries, final calls and digest settings on the object is the run of the state machine |
| SigDuplicates.DuplicatesAreIndependent | oqsprov/oqs_sig.c:623-678 | after a duplication, under any interleaving of calls, initialisations and releases, each context is where its own events lead, or, once released, everything ever allocated for it has gone back; nothing is ever allocated for both |
| SigDuplicates.Turn | oqsprov/oqs_sig.c:451-621 | one event on one of two contexts that share only keys leaves the other as it was; what it frees had not gone back before and nothing comes to belong to both |
| SigDuplicates.DriveInterleaved | oqsprov/oqs_sig.c:602-621 | over such an interleaving the ledgers of the two contexts stay disjoint and complete: what was allocated for a context is one of its parts or has gone back, never both, after its release it all has; the counts of the keys move by what the two contexts hold |
| SigDuplicates.FreeBoth | oqsprov/oqs_sig.c:602-621 | releasing both at once gives back what each owned, nothing of it twice, and two references |
| SigContext.SignThenVerifyInPieces | oqsprov/oqs_sig.c:451-600 | on the heap, from key generation on: signing fails only with the schemes, and a signature over the chunks is accepted by a verifier fed the same bytes in other chunks |
| RefCounts.StepKeepsInv | oqsprov/oqsprov_keys.c:929-995 | every atomic step keeps counts, teardowns and pending references in order |
| RefCounts.CountIsLiveHandles | oqsprov/oqsprov_keys.c:929-995 | over every interleaving `references` is the number of live handles and of handles dropped without a release, and no held key is or is being torn down |
| RefCounts.TornDownOnce | oqsprov/oqsprov_keys.c:929-976 | a key is torn down in at most one step, after its last release, and never gets a handle again |
| RefCounts.TornDownWhenReleased | oqsprov/oqsprov_keys.c:935-949 | only the teardown step tears down, and only a key nobody holds |
| RefCounts.QuietMeansTornIffReleased | oqsprov/oqs_kmgmt.c:501-504 | when every thread is between operations, a key has been torn down exactly if nobody holds it and none of its handles was dropped without a release |
| RefCounts.AbandonedForGood | oqsprov/oqs_kmgmt.c:501-504 | a key with such a handle is never torn down |
| RefCounts.NoThreadIsStuck | oqsprov/oqsprov_keys.c:929-995 | in every reachable state each thread can go on: with the next step of its operation, or, idle, with any operation on handles no other thread is changing |
| RefCounts.ReinitialisingKeepsTheKey | oqsprov/oqs_kem.c:77-89 | re-initialising a context with the key it holds never brings its count to zero |
| DecoderOwnership.Load | oqsprov/oqs_kmgmt.c:528-541 | takes the key out of the reference, given the right size |
| DecoderOwnership.CallBack | oqsprov/oqs_kmgmt.c:528-541 | of any number of loads with any sizes, the first with the right size takes the key and every other one gets NULL |
| DecoderOwnership.Attempt | oqsprov/oqs_decode_der2key.c:320-350 | which parsers run and when the attempt stops |
| DecoderOwnership.ParsesIff | oqsprov/oqs_decode_der2key.c:320-356 | asked for something, exactly one parser decides, by precedence; asked for nothing, any one the mask selects will do |
| DecoderOwnership.Decode | oqsprov/oqs_decode_der2key.c:288-404 | on every path a key that was made is either taken by exactly one load or freed exactly once; when each happens, what every load gets, and the result |
| TextDump.PrintLabeledBuf | oqsprov/oqs_encode_key2any.c:1222-1246 | prints the section text the other lemmas are about |
| TextDump.BodyReadsBack | oqsprov/oqs_encode_key2any.c:1230-1241 | the dump of a buffer reads back to it |
| TextDump.LinesHoldFifteen | oqsprov/oqs_encode_key2any.c:1230-1241 | line j holds exactly bytes 15 j to 15 j + 15, the last line the rest |
| TextDump.LinesSpelledOut | oqsprov/oqs_encode_key2any.c:1230-1241 | every line character by character: four blanks, lower-case digits, a colon behind each byte but the very last |
| TextDump.SectionLines | oqsprov/oqs_encode_key2any.c:1222-1246 | a section is its label, the lines of the dump and a line's end |
| TextDump.HybridTextLosesNothing | oqsprov/oqs_encode_key2any.c:1304-1353 | the printed text of a buffer, two sections for a hybrid, reads back to everything behind the header |
| TextDump.KeyTextLosesNothing | oqsprov/oqs_encode_key2any.c:1248-1356 | the whole text of a key reads back to the material of the selected halves |
| TextDump.KeyTextSpelledOut | oqsprov/oqs_encode_key2any.c:1248-1356 | title and sections word for word, for every key type and selection, and when there is no text |
| TextDump.BufferTextSpelledOut | oqsprov/oqs_encode_key2any.c:1300-1353 | the one or two sections of a buffer, their labels and which bytes go where |
| TextDump.ToText | oqsprov/oqs_encode_key2any.c:1248-1356 | which titles and sections are printed for which selection, through the component pointers, and when it fails |
| Template.Populate | oqs-template/generate.py:161-181 | the loop computes the population the lemmas below are about, with Python's -1 indices |
| Template.ReplacedFillsRegion | oqs-template/generate.py:175-180 | one turn of the loop replaces the body of exactly one region |
| Template.PopulateFills | oqs-template/generate.py:161-181 | population fills exactly the regions of the listed fragments; all other text stays, and the result is again a document with its markers |
| Template.OrderDoesNotMatter | oqs-template/generate.py:162-181 | the order in which the fragments are listed makes no difference |
| Template.PopulateIsIdempotent | oqs-template/generate.py:161-181 | populating twice is populating once |
| Template.MissingMarkersInsert | oqs-template/generate.py:175-176 | what happens without the markers: text is inserted before the last character |
| Template.MarkersAreDelimited | oqs-template/generate.py:170-174 | the markers the generator writes, letter by letter, and that they have the shape that keeps them from overlapping |
| Template.DelimitedMarkersAreApart | oqs-template/generate.py:238-253 | markers behind one delimiter cannot overlap unless one begins the other |
| Template.GeneratorFragmentsAreGood | oqs-template/generate.py:170-174 | with identifiers that do not go on from one another with a suffix, the fragments meet what population needs if and only if no rendered text contains a marker |
| Counterexamples.ShortPublicKeyIsLost | oqsprov/oqsprov_keys.c:1128-1130 | a generated key whose PKCS#8 cannot be read back |
| Counterexamples.ImportedHeaderCanExceedTable | oqsprov/oqsprov_keys.c:1041-1059 | an accepted import that breaks the layout |
| Counterexamples.FailureReportedAsSuccess | oqsprov/oqsprov_keys.c:1178-1180 | a hybrid key without a classical key, reported as generated |
| Counterexamples.FailedGenerationLeaks | oqsprov/oqs_kmgmt.c:501-504 | a failed generation that keeps its reference |
| Counterexamples.ReplacedHeaderBreaksLayout | oqsprov/oqs_kmgmt.c:427-436 | a replacement after which the layout is broken |
| Counterexamples.ReplacedKeyRefusesItsOwner | oqsprov/oqs_kmgmt.c:427-438 | a replacement with an equal header after which the signer whose public key was set is refused |
| Counterexamples.OtherPqPartIsRefused | oqsprov/oqs_sig.c:434-440 | a hybrid signature that only the PQ check refuses |
| Counterexamples.OtherPlainSignatureIsRefused | oqsprov/oqs_sig.c:434-440 | a plain key accepts its own signature, neither another one nor no bytes |
| Counterexamples.ReusedContextKeepsOldData | oqsprov/oqs_sig.c:451-486 | a reused context that signs old data too |
| Counterexamples.ReusedContextKeepsHashing | oqsprov/oqs_sig.c:465-476 | a reused context that has collected nothing and hashes old data too |
| Counterexamples.VerificationKeepsTheLock | oqsprov/oqs_sig.c:592-599 | a verification without a digest context after which setting a digest is refused |

## Left out

- OpenSSL's dispatch tables, parameter arrays, BIO, PEM and encrypted PKCS#8, and the encoders that wrap the blob in a
  PrivateKeyInfo: library interfaces. The model starts at the contents of the privateKey and subjectPublicKey fields.
- Name and NID lookups, the generated algorithm tables and capabilities: the algorithm record is a parameter.
- The cryptography, hashing and digest fetching: parameters, with laws where a theorem needs them.
- Builds with an external encoding library, without public keys in private ones, or with locks instead of atomics.
- Allocation failure, hence also the error path of context duplication, on which the new context still points at
  the source's buffers.
- What a failed call leaves in key buffers (import, decoding) or output buffers (encapsulation, signing); where the
  source leaves them alone, the contracts say so.
- Weak memory ordering: atomic read-modify-writes are taken as sequentially consistent, and `references` as unbounded.
- Null handles passed to the signature entry points; only the KEM initialisation models them.
- Setting the encoded public key of a hybrid KEM key whose component pointers were never set.
- The plain KEM entry points: they are `QsEncaps` and `QsDecaps` with the first slot, which is the last one of a plain key.
- The second length test in the private branch of key decoding: it repeats one that has passed.
- `populate` with overwriting, rendering, YAML and file access: the fragments come with their rendered text.
- DecoderOwnership.Decode: the callback is the list of sizes it loads with, and its result; it does not keep the reference beyond the call. The parsers are their outcomes; `adjust_key` is not called.
- Der.OctetsEncodingIsUnique: is about primitive encodings; the constructed form of section 8.7 of X.690, which OpenSSL's parser accepts too, is refused by the model's.
- Encoder.PrivToDer: asks that the last public component pointer leaves room for the PQ key in the public buffer, which an imported header above the table can break; the source reads past it then.
- Encoder.FromPkcs8: asks for the four header bytes of a hybrid blob; the source reads past a shorter one.
- HybridSig.AcceptedIff: asks that the header of a hybrid signature stays inside it.
- HybridKem.KeyShareArrives: asks for classical public encodings of the table's length on both key pairs; see above.
- HybridKem.TlsAgreement: asks for the same.
- KemContext.EvpDecaps: a real call asks for a private buffer; the source hands the missing pointer to the library.
- KemContext.EvpEncaps: a real call asks for a public buffer; the source hands the missing pointer to the library.
- KemContext.Handshake: asks for classical public encodings of the table's length on both key pairs.
- KemContext.HybDecaps: a ciphertext of the right length asks for a private buffer.
- KemContext.HybEncaps: a real call asks for a public buffer.
- KemContext.QsDecaps: a real call asks for a private buffer.
- KemContext.QsEncaps: a real call asks for a public buffer.
- KeyReplay.Replay: stops at the first operation that fails.
- KeyBytes.DecodedBytes: asks for the four header bytes of a hybrid blob.
- KeyBytes.ImportedPrivateBytes: asks that the private header stays inside its buffer.
- KeyBytes.ImportedPublicBytes: asks that the header of a buffer of the right size stays inside it.
- KeyRuns.EveryRunKeepsLayout: speaks of runs in which every operation succeeded, and counts a generation whose classical half failed as unsuccessful although it returns 0.
- Keys.DecodePrivateInto: asks for the four header bytes of a hybrid blob; the source reads past a shorter one.
- Keys.DecodePublicInto: asks that the header stays inside the buffer; the source reads past it otherwise.
- Keys.KeyOp: asks for both of these.
- Keys.OqsxKey.FromData: asks that the header it follows stays inside its buffer; the source reads past it otherwise.
- Keys.OqsxKey.GetEncodedPublic: asks for the public buffer of a hybrid KEM key; the source offsets a null pointer without one.
- Keys.OqsxKey.Import: asks that the header of the buffer it is given stays inside it.
- Keys.OqsxKey.RecreateClassickey: asks that the header it follows stays inside its buffer; the source reads past it otherwise.
- Keys.OqsxKey.SetEncodedPublic: asks that a hybrid KEM key's first component pointer was set.
- RefCounts.CountIsLiveHandles: a context is changed by one thread at a time, as the provider's callers promise.
- SigContext.SigCtx.DigestVerifyFinal: asks that the header of a hybrid signature stays inside it; the source reads past it otherwise.
- SigContext.Verify: asks the same.
- SigContext.SigCtx.Free: the digest itself is its name here, so the reference counts of fetched digests are not tracked.
- SigDuplicates.DuplicatesAreIndependent: initialisations are with one of two keys that the caller holds too.
- TextDump.ToText: models output that cannot fail, and asks that the component pointers are the ones the headers give and that the headers stay inside their buffers.
