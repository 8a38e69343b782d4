# Verified model of pq-enclave-binding

A ceremony inside a Nitro Enclave derives a post-quantum root key pair and a bounded set of subkeys,
commits the subkeys in a Merkle tree, dual-signs the keys together with the tree's root and size, and has
that payload attested. Later anyone checks the resulting bundle offline: the OpenTimestamps proof, the
quote as of the anchoring block's time, the PCRs, the binding, both signatures, and, for one subkey, its
membership in the committed tree. This project models that chain and proves what an accepted bundle, an
accepted subkey and an accepted certificate mean.

`dafny verify dfyconfig.toml` checks everything.

## How the cryptography is treated

* SHA-256 is an arbitrary total function to 32 bytes. It is never assumed injective. Every soundness result
  is a function that either confirms the claim or returns two different messages with the same digest, and
  it also says where the two messages come from: one is among those the verifier hashed for this very
  check, the other among those hashed when the run built its tree and payload. The `...Exact` corollaries
  turn this into an equivalence, assuming only that these two finite sets do not collide.
* ML-DSA-65 (FIPS 204) and SLH-DSA-SHAKE-128f (FIPS 205) are arbitrary key generation, signing and
  verification functions. Generated public keys have their real lengths, and verification rejects keys and
  signatures of any other than the real lengths; signing may return bytes of any length. Signing is hedged:
  the model's `SignPayload` draws arbitrary bytes. The only hypothesis, stated on the four
  functions themselves, is that a public key decodes and accepts every signature its secret makes, for one
  pair (`Core.HonestPair`) or for every pair key generation yields (`Core.Honest`); soundness results do not
  use it.
* Mnemonic-to-node derivation, the NSM, the quote verifier, base64, the bundle's JSON text, lossy UTF-8 and
  the execution of OTS operations are arbitrary functions.

What is hashed, signed and attested is also stated in bytes, and every acceptance on the schemes' own
functions (the lemmas named `...Bytes`, `...Text` and `...Exact`), so that the results do not rest on the
model's helper functions alone.

## Files

| file | content |
|---|---|
| `Encoding.dfy` | bytes, big-endian integers, length-prefixed fields, hex |
| `Merkle.dfy`, `MerkleSoundness.dfy` | the tree, its loops, completeness; extraction from accepted proofs |
| `MerkleOpenings.dfy` | what a root binds when no tree is known to have produced it |
| `Core.dfy`, `Derive.dfy` | key pairs, dual signatures, payloads and their decoder; derivation paths |
| `Bundle.dfy`, `Subkey.dfy` | bundle verification; certificates |
| `Ceremony.dfy`, `Oracle.dfy` | the run, its state, the signing oracle and its three endpoints |
| `Provenance.dfy` | accepted bundle plus accepted membership means a record of the attested run |
| `Ots.dfy`, `Cli.dfy` | proof tree walk and header check; verification instant and the command's verdicts |
| `EndToEnd.dfy` | `verify-subkey` against a run, in both directions |
| `Reader.dfy` | the incremental HTTP request reader |

## Where the code and its documentation differ

* The documentation of `SubkeyCert` says the root's signature covers every other field, and that of
  `signing_bytes` that no two distinct certificates share a signing message
  (crates/pq-subkey/src/lib.rs:132-133, 168-170). Two certificates share one exactly when they agree in
  binding and keys up to the letter case of their hex and in all scalars (`Subkey.SigningMessageExact`). So
  `version`, which `verify` never reads and whose place in the signed bytes holds the constant `1`, is not
  covered, nor is the case of the hex; a certificate changed in these alone is judged the same
  (`Subkey.VerifyIgnoresVersionAndCase`), and a change in any signed field needs signatures of a second message
  (`Subkey.ChangedFieldsNeedSecondMessage`).
* Without `--ots`, `verify-subkey` ends in the sentence "VERIFIED — this subkey was generated inside the
  attested enclave" (crates/pq-cli/src/main.rs:684-686). That claim does not hold there: every well-formed
  response passes against a bundle whose Merkle root its own path folds to
  (`Cli.WithoutOtsAnySubkeyPasses`, with the shortest input in `Cli.WithoutOtsOwnLeafPasses`). Giving `--ots` is
  exactly what adds the bundle steps to the verdict (`Cli.VerifySubkeyExact`), and with them an accepted
  subkey of an attested run is that run's record (`EndToEnd.ExtractVerifiedSubkey`).
* Comments on the bundle's binding and signatures name a payload without the subkey count
  (crates/pq-bundle/src/lib.rs:16-19, 190-192); the code binds the count (crates/pq-bundle/src/lib.rs:308), and
  so does the model.
* The help text of `--esplora` requires `--quote-time-unix` (crates/pq-cli/src/main.rs:99); the code takes the
  block's own time when the source has one (`Cli.ChooseInstant`).

## Properties with a boundary

* Two lists of arbitrary leaves under one root are equal, barring a collision, when they have the same length
  (`MerkleSoundness.ExtractSameLeaves`); any two different non-zero lengths have lists with one root, whatever
  the hash (`MerkleSoundness.DifferentLengthsShareRoot`). The ceremony's leaves carry their index, and for such
  lists no length need be known (`MerkleSoundness.ExtractSameList`).
* A root opens an index to at most one subkey for each path length, barring a collision
  (`MerkleOpenings.ExtractSameClaim`). For two lengths m < n the low m bits of the index decide: when they equal those of the index shifted right by n - m,
  two accepted claims always give a collision; when they do not, for every hash some root opens the index to
  two given subkeys, whichever they are (`MerkleOpenings.LengthsExact`). A root that a non-empty list produced
  admits only its own depth, barring a collision (`MerkleSoundness.ExtractMembership`).
* The body the request reader returns depends on how the bytes were split into reads exactly when bytes
  follow the declared end (`Reader.SplitIndependenceExact`); the head never does.

## Model

| member | source | states |
|---|---|---|
| MerkleSoundness.ExtractMembership | crates/pq-merkle/src/lib.rs:16-113 | An accepted claim against the root of a non-empty committed list has an index in range, the committed tag and keys and exactly the honest path, or the function returns a collision between a message the verifier hashed and one the builder hashed; any index, any number of siblings |
| MerkleSoundness.MembershipExact | crates/pq-merkle/src/lib.rs:94-113 | Barring such a collision the check accepts exactly the committed subkeys with their one path |
| MerkleSoundness.ExtractZeroPreimage | crates/pq-merkle/src/lib.rs:42-48 | Acceptance against the root of an empty list yields an explicit preimage of the all-zero digest |
| MerkleSoundness.Locate | crates/pq-merkle/src/lib.rs:49-58 | A path as long as the tree is deep leads to one leaf position, and if that is the claimed index the siblings are the honest ones, odd levels included; or a collision between a folded and a tree node |
| MerkleSoundness.Surplus | crates/pq-merkle/src/lib.rs:8-9 | A path longer than the depth makes a node hash equal a leaf hash, returned as a collision |
| MerkleSoundness.Shortfall | crates/pq-merkle/src/lib.rs:8-9 | A path shorter than the depth makes the leaf hash equal a node hash, returned as a collision |
| MerkleSoundness.LeafMessageInjective | crates/pq-merkle/src/lib.rs:22-32 | The bytes hashed for a leaf determine index, tag and both keys |
| MerkleSoundness.NodeMessageInjective | crates/pq-merkle/src/lib.rs:34-40 | The bytes hashed for a node determine both children |
| MerkleOpenings.ExtractSameClaim | crates/pq-merkle/src/lib.rs:94-113 | Any 32-byte root opens one index to at most one subkey and path of each length, or a collision between the two checks is returned |
| MerkleOpenings.ExtractLengthCollision | crates/pq-merkle/src/lib.rs:94-113 | When the low bits of the index agree for two path lengths, any two claims accepted with these lengths under any root give a collision between the two checks, whatever the subkeys |
| MerkleOpenings.OpenToAnyTwo | crates/pq-merkle/src/lib.rs:94-113 | When they do not, for every hash and any two subkeys there are a root and paths of these lengths that open the index to both |
| MerkleOpenings.LengthsExact | crates/pq-merkle/src/lib.rs:94-113 | The two cases together, for every index and every two lengths: aligned lengths never go without colliding checks, lengths not aligned open to every two subkeys |
| MerkleOpenings.AlignedIsLowBits | crates/pq-merkle/src/lib.rs:99-109 | For lengths m < n the condition is that the low m bits of the index equal those of the index shifted right by n - m |
| MerkleOpenings.IndexZeroAligned | crates/pq-merkle/src/lib.rs:94-113 | Index 0 is aligned for all lengths, so there no root opens two lengths without a collision |
| MerkleOpenings.TwoLengthsTwoSubkeys | crates/pq-merkle/src/lib.rs:94-113 | Index 1 with lengths one and two is not aligned, and the root that opens it to two given subkeys is named |
| MerkleSoundness.ExtractSameList | crates/pq-merkle/src/lib.rs:45-59 | Two non-empty index-carrying lists of any lengths with one root are equal, or a collision between what their builders hashed is returned |
| MerkleSoundness.ExtractSameLeaves | crates/pq-merkle/src/lib.rs:45-59 | Two arbitrary leaf lists of one length with one root are equal, or a collision between their tree nodes is returned |
| MerkleSoundness.DifferentLengthsShareRoot | crates/pq-merkle/src/lib.rs:45-59 | For any two different non-zero lengths and every hash there are leaf lists of those lengths with one root, so equal length is exactly what is needed |
| MerkleSoundness.DuplicatedLastLeafKeepsRoot | crates/pq-merkle/src/lib.rs:42-59 | Repeating the last of an odd number of leaves above one keeps the root |
| MerkleSoundness.HonestMember | crates/pq-merkle/src/lib.rs:66-113 | Every committed subkey verifies with its own path, and checking it hashes nothing the builder did not |
| Merkle.PathFoldsToRoot | crates/pq-merkle/src/lib.rs:66-113 | For every index, folding the path from the leaf gives the root, odd levels included |
| Merkle.DepthExact | crates/pq-merkle/src/lib.rs:66-87 | Path length k serves exactly the sizes above 2^(k-1) and up to 2^k; one leaf has the empty path |
| Merkle.CombinePairs | crates/pq-merkle/src/lib.rs:51-55 | The chunk-of-two loop hashes, after a one byte, each pair in order, an odd last node with itself; that is the next level |
| Merkle.MerkleRoot | crates/pq-merkle/src/lib.rs:45-59 | The loop computes the recursive root; empty input gives 32 zero bytes, any other the one digest that hashing pairs level by level leads to |
| Merkle.RootExact | crates/pq-merkle/src/lib.rs:34-59 | A digest is the root of a non-empty list exactly when hashing pairs level by level, each after a one byte, leads to it |
| Merkle.SmallRoots | crates/pq-merkle/src/lib.rs:42-59 | No leaf gives zeros, one leaf is its own root, two give SHA-256 of a one byte and the two in order |
| Merkle.LeafBytes | crates/pq-merkle/src/lib.rs:22-32 | A leaf is the digest of a zero byte, the four-byte index, the tag and the two length-prefixed keys |
| Merkle.MerkleProof | crates/pq-merkle/src/lib.rs:66-87 | The loop computes the recursive path and never leaves a level's bounds |
| Merkle.VerifyMembership | crates/pq-merkle/src/lib.rs:94-113 | The loop decides whether the claim's leaf, in bytes, climbs to the root, bit k of the index choosing the side of the k-th sibling; that is the fold equality |
| Merkle.MemberClimbs | crates/pq-merkle/src/lib.rs:94-113 | The fold equality of the other results is this climb in bytes |
| Merkle.OneSibling | crates/pq-merkle/src/lib.rs:94-113 | With one sibling the claim is accepted exactly when the root hashes leaf and sibling in this order for an even index, in the other for an odd one |
| Core.CanonicalPayload | crates/pq-core/src/lib.rs:169-176 | The appended buffer is exactly the two keys as length-prefixed fields |
| Core.CanonicalPayloadWithSubkeys | crates/pq-core/src/lib.rs:192-205 | The appended buffer is the two keys and the root as fields followed by the four-byte count |
| Core.PayloadBytes | crates/pq-core/src/lib.rs:169-205 | The three formulas byte for byte |
| Core.UserDataBytes | crates/pq-core/src/lib.rs:217-223 | The commitment is the literal prefix followed by the digest of those bytes |
| Core.ParseOfPayload | crates/pq-core/src/lib.rs:178-205 | The payload decodes back to both keys, root and count, so it is injective in all four |
| Core.PayloadOfParse | crates/pq-core/src/lib.rs:178-205 | Whatever decodes is the payload of what it decodes to |
| Core.FormulasDisjoint | crates/pq-core/src/lib.rs:169-205 | Root-only, legacy and current payloads never coincide, whatever their fields |
| Core.UserDataDeterminesHash | crates/pq-core/src/lib.rs:217-223 | Equal commitments have equal payload digests |
| Core.SubseedsSeparated | crates/pq-core/src/lib.rs:106-122 | The two algorithms never hash the same sub-seed message, and each message determines its node |
| Core.FromSeedExact | crates/pq-core/src/lib.rs:106-122 | Each scheme's keys come from its own key generation on the digest of its own label followed by the seed |
| Core.SignPayload | crates/pq-core/src/lib.rs:142-156 | Each half is that scheme's signature of the payload under this pair's secret, for some randomness |
| Core.VerifyDual | crates/pq-core/src/lib.rs:225-274 | Passes exactly when both keys have their length and decode, both signatures have their length, and both schemes' verification functions accept the payload |
| Core.VerifyDualErrors | crates/pq-core/src/lib.rs:225-274 | What each of the six errors means on those functions; a hash-based error only after the lattice half passed |
| Core.SeedPairIsHonest | crates/pq-core/src/lib.rs:90-127 | If key generation yields honest keys, every pair expanded from a seed is honest |
| Core.SignedVerifies | crates/pq-core/src/lib.rs:136-156 | Every signature an honest pair makes, with whatever randomness, verifies under its public keys |
| Derive.SubkeyPathInjective | crates/pq-derive/src/lib.rs:131-135 | Two path texts are equal exactly when account and index are |
| Derive.DeriveKeypairExact | crates/pq-derive/src/lib.rs:131-149 | Fails exactly when no node is found at `m/account'/index'`, with that error; otherwise gives the keys both key generations yield there, and signs under their secrets |
| Derive.DecimalText | crates/pq-derive/src/lib.rs:133 | Decimal text ends in the last digit after the text of the rest |
| Encoding.HexRoundTrip | crates/pq-enclave/src/lib.rs:182-189 | Decoding an encoding gives the bytes back |
| Encoding.HexEncodeText | crates/pq-enclave/src/lib.rs:182-189 | The encoding of byte i is its high then its low half as lowercase digits |
| Encoding.HexDecodeExact | crates/pq-enclave/src/lib.rs:182-189 | A text decodes to given bytes exactly when it is their lowercase encoding up to letter case |
| Encoding.HexDecodable | crates/pq-enclave/src/lib.rs:182-189 | What decodes is an even number of hex digits of either case |
| Encoding.HexSameBytes | crates/pq-enclave/src/lib.rs:182-189 | Two texts that decode hold the same bytes exactly when they differ in letter case only |
| Encoding.SplitOfLps | crates/pq-core/src/lib.rs:159-176 | A run of length-prefixed fields splits back into exactly those fields and the rest |
| Encoding.SplitExact | crates/pq-core/src/lib.rs:159-176 | Whatever splits into n fields is those fields followed by the rest |
| Encoding.BE32BigEndian | crates/pq-core/src/lib.rs:169-176 | Lengths and counts are four bytes, most significant first |
| Encoding.BE64BigEndian | crates/pq-subkey/src/lib.rs:190-193 | Serial and bounds are eight bytes, most significant first |
| Bundle.Verify | crates/pq-bundle/src/lib.rs:237-331 | Accepts exactly when fields and quote decode, the optional timestamp passes, the quote is authentic, not debug, pinned, bound and both signatures verify; what the report holds |
| Bundle.VerifyExact | crates/pq-bundle/src/lib.rs:237-331 | The same on the schemes' own functions and in bytes: what decodes, what is hashed, who is asked, what both verification functions accept |
| Bundle.KeyDecodeErrors | crates/pq-bundle/src/lib.rs:243-250 | A key that does not decode is reported, the lattice key first |
| Bundle.MlSignatureDecodeErrors | crates/pq-bundle/src/lib.rs:251-254 | The lattice signature is reported exactly when both keys decode and it does not |
| Bundle.SlhSignatureDecodeErrors | crates/pq-bundle/src/lib.rs:255-258 | The hash-based signature is reported exactly when it is the first that does not decode |
| Bundle.QuoteDecodeErrors | crates/pq-bundle/src/lib.rs:259-262 | The quote is reported exactly when all hex decodes and it does not |
| Bundle.QuoteErrors | crates/pq-bundle/src/lib.rs:264-300 | When timestamp, quote, debug mode or a PCR is to blame, and with which message or PCR |
| Bundle.BindingErrors | crates/pq-bundle/src/lib.rs:302-305 | The Merkle root is reported exactly when everything before passed and it does not decode |
| Bundle.CommitmentErrors | crates/pq-bundle/src/lib.rs:307-312 | The binding is reported exactly when everything before passed and the commitment is another |
| Bundle.SignatureErrors | crates/pq-bundle/src/lib.rs:314-319 | A bound bundle whose signatures do not verify is rejected for its signatures |
| Bundle.SignatureErrorIs | crates/pq-bundle/src/lib.rs:314-319 | Only such a bundle is, and the error is that of the dual check |
| Bundle.CheckPcrs | crates/pq-bundle/src/lib.rs:282-300 | Passes exactly when all three PCRs equal their decoded pins; otherwise reports the first that does not |
| Bundle.CommitmentDeterminesClaim | crates/pq-bundle/src/lib.rs:302-312 | Two accepted bundles under one commitment claim the same keys, root and count, or their payloads collide |
| Subkey.SigningBytes | crates/pq-subkey/src/lib.rs:172-195 | The appended buffer is five length-prefixed fields followed by the fixed-width scalars, byte for byte |
| Subkey.CertMessageBytes | crates/pq-subkey/src/lib.rs:184-194 | The message in bytes: label, version 1, binding, keys, serial, tag, bounds |
| Subkey.RootBindingBytes | crates/pq-subkey/src/lib.rs:159-165 | The binding is the digest of the two root keys with their lengths |
| Subkey.ParseOfCertMessage | crates/pq-subkey/src/lib.rs:168-195 | The message decodes back to root binding, both keys, serial, purpose and both bounds |
| Subkey.CertMessageOfParse | crates/pq-subkey/src/lib.rs:168-195 | Whatever decodes is the certificate message of what it decodes to |
| Subkey.CertMessageIsNoPayload | crates/pq-subkey/src/lib.rs:184-194 | No certificate message is ever a bundle payload, for all field lengths |
| Subkey.SigningMessageExact | crates/pq-subkey/src/lib.rs:168-195 | Two certificates share a signing message exactly when binding and keys agree up to hex letter case and all scalars agree |
| Subkey.VerifyIgnoresVersionAndCase | crates/pq-subkey/src/lib.rs:252-322 | Certificates that differ only in the version text and in hex letter case, signatures included, are judged the same |
| Subkey.ChangedFieldsNeedSecondMessage | crates/pq-subkey/src/lib.rs:132-133 | Two certificates accepted under one root that differ in a signed field carry verifying signatures of two different messages |
| Subkey.Issue | crates/pq-subkey/src/lib.rs:220-241 | Every field of the certificate, version 1 and lowercase hex included; the signatures are of the message in bytes under this root's secrets |
| Subkey.Verify | crates/pq-subkey/src/lib.rs:252-322 | Accepts exactly authentic certificates inside their window and returns their keys, purpose and serial |
| Subkey.VerifyExact | crates/pq-subkey/src/lib.rs:252-322 | The same on the schemes' own functions and in bytes, for every result |
| Subkey.DecodeErrors | crates/pq-subkey/src/lib.rs:258-277 | Which field is reported not to decode |
| Subkey.CheckErrors | crates/pq-subkey/src/lib.rs:279-314 | When another root's binding, the signatures, an early or a late instant is reported, and with which values |
| Subkey.IssueVerify | crates/pq-subkey/src/lib.rs:214-322 | What any root pair whose signatures verify issues, it accepts exactly in the half-open window, zero meaning unbounded, with exactly the issued keys |
| Subkey.IssueVerifyFromSeed | crates/pq-subkey/src/lib.rs:214-322 | The same for every root derived from a seed |
| Subkey.CertBindsOneRoot | crates/pq-subkey/src/lib.rs:159-165 | A certificate accepted under two root pairs forces the pairs equal or shows their payloads collide |
| Ceremony.DeriveLane | crates/pq-ceremony/src/lib.rs:136-149 | The inner loop adds subkeys 0, 1, 2, … of its account: in-lane index, tag, running index, the keys found at `m/account'/index'` and the leaf in bytes; or stops with that derivation's error |
| Ceremony.DeriveSubkeys | crates/pq-ceremony/src/lib.rs:130-150 | First the authentication subkeys from account 1, then the encryption subkeys from account 2, each counted from 0 with the keys of its own path and its leaf in bytes; or the first derivation error |
| Ceremony.RunCeremony | crates/pq-ceremony/src/lib.rs:112-181 | Fails exactly when a derivation or NSM call fails, with the first such error; otherwise the two lanes lie as above and the whole bundle is given in bytes: keys of `m/0'/0'`, tree root, count, signatures of the payload under their secrets, the quote asked for its commitment alone, PCRs 0 to 2, root CA digest |
| Ceremony.FailureExact | crates/pq-ceremony/src/lib.rs:123-138 | A run fails first for the root's node at `m/0'/0'`, then for the first subkey whose node is not found, with that error |
| Ceremony.NsmFailureExact | crates/pq-ceremony/src/lib.rs:152-161 | With all nodes found it fails first for the attestation of the commitment, then for PCR 0, 1 and 2, and otherwise not |
| Ceremony.LanesNeverMeet | crates/pq-ceremony/src/lib.rs:123-149 | Within a run distinct subkeys have distinct paths, none of them the root's |
| Ceremony.CeremonyState.Proof | crates/pq-ceremony/src/lib.rs:94-100 | The path for an index in range, nothing otherwise |
| Ceremony.CeremonyState.SignWithSubkey | crates/pq-ceremony/src/lib.rs:81-90 | Answers exactly when record, derivation and path exist, with that path and signatures of this message by the derived pair |
| Ceremony.OracleAnswersCommittedIndices | crates/pq-ceremony/src/lib.rs:77-90 | For a run, the oracle answers exactly the committed indices, each from the record at that index |
| Ceremony.OracleSignsTheMessage | crates/pq-ceremony/src/lib.rs:81-90 | An answer holds both schemes' signatures of the requested message under the secrets found at the record's path, and the record shows the keys found there |
| Ceremony.CommittedSubkeyProvable | crates/pq-ceremony/src/lib.rs:92-101 | Every committed subkey's path verifies against the bundle's root, and its key's derivation path is not the root's |
| Ceremony.OracleServesCommittedSubkeys | crates/pq-ceremony/src/lib.rs:77-101 | An answer's signature verifies under the recorded keys and its path against the bundle's root |
| Ceremony.FindRecordAt | crates/pq-ceremony/src/lib.rs:86 | Searching consecutively indexed records finds the one at that position, or none |
| Ceremony.HonestRunAccepted | crates/pq-ceremony/src/lib.rs:152-178 | With a faithful quote the bundle of any run verifies exactly when PCR0/1/2 are not all zero |
| Oracle.SignResponse | crates/pq-ceremony/src/main.rs:85-114 | Bad body or hex gives 400, unknown index 404, otherwise the lookup's fields plus a signature of the message |
| Oracle.EndpointsAgree | crates/pq-ceremony/src/main.rs:84-159 | List, lookup and signing reply show index, tag, keys and path of the record in lowercase hex for every committed index and nothing elsewhere; the signature verifies under those keys |
| Provenance.ExtractBundle | crates/pq-bundle/src/lib.rs:307-312 | An accepted bundle whose quote carries a run's commitment claims that run's keys, root and count, or the two payloads collide |
| Provenance.ExtractProvenance | crates/pq-ceremony/src/lib.rs:130-178 | On top of that, an accepted membership claim is the run's record at that index with the run's path, or a collision between checked and run messages is returned |
| Provenance.ProvenanceExact | crates/pq-merkle/src/lib.rs:94-113 | Barring such a collision the accepted claims are exactly the run's records |
| Provenance.NoSubkeysNoMembers | crates/pq-merkle/src/lib.rs:42-48 | For a run without subkeys acceptance yields a preimage of the zero digest or a payload collision |
| Provenance.ExtractSameRun | crates/pq-ceremony/src/lib.rs:128-178 | Two runs attested under one commitment committed the same subkeys in the same order, or a collision is returned |
| Ots.CollectAttestations | crates/pq-ots/src/lib.rs:142-159 | The recursive walk appends the tree's Bitcoin and pending attestations in pre-order to the two vectors |
| Ots.PendingCalendars | crates/pq-ots/src/lib.rs:165-174 | The URIs are those of the tree's pending attestations, one for one in strict pre-order, none missed; only an unparsable proof fails |
| Ots.Verify | crates/pq-ots/src/lib.rs:188-226 | The method computes the pure outcome |
| Ots.OutcomeRejects | crates/pq-ots/src/lib.rs:193-200 | The codec error exactly without a parsed proof; the mismatch exactly for another digest, with both digests in hex |
| Ots.CheckHeaders | crates/pq-ots/src/lib.rs:210-225 | The early-exit loop gives one anchor per collected attestation, or the error of the first its header does not confirm |
| Ots.OutcomeExact | crates/pq-ots/src/lib.rs:176-226 | Success exactly when the digest matches, a Bitcoin attestation exists and all match their headers; not-anchored exactly when the digest matches and none exists |
| Ots.FailureIsFirst | crates/pq-ots/src/lib.rs:211-219 | Otherwise the error is that of the first attestation in pre-order its header does not confirm |
| Ots.RoutesLocate | crates/pq-ots/src/lib.rs:142-159 | For Bitcoin and for pending attestations, the k-th step collected is the node at the k-th route |
| Ots.RoutesComplete | crates/pq-ots/src/lib.rs:156-158 | No attestation of either kind is missed |
| Ots.RoutesInOrder | crates/pq-ots/src/lib.rs:156-158 | Attestations of either kind are collected in strict pre-order, none twice |
| Ots.OutputIsExecuted | crates/pq-ots/src/lib.rs:149-151 | In a well-formed tree a node's output is the operations on the way to it executed on the input |
| Ots.AnchorsReached | crates/pq-ots/src/lib.rs:202-225 | Every anchor is reached from the expected digest by executing the operations along its own route and equals its block's root |
| Cli.LoadHeaderFile | crates/pq-cli/src/main.rs:183-224 | Loads exactly the file, so that the source answers its roots and times there and none elsewhere, or fails at the first entry whose root is not 32 bytes of hex |
| Cli.ExplorerAnswers | crates/pq-cli/src/main.rs:183-202 | An explorer's answers are passed on |
| Cli.ChooseInstant | crates/pq-cli/src/main.rs:382-403 | A known block time is the instant whatever the override, which must be within 7200 s; otherwise the override is; when each of the three errors is given and with which values |
| Cli.Millis | crates/pq-quote/src/lib.rs:50-54 | A thousand times the seconds, or the largest 64-bit value if that does not fit |
| Cli.Earliest | crates/pq-cli/src/main.rs:373-374 | The lowest height among the anchors |
| Cli.AnchoredAtExact | crates/pq-cli/src/main.rs:364-375 | The OTS step yields a height exactly when the proof is for this digest, every attestation is confirmed and that height is the lowest |
| Cli.FullVerificationExact | crates/pq-cli/src/main.rs:349-478 | Full verification with given instant, height and report happens exactly when source, digest, anchors, instant and root CA hold and the bundle verifies under the quote verifier fixed at that instant in milliseconds |
| Cli.FullVerificationReachesBlock | crates/pq-cli/src/main.rs:349-478 | It comes with an operation path from the bundle digest to the lowest anchoring block's root |
| Cli.PendingExact | crates/pq-cli/src/main.rs:409-424 | Partial verification happens exactly for a proof of this digest without Bitcoin attestation, judged at the current time in milliseconds |
| Cli.StepsErrorExact | crates/pq-cli/src/main.rs:365-458 | Which step is to blame: missing source, timestamp, instant, root CA or bundle, and with which error |
| Cli.CmdVerifyExact | crates/pq-cli/src/main.rs:480-527 | The command reports full verification exactly when one source is given and with it the proof is for the digest of the bundle's JSON, anchored, timed and judged as above |
| Cli.NoSourceNeverVerifies | crates/pq-cli/src/main.rs:365-432 | With the empty map the OTS step never succeeds, nothing is fully verified, and a source is asked for exactly when the proof is for this digest and anchored |
| Cli.FlagsDecideSource | crates/pq-cli/src/main.rs:495-501 | The same for the command without flags; both flags together are refused |
| Cli.LegacyNeverCurrent | crates/pq-cli/src/main.rs:311-316 | A commitment matching both the older formula and any current payload is a collision |
| Cli.LegacyDiagnosisExact | crates/pq-cli/src/main.rs:286-338 | The version-skew diagnosis is given exactly when everything before the binding passes, the current formula fails and the quote commits to the older one |
| Cli.DiagnosedBundleIsNoCurrentRun | crates/pq-cli/src/main.rs:286-338 | A bundle diagnosed as the work of an older ceremony passes every check before the binding and was attested for no current run, or the older payload and that run's collide |
| Cli.CheckMembership | crates/pq-cli/src/main.rs:627-652 | Passes exactly when root, keys and siblings decode to the right lengths and the claim is a member; which of them a failure names |
| Cli.CheckAuthenticity | crates/pq-cli/src/main.rs:658-674 | Passes exactly when message and both signatures decode and verify under the response's own keys; which of them a failure names |
| Cli.DecodeSiblingsExact | crates/pq-cli/src/main.rs:635-644 | The path decodes text by text, in order |
| Cli.DecodeOfHexAll | crates/pq-cli/src/main.rs:635-644 | The siblings an endpoint prints are read back unchanged |
| Cli.VerifySubkeyExact | crates/pq-cli/src/main.rs:574-688 | The exact verdict: membership, authenticity if a message is given, and the bundle steps if and only if `--ots` is given |
| Cli.VerifySubkeyErrorExact | crates/pq-cli/src/main.rs:588-674 | The bundle steps are blamed before membership, membership before authenticity |
| Cli.WithoutOtsAnySubkeyPasses | crates/pq-cli/src/main.rs:622-652 | Without `--ots` every well-formed response passes against the bundle whose root its own path folds to, and only the root decides: provenance fails there for every subkey |
| Cli.WithoutOtsOwnLeafPasses | crates/pq-cli/src/main.rs:622-652 | The concrete failing input: an empty path and a root equal to the response's own leaf |
| EndToEnd.ExtractVerifiedSubkey | crates/pq-cli/src/main.rs:574-688 | A subkey verified together with a bundle attested for a run shows that run's record and path, and its message is signed under the record's keys; or a collision is returned |
| EndToEnd.OracleAnswerVerifies | crates/pq-ceremony/src/main.rs:85-114 | What `/sign` answers for a committed subkey `verify-subkey` accepts, alone and on top of any passing bundle steps |
| EndToEnd.HonestRunFullyVerified | crates/pq-cli/src/main.rs:480-527 | A run's bundle, stamped and anchored, is fully verified at the anchor block's time exactly when the enclave was not in debug mode |
| Reader.ReadRequest | crates/pq-ceremony/src/main.rs:176-208 | The nested loops take the shortest run of reads that holds the blank line and as many bytes after it as declared, or all, and cut what was read before and after the blank line |
| Reader.ReadBody | crates/pq-ceremony/src/main.rs:187-198 | The inner loop stops at the first read boundary with the declared bytes, keeping the header end |
| Reader.FindTerminator | crates/pq-ceremony/src/main.rs:241-243 | The first position of the terminator, or none |
| Reader.FindTerminatorExact | crates/pq-ceremony/src/main.rs:241-243 | What is found is the first place where the bytes CR LF CR LF stand |
| Reader.TerminatorOfPrefix | crates/pq-ceremony/src/main.rs:186 | A growing buffer shows the stream's first terminator as soon as it holds it and never another |
| Reader.FindMapLinesExact | crates/pq-ceremony/src/main.rs:246-251 | The search over lines, without their line ends, yields what the first matching line yields, and nothing exactly when no line matches |
| Reader.FirstLineExact | crates/pq-ceremony/src/main.rs:246-247 | A line is what precedes the first LF or CR LF, or everything |
| Reader.FieldValueExact | crates/pq-ceremony/src/main.rs:248-251 | A line carries a value exactly when it is one of the two spellings of the field name followed by it |
| Reader.WhitespaceExact | crates/pq-ceremony/src/main.rs:252 | The characters trimmed are the 25 with the Unicode property White_Space |
| Reader.DeclaredValueExact | crates/pq-ceremony/src/main.rs:245-251 | The value is what remains, without the line end, of the first line starting with the field name in one of its two spellings |
| Reader.NumberExact | crates/pq-ceremony/src/main.rs:252 | A value reads as n exactly when it is white space, an optional plus sign, digits worth n within 64 bits, and white space |
| Derive.DecimalValueText | crates/pq-ceremony/src/main.rs:252 | Each further digit multiplies by ten and adds its worth |
| Reader.ContentLengthExact | crates/pq-ceremony/src/main.rs:245-254 | The length is a nonzero n exactly when the first line carrying the field spells n; so it is zero in every other case |
| Reader.DeclaredLengthIsRead | crates/pq-ceremony/src/main.rs:245-254 | A length announced in decimal between any white space is read back |
| Reader.HeadIndependentOfSplit | crates/pq-ceremony/src/main.rs:180-202 | Header end and head are the same for every split of every stream, even across the terminator |
| Reader.SplitIndependent | crates/pq-ceremony/src/main.rs:180-208 | With nothing beyond the declared end the whole request is the same for every split |
| Reader.NothingBeyondExact | crates/pq-ceremony/src/main.rs:187-191 | Nothing is beyond the declared end exactly when at most the declared number of bytes follows the blank line |
| Reader.SplitIndependenceExact | crates/pq-ceremony/src/main.rs:180-208 | And only then: otherwise two splits give different bodies |
| Reader.SplitMatters | crates/pq-ceremony/src/main.rs:191-197 | The two splits, one body a byte longer than the other |
| Reader.RequestIsRead | crates/pq-ceremony/src/main.rs:176-208 | A complete request is read as its head and exactly its declared body, however split (sections 6.2 and 6.3 of RFC 9112) |

## Left out

- Ceremony.RunCeremony: requires at most 2^31 subkeys per lane and a total below 2^32, assuming that a hardened index has 31 bits, and because the running index is a u32; entropy and the mnemonic made from it are a parameter, and the NSM answers as a function of its arguments.
- Core.CanonicalPayload: lengths are limited to what fits a u32, because the code panics beyond that; the same holds for every type named `Field` or `HexField`.
- Reader.ReadRequest: reads are given as a list of non-empty chunks of at most 1024 bytes followed by end of stream; a read that fails, and the routing and writing of the response, are not modelled. The needed length wraps at 64 bits as in the release build.
- Cli.LoadHeaderFile: starts from the parsed file in height order; file reading and JSON are not modelled.
- Cli.FullVerificationExact: an explorer source is one function per query, so a service that changes its answer between the root and the time request is not captured.
- Ots.Verify: starts from the parsed proof; the binary codec and `stamp` belong to the opentimestamps crate, and operations are arbitrary functions.
- Ceremony.CeremonyState.SignWithSubkey: the signature is only known to be one the key pair can make, since signing is hedged.
- `PqRootKeypair::generate`: drawing a pair from the platform's random source; what is proved of certificates holds for any honest pair, however it was made.
- Internals of SHA-256, ML-DSA, SLH-DSA, ChaCha20, BIP-39 and SLIP-0010, and secrecy of keys: library code and not functional properties.
- COSE, ES384, the X.509 chain and the extraction of PCRs from an attestation document: an abstract quote verifier fixed at a root CA and an instant.
- JSON (whose serialisation is taken never to fail), base64 and the explorer's field extraction: arbitrary functions, or the fields they carry.
- `MockNsm`, the real NSM driver, the HTTP server loop and clients, `inspect`, `stamp`, printing and environment variables: I/O without a deep property.
- Error texts: errors are constructors carrying the values the texts show.
