# Verification of zk-X509

zk-X509 lets the holder of an X.509 certificate register a wallet without showing the
certificate. A host program collects inputs and builds Merkle trees; a zkVM guest checks the
certificate chain, the owner's signatures, membership of the root CA and absence from a revocation
list, and commits public values; a backend and a web front end handle bytes and requests around it.

This project models the parts of that system where correctness rests on an argument rather than on
one line of code, and proves the argument in Dafny 4.11. `dafny verify dfyconfig.toml` checks all of it.

| file | models |
|---|---|
| `Outcomes.dfy`, `Octets.dfy`, `Hex.dfy`, `Utf8.dfy` | results, bytes, numbers, hexadecimal, characters |
| `MerkleRows.dfy` | the tree shape that both Merkle trees share: rows that halve, odd ends paired with themselves |
| `Sorting.dfy`, `CrlTree.dfy`, `CrlPaths.dfy` | the sorted tree of revoked serials, its proofs of absence, and what they prove for paths of any length |
| `CaTree.dfy` | the tree of allowed CA keys |
| `Der.dfy`, `EcdsaSig.dfy`, `Spki.dfy`, `CertSpki.dfy` | DER lengths, ECDSA signatures, public keys and certificates, on host, guest and browser |
| `Abi.dfy` | the host's Solidity ABI decoders |
| `TextField.dfy` | text in 32 bytes, in the circuit and in the browser |
| `Challenges.dfy`, `Signatures.dfy`, `Ownership.dfy` | the signed messages, the guest's signature checks, the host's signing |
| `FullCrl.dfy` | the guest's check of a whole revocation list |
| `Stdin.dfy`, `Guest.dfy`, `Statement.dfy` | the input stream, the guest as a whole, and a second, independent statement of what it accepts |
| `Sessions.dfy`, `Commits.dfy` | runs of host and guest together; what committed values prove |
| `RateLimiter.dfy`, `ReplayGuard.dfy` | the backend's two timed state machines |
| `AuthMessage.dfy` | the message that authorizes a registry write |

## Conventions

- Code that changes variables step by step is a method with the same branches and loops, proved
  against a function; the lemmas are about the functions. A panic is `None`, a reported error `Err`.
- SHA-256 is a parameter `sha`. No theorem assumes that it is injective: with 32-byte digests no
  function is, not even on 64-byte inputs. `CollisionFree(sha, inputs)` says that a finite set of
  byte strings contains no collision, and each theorem names the set: what was hashed to build the
  tree and what was hashed to check the proof.
- Libraries enter by their laws, and only where a theorem needs one: `Serde.Lawful` (what was
  serialized is read back), `KeyFits` (what a private key signs verifies under its public key),
  `OverOneHash` (a signature does not verify for two of the named hashes), `OnlyOwnSignatures` (verifiers
  accept only what the private key signs), `DecodesUtf8` (the browser's text decoder).
- `usize` is 64 bits wide, on the host and in the guest, and additions wrap as in a release build.
- The current time is a parameter of the timed state machines and of the prover's request.

## Results

- **Absence from the CRL.** The verifiers compare the claimed indices of a proof, not the positions
  that its direction bits spell, and not the length of its paths. Under the hypothesis that the paths
  have tree depth and the bits spell the claimed indices, `CrlTree.AcceptedMeansAbsent` proves that
  acceptance means absence. Nothing in host or guest enforces that hypothesis, and without it the
  claim fails: `CrlPaths.OuterLeavesAccepted` gives a proof accepted for every key but the two
  sentinels, revoked or not, and `Commits.OuterLeavesCommit` the whole guest run. For direction bits
  of any number, `CrlPaths.AcceptedExactlyBetween` says which keys have an accepted proof (those
  strictly between the two nodes that the bits lead to), `CrlPaths.AbsenceExactlyWithoutRevokedBetween`
  when acceptance means absence, and `Commits.CommitsExactlyBetween` whom the guest lets through.
- **The CRL root.** `CrlPaths.RootCommitsToSerials`: two lists have the same root exactly when they
  hold the same serials.
- **Membership of the CA tree.** Under the root over keys that are not 64 bytes long,
  `CaTree.VerifiesExactly` says what has a verifying path of any length: the keys, and the pairs of
  nodes that were hashed for the tree. So `CaTree.MembershipBindsKeys` needs the presented key to be
  not 64 bytes long, and neither verifier checks that; `CaTree.FirstPairVerifies` is an input for
  which the conclusion fails without it, and `Commits.ChainsPassExactly` the condition for the guest.
  (The source's comment in script/src/merkle.rs:4 credits sorted-pair hashing with excluding second
  preimages.)
- **Whole runs.** `Guest.GuestMain` commits exactly when a predicate holds of its input stream, and
  `Statement.AcceptsExactly` restates that predicate independently, in calls of external libraries. `Sessions.ProverRun` runs the prover's signing, tree building and stream, then the guest:
  it commits exactly for eligible requests, and what is committed answers the request.
  `Sessions.ProverRunWithCrl` does the same with a proof of absence.
- **What a commit proves.** `Commits.CommitSignaturesChecked` and `Commits.CommitLinkChecked` say which
  external verifier accepted what. `Commits.OneClaimPerSignature`, `Commits.OneRegistryPerNullifier` and
  `Commits.KindsShareSignatureOnly` say how far a signature can be used twice;
  `Commits.NullifiersAgreeExactly` when two commits have the same nullifier, and
  `Commits.OneNullifierExactly` when a holder has one for each slot; `Commits.CommitNamesAllowedCa`
  which CA a commit names.
- **Revocation lists in DER.** The guest compares the serial without leading zero with the entry's
  raw octets. For entries that are INTEGER content octets, `FullCrl.RecognizedExactly` and
  `Commits.ListExcludesExactly`: exactly the listed numbers without a high bit are recognized. The
  key for the list is chosen by name, while the chain is checked by signatures alone;
  `FullCrl.ListKeyIsIssuersExactly` says when both lead to the same key.
- **Text fields.** The registry page says that its truncation matches the circuit's exactly. It does
  not for every text: `TextField.TruncationsAgreeExactly` says for which.
- **Rate limit.** Within 15 requests in any 60 seconds nobody is refused
  (`RateLimiter.NeverRefusedWithinLimit`). The bound over any 60 seconds of any run is 29, not twice the maximum of 15, and
  `RateLimiter.TwentyNineIsReached` shows that it cannot be lowered.
- **Replay guard.** `ReplayGuard.FreshIffAllExpired` is exact over every run: single use within the
  lifetime of each success, and not beyond it.

## Model

| member | source | states |
|---|---|---|
| MerkleRows.DepthIsLeast | script/src/smt.rs:184-195 | the number of layers above the leaves is the least d with n <= 2^d |
| MerkleRows.RealOfReal | script/src/smt.rs:159-170 | in the row padded to 2^d positions, real leaves stand at their own index |
| MerkleRows.RealSuccessor | script/src/smt.rs:187-193 | after padding by duplication, the leaf at the next position is at most one further on, although the map is not monotone |
| MerkleRows.HonestPathClimbs | script/src/smt.rs:235-245 | the sibling path of every padded position leads to the root, and checking it hashes nothing that building the tree did not hash |
| MerkleRows.ClimbBinds | script/src/smt.rs:235-245 | a path of tree depth that recomputes the root starts at the leaf its direction bits point to and is that leaf's own path |
| MerkleRows.ClimbIffHonest | script/src/smt.rs:235-245 | recomputing the root and being the honest path of the spelled position are the same thing |
| MerkleRows.StartPathClimbs | script/src/smt.rs:235-245 | direction bits of any number up to the tree depth lead to a node whose own path reaches the root |
| MerkleRows.AnyPathBinds | script/src/smt.rs:235-245 | a path not longer than the tree is deep that recomputes the root starts at the node its direction bits lead to and is that node's own path |
| MerkleRows.ShortStartIsHashed | script/src/smt.rs:185-193 | fewer bits than the tree is deep lead to a digest of two nodes |
| MerkleRows.LongClimbHashesToLeaf | script/src/smt.rs:235-245 | a longer path that recomputes the root passes through a leaf after at least one hash |
| MerkleRows.NodeBinds | script/src/smt.rs:187-193 | without collisions, whatever hashes to a node is the pair of its two children |
| MerkleRows.PathInRowsIsHonest | script/src/smt.rs:159-170 | the siblings read off finished layers, an odd end paired with itself, are the path that leads to the root |
| MerkleRows.LastRowIsRoot | script/src/smt.rs:106-108 | the last layer is the single root |
| MerkleRows.PreimageExactly | script/src/merkle.rs:14-24 | a pair is hashed left then right, or in ascending order |
| MerkleRows.ClimbStep | script/src/smt.rs:235-245 | a step hashes the sibling on the right where the direction bit is set, else on the left; without siblings the node stays |
| Sorting.DedupOfSorted | script/src/smt.rs:90-91 | sort then dedup leaves a strictly ascending listing of the same elements |
| Sorting.AscendingListingUnique | script/src/smt.rs:90-91 | a set has one strictly ascending listing only |
| Sorting.BinarySearch | script/src/smt.rs:122-125 | finds the key exactly when it is present, and otherwise the one place where it belongs |
| Octets.LessExactly | program/src/main.rs:591-592 | byte arrays compare by the first differing byte, and a proper beginning is less |
| CrlTree.LeavesSpec | script/src/smt.rs:79-98 | the leaves are the ascending listing of the serial digests and both sentinels, which stand at the two ends |
| CrlTree.SentinelsExactly | script/src/smt.rs:73-74 | the sentinels are 32 zero octets and 32 octets ff |
| CrlTree.RootIsFunctionOfSet | script/src/smt.rs:79-108 | serial lists with the same set of digests give the same leaves and the same root |
| CrlTree.BuildNextLayer | script/src/smt.rs:185-193 | one pass gives the positional hashes of consecutive pairs, the odd last node paired with itself |
| CrlTree.BuildLayers | script/src/smt.rs:177-198 | fails exactly on an empty row; otherwise terminates with all the rows of the tree |
| CrlTree.CollectLeaves | script/src/smt.rs:80-91 | digests with both sentinels pushed, then sorted and deduplicated in place |
| CrlTree.CrlMerkleTree.FromRevokedSerials | script/src/smt.rs:79-98 | the tree of the serials is well formed: ascending leaves between the sentinels and all their rows |
| CrlTree.CrlMerkleTree.GetRoot | script/src/smt.rs:106-108 | the stored last row holds the root of the leaves |
| CrlTree.CrlMerkleTree.IsRevoked | script/src/smt.rs:111-114 | true exactly when the serial's digest is a leaf |
| CrlTree.WalkUp | script/src/smt.rs:154-173 | the loop collects the sibling and the direction bit of every row below the root |
| CrlTree.CrlMerkleTree.MerkleProof | script/src/smt.rs:154-173 | the collected path and directions are the honest ones of that leaf |
| CrlTree.CrlMerkleTree.ProveNonInclusion | script/src/smt.rs:118-150 | reports revocation exactly when the digest is a leaf; otherwise returns the two neighbours around the key with their honest paths, and never runs out of the row |
| CrlTree.ComputeRoot | script/src/smt.rs:235-245 | the loop climbs as far as the shorter of path and directions reaches |
| CrlTree.VerifyNonInclusion | script/src/smt.rs:202-232 | accepts exactly when the key lies strictly between the leaves, the indices are consecutive and both paths reach the root |
| CrlTree.ProvableIffNotRevoked | script/src/smt.rs:118-140 | a key has a place strictly inside the leaf row, between two neighbours, exactly when it is not a leaf |
| CrlTree.HonestProofAccepted | script/src/smt.rs:202-232 | the proof made at that place is accepted with host indices and with indices cut down to the guest's width |
| CrlTree.AcceptedMeansAbsent | script/src/smt.rs:202-232 | whatever else the proof contains, if its paths have tree depth and its direction bits spell the claimed indices (which the verifier does not check), acceptance means that the serial is not in the revoked list |
| CrlTree.AbsenceExactlyForAdjacentPositions | script/src/smt.rs:214-217 | among paths of tree depth: for two spelled positions, acceptance always means absence if and only if the real leaves at them leave no room in between (paths of any length: CrlPaths) |
| CrlPaths.PathStart | script/src/smt.rs:235-245 | of whatever length, a path that recomputes the root is no longer than the tree is deep and starts where its direction bits lead |
| CrlPaths.AcceptedExactlyBetween | script/src/smt.rs:202-232 | for direction bits of any number, the keys with an accepted proof are exactly those strictly between the two nodes that the bits lead to |
| CrlPaths.AbsenceExactlyWithoutRevokedBetween | script/src/smt.rs:202-232 | for direction bits of any number, acceptance means absence if and only if no revoked digest lies strictly between the two nodes that the bits lead to |
| CrlPaths.OuterLeavesAccepted | script/src/smt.rs:202-232 | the first and the last leaf with their honest paths, labelled 0 and 1, are accepted for exactly the keys that are no sentinel, revoked ones included |
| CrlPaths.ProvableIffNoSentinel | script/src/smt.rs:202-232 | so a key has some accepted proof if and only if it is no sentinel |
| CrlPaths.RootServesAsLeaf | script/src/smt.rs:235-245 | with an empty left path the root as left leaf is accepted for exactly the keys between the root and the last leaf |
| CrlPaths.RootCommitsToSerials | script/src/smt.rs:79-108 | without collisions, 64-byte serials or sentinel digests, two lists have the same root if and only if they hold the same serials |
| CaTree.HashPair | script/src/merkle.rs:14-24 | hashes the smaller child first |
| CaTree.BuildNextLayer | script/src/merkle.rs:37-46 | one pass gives the sorted-pair hashes of consecutive pairs |
| CaTree.BuildTree | script/src/merkle.rs:29-51 | fails exactly on no leaves; otherwise terminates with all the rows of the tree |
| CaTree.ExtractProofFromLayers | script/src/merkle.rs:82-98 | the loop collects the sibling of every row below the root |
| CaTree.MerkleRootAndProof | script/src/merkle.rs:60-68 | empty leaves are reported before a bad index; otherwise the root and the honest path |
| CaTree.CaMerkleTree | script/src/merkle.rs:103-109 | the CA leaf stands first, with the root and its path; alone it is its own root with an empty path |
| CaTree.BuildCaMerkle | script/src/onchain.rs:31-72 | if the fetched list has the CA's key, the root over that list with the honest path of the key's first place; else the key alone with an empty path; in both cases the path verifies |
| CaTree.VerifyProof | script/src/merkle.rs:112-118 | accepts exactly when folding the siblings gives the root |
| CaTree.FoldStep | program/src/main.rs:260-274 | a step hashes node and sibling in ascending order |
| CaTree.HonestPathVerifies | script/src/merkle.rs:60-118 | the extracted path verifies for every leaf of every tree, and checking it hashes only what building the tree hashed |
| CaTree.HonestPathLength | script/src/merkle.rs:82-98 | the path's length is the least d with n <= 2^d |
| CaTree.PathIffHonest | script/src/merkle.rs:112-118 | a path of tree depth verifies exactly when it is the honest path of a position and starts at the leaf there; so it starts at a leaf |
| CaTree.ShortPathStartsInside | script/src/merkle.rs:112-118 | a verifying path shorter than the tree starts at a digest of two nodes |
| CaTree.LongPathHashesToLeaf | script/src/merkle.rs:112-118 | a verifying path longer than the tree passes through a leaf after at least one hash |
| CaTree.HonestPathHashesNothingNew | script/src/merkle.rs:112-118 | for an extracted path, everything hashed for membership is the keys and what building the tree hashed |
| CaTree.MembershipBinds | program/src/main.rs:659-664 | if no allowed key is 64 bytes long: whatever reaches the root, by a path of any length, is an allowed key with a path of tree depth, or a pair hashed for the tree with a shorter path |
| CaTree.MembershipBindsKeys | program/src/main.rs:659-664 | so a presented key that is not 64 bytes long either is an allowed key; neither verifier checks that length |
| CaTree.PairHasPath | script/src/merkle.rs:112-118 | every pair hashed for the tree has a path that verifies |
| CaTree.VerifiesExactly | program/src/main.rs:659-664 | if no allowed key is 64 bytes long: exactly the allowed keys and the pairs hashed for the tree have a verifying path of some length |
| CaTree.FirstPairVerifies | script/src/merkle.rs:112-118 | a concrete one: with two keys or more, the pair of the first two leaves verifies and is no key |
| Der.EncodeDerLength | script/src/keychain.rs:756-766 | appends the DER form: one octet below 128, else the minimal long form |
| Der.LengthOctetsExactly | script/src/keychain.rs:756-766 | itself below 128, else the marked number of octets and the value without a leading zero |
| Der.DerReadLength | program/src/main.rs:179-192 | fails exactly on truncated input; otherwise one octet below 128, or the big-endian value of the counted octets up to multiples of 2^64, with the octets used |
| Der.LengthRoundTrip | program/src/main.rs:179-192 | reading an encoded length before any suffix gives it back with the exact octet count, for all 64-bit lengths |
| Der.LengthIsShortest | script/src/keychain.rs:756-766 | nothing shorter reads as the same length, and nothing else of that size |
| EcdsaSig.EncodeInteger | script/src/keychain.rs:737-753 | the INTEGER of the unsigned value, minimal, with a zero before a high bit; zero and empty input included |
| EcdsaSig.P1363ToDer | script/src/keychain.rs:729-777 | fails exactly on empty or odd input; otherwise a strict DER reader gets back the unsigned values of the two halves and nothing is left over |
| EcdsaSig.UnsignedContentMeans | script/src/keychain.rs:741-751 | the content octets are minimal and mean, in two's complement, the non-negative value |
| EcdsaSig.SignatureRoundTrip | script/src/keychain.rs:768-776 | strict parsing of the SEQUENCE of two INTEGERs gives back both values and consumes all of it |
| Spki.CurveRoundTrip | program/src/main.rs:134-153 | no assertion or slice fails on an EC key built from its parts, and exactly its curve comes back |
| Spki.PointRoundTrip | program/src/main.rs:158-176 | the same for the point; keys under the minimum length are refused |
| Spki.PointRefused | program/src/main.rs:158-176 | bit strings that are empty or have unused bits, and keys of fewer than 24 bytes, are refused |
| Spki.P256KeyExactly | program/src/main.rs:132-133 | a P-256 key in octets: the known header of 26 and the point of 65 |
| CertSpki.DerReadTL | frontend/components/AdminContent.tsx:154-180 | the three errors and the offsets, with the length accumulated as a signed 32-bit integer |
| CertSpki.ReadErrorsExactly | frontend/components/AdminContent.tsx:154-180 | each of the three errors with its exact cause |
| CertSpki.DerSkip | frontend/components/AdminContent.tsx:183-186 | the offset after one element |
| CertSpki.ReadersAgree | frontend/components/AdminContent.tsx:154-180 | the browser reads every length below 2^31, in any form, like the guest does, and fails exactly when the value leaves the buffer |
| CertSpki.SkipAdvances | frontend/components/AdminContent.tsx:183-186 | with at most three length octets a skip moves forward and stays inside the buffer |
| CertSpki.ExtractSpkiDer | frontend/components/AdminContent.tsx:201-228 | the walk: two envelopes, an optional version, five fields, then the key |
| CertSpki.ExtractionErrors | frontend/components/AdminContent.tsx:201-228 | fails only where one of its reads does, with that error |
| CertSpki.ExtractionInvertsConstruction | frontend/components/AdminContent.tsx:201-228 | from every certificate built of well-formed elements, with or without version and whatever follows, exactly the SubjectPublicKeyInfo element comes back |
| CertSpki.DerCertificateExtraction | frontend/components/AdminContent.tsx:201-228 | so from every certificate in DER below 2 GiB the encoded SubjectPublicKeyInfo comes back |
| Abi.ArrayDecodingExact | script/src/onchain.rs:181-224 | decoding yields these words if and only if the data begins with offset 0x20, their count and the words themselves |
| Abi.ArrayTextExact | script/src/onchain.rs:181-224 | decoding a text, prefixed or not and in either case, yields these words if and only if it spells their encoding and any bytes after it |
| Abi.ArrayErrorsExactly | script/src/onchain.rs:181-224 | each of the four errors of the decoded data with its exact cause |
| Abi.InvalidHexExactly | script/src/onchain.rs:181-190 | text is reported as invalid exactly if it spells no bytes |
| Abi.StringDecodingExact | script/src/onchain.rs:99-117 | every answer with its exact condition: a text for a head word pointing to a length word and that text, if valid UTF-8, else an error; empty for data that ends early; an error for ends beyond 64 bits |
| Abi.StringRoundTrip | script/src/onchain.rs:99-117 | standard encodings with any padding decode to their text |
| TextField.ToBytes32 | program/src/main.rs:353-367 | fills the buffer with the longest prefix of whole characters within 32 bytes, and zeros |
| TextField.CircuitFieldExactly | program/src/main.rs:353-367 | zeros without a value, else the octets of a prefix that fits while one more character does not, and zeros |
| TextField.FitCountIsLongest | program/src/main.rs:357-363 | the greedy loop stops where one more character would not fit |
| TextField.FitCountIsMaximal | program/src/main.rs:357-363 | no longer prefix fits |
| TextField.BrowserToBytes32 | frontend/app/create/page.tsx:206-217 | drops code units from the end until the encoding fits, then pads |
| TextField.BrowserFieldExactly | frontend/app/create/page.tsx:206-217 | the octets of a cut that fits while every later cut does not, and zeros |
| TextField.TruncationsAgreeExactly | frontend/app/create/page.tsx:205-217 | browser and circuit give the same 32 bytes if and only if no prefix of exactly 29 bytes is followed by a character above U+FFFF |
| TextField.TruncationsAgreeOnBmp | frontend/app/create/page.tsx:205-217 | so they agree on all text without characters above U+FFFF |
| TextField.DisagreementExists | frontend/app/create/page.tsx:205-217 | they differ on 29 letters followed by U+1F600 |
| TextField.TrimExactly | frontend/lib/utils.ts:41-41 | what is left is exactly the text between the spaces: it starts and ends with a non-space or is empty, and only spaces are around it |
| TextField.StringToBytes32 | frontend/lib/utils.ts:40-51 | for the text between the spaces: an error exactly when it takes more than 32 bytes; otherwise its padded encoding in hexadecimal |
| TextField.AllEncodersAgree | frontend/lib/utils.ts:40-51 | when the trimmed text fits, all three encoders give the same bytes |
| Hex.HexEncodeAt | frontend/lib/utils.ts:50-50 | each byte takes two digits, the high half first |
| Utf8.EncodeCharExactly | program/src/main.rs:357-363 | the octets of a character by the table of RFC 3629 |
| Utf8.EncodeUnitsStep | frontend/lib/utils.ts:43-44 | the browser encodes one character, or one lone surrogate as EF BF BD, at a time |
| TextField.Bytes32ToString | frontend/lib/utils.ts:24-36 | the decoded bytes before the first zero, and the empty text for zeros and for malformed input |
| TextField.LeadingBytesExactly | frontend/lib/utils.ts:29-34 | of hexadecimal digits, the bytes before the first zero byte; a last odd digit is ignored |
| TextField.UpToZeroByteExactly | frontend/lib/utils.ts:29-34 | a beginning without zero bytes that ends at the first one or at the end |
| TextField.WrittenReadsBack | frontend/lib/utils.ts:24-51 | reading back gives the trimmed text up to its first U+0000, lone surrogates replaced; no byte order mark is lost, because trimming removed it |
| TextField.StringRoundTripExactly | frontend/lib/utils.ts:24-51 | the trimmed text comes back if and only if it has no U+0000 and no lone surrogate |
| Stdin.InputStream.Write | script/src/stdin.rs:38-55 | one more serialized buffer at the end of the stream |
| Stdin.InputStream.Read | program/src/main.rs:381-381 | the next buffer as a value of the type asked for, or failure where there is none or it does not deserialize |
| Stdin.WriteDisabledCrlInputs | script/src/smt.rs:28-41 | nine fields that switch the CRL proof off |
| Stdin.BuildStdin | script/src/stdin.rs:36-58 | a new stream with exactly these 27 serialized fields in order |
| Stdin.ReadInputs | program/src/main.rs:381-427 | succeeds exactly when the next 27 buffers deserialize as the types asked for, and returns their values |
| Stdin.HostStreamDecodes | script/src/stdin.rs:36-58 | with a lawful library the guest reads back exactly the parameters and CRL fields that the host wrote |
| Challenges.OwnershipDetermines | script/src/ownership.rs:71-76 | equal preimages mean equal claims, although serials vary in length |
| Challenges.NullifierDetermines | script/src/ownership.rs:88-91 | equal preimages mean equal registry and chain |
| Challenges.OwnershipLayout | script/src/ownership.rs:71-76 | serial, registrant, wallet index, timestamp and chain id stand one after the other, the numbers big-endian in 4, 8 and 8 bytes |
| Challenges.NullifierLayout | script/src/ownership.rs:88-91 | domain string, registry, and chain id big-endian in 8 bytes |
| Challenges.DomainExactly | lib/src/lib.rs:6-6 | the domain string is zk-X509-Nullifier-v2 |
| Challenges.ChallengeBinds | program/src/main.rs:613-621 | without a collision between the two, equal ownership challenges mean the same claim |
| Challenges.SlotBinds | program/src/main.rs:648-651 | without a collision between the two, equal nullifiers mean the same signature and the same wallet index |
| Challenges.KindsMeetExactly | script/src/ownership.rs:59-93 | an ownership preimage can equal a nullifier preimage if and only if its serial is the first eight bytes of the domain string and its registrant continues it |
| Ownership.OwnershipChallengeHash | script/src/ownership.rs:59-78 | fails exactly on a certificate that does not parse; otherwise the digest of serial, registrant, wallet index, timestamp and chain id, fixed widths big-endian |
| Ownership.NullifierChallengeHash | script/src/ownership.rs:84-93 | the digest of domain string, registry and chain id |
| Ownership.SignEcdsaOwnership | script/src/ownership.rs:139-171 | signs on the curve named in the certificate, P-256 or P-384, and fails for any other |
| Ownership.SignWithParsedCert | script/src/ownership.rs:31-45 | dispatches on the key algorithm and fails for any but EC and RSA |
| Ownership.SignOwnership | script/src/ownership.rs:99-109 | with the key of the certificate, a signature over the ownership challenge that the guest accepts |
| Ownership.SignNullifier | script/src/ownership.rs:113-121 | with the key of the certificate, a signature over the nullifier challenge that the guest accepts |
| Ownership.SignOutcomeExactly | script/src/ownership.rs:31-45 | for each known key type, exactly what the library signs with it, and an error where it signs nothing |
| Signatures.EcdsaUsesTheKey | program/src/main.rs:85-130 | under a well-formed EC key, an ECDSA certificate signature is checked with that key's point on that key's curve and the digest of its algorithm |
| Statement.RsaUsesTheScheme | program/src/main.rs:55-82 | under each of the four RSA identifiers, the check is the RSA verifier's with that scheme and digest; no identifier but these and the two of ECDSA passes |
| Statement.SignatureExactly | program/src/main.rs:195-210 | exactly the signatures that the external verifiers accept for key, scheme, curve and digest named by identifiers in octets |
| Statement.OwnershipExactly | program/src/main.rs:214-256 | for an EC key the check is the verifier's on the named curve, P-256 or P-384; for any other key the RSA verifier's with SHA-256 |
| FullCrl.FindIssuer | program/src/main.rs:545-547 | the first intermediate with the issuer's name, and none only if none has it |
| FullCrl.CheckFullCrl | program/src/main.rs:513-577 | passes exactly for a list of the certificate's issuer, in date, signed under the issuer's key, without the serial's octets among its entries |
| FullCrl.ListKeyIsIssuersExactly | program/src/main.rs:540-567 | the list is checked under the key that signs the certificate exactly without intermediates, or if the first one named as the issuer has the key of the first of all, or if none is named so and the root key is that key |
| FullCrl.ListKeyIsIssuersByName | program/src/main.rs:540-567 | where that key is nobody else's in the chain: exactly if the first intermediate, if any, is named as the certificate's issuer, which the guest does not check |
| FullCrl.SerialMatchesEntry | program/src/main.rs:569-576 | a serial's octets without leading zero equal an entry's INTEGER content exactly for the same number without a high bit |
| FullCrl.RecognizedExactly | program/src/main.rs:569-576 | so exactly the listed numbers without a high bit are recognized |
| FullCrl.BigEndianExactly | program/src/main.rs:570-570 | a serial's octets are its value without a leading zero |
| FullCrl.HighBitExample | program/src/main.rs:569-576 | such a number: 128 is listed as two octets and compared as one |
| Guest.VerifyMerkleMembership | program/src/main.rs:260-274 | computes the same root as the host's verifier |
| Guest.VerifyCrlMerkleProof | program/src/main.rs:278-292 | computes the same root as the host's verifier |
| Guest.CheckCrlOracle | program/src/main.rs:585-604 | with a zero root nothing is checked; otherwise the host's acceptance with 32-bit indices |
| Guest.FirstTextIsFirst | program/src/main.rs:330-349 | the value taken is that of the first attribute of its kind that is a string, and none only if there is none |
| Guest.ExtractSubjectFields | program/src/main.rs:316-375 | each of the four fields is its first value's encoding if its mask bit is set, else zero |
| Guest.DiscloseAndConstrain | program/src/main.rs:678-710 | passes exactly when every requirement is met; the disclosed fields depend on the disclosure mask alone, not on the requirements |
| Guest.ParseIntermediates | program/src/main.rs:455-464 | passes exactly when every intermediate certificate parses and is in date |
| Guest.VerifyChain | program/src/main.rs:466-502 | the three cases amount to one rule: signer i signs subject i |
| Guest.VerifyAndCommit | program/src/main.rs:429-732 | commits exactly on acceptance, and then exactly the specified public values |
| Guest.GuestMain | program/src/main.rs:377-733 | the guest's outcome as a function of the stream from its current position |
| Statement.AcceptsExactly | program/src/main.rs:429-710 | the guest accepts exactly if an independent statement holds, in calls of external libraries, octets and list positions: slot, chain, dates, list, CRL proof, both signatures, CA path, requirements |
| Statement.CommittedExactly | program/src/main.rs:712-732 | each committed value, the disclosed fields by their mask bit |
| Sessions.MakeCaPath | script/src/bin/main.rs:194-213 | from local files or the registry's list, the root of the leaves used and a path that verifies for the CA's key |
| Sessions.Prepare | script/src/bin/main.rs:144-234 | succeeds exactly when both challenges can be signed, and then holds the request, both signatures, and a CA root and path that fit |
| Sessions.ProverRun | script/src/bin/main.rs:144-242 | host and guest on one stream: fails exactly when the host cannot sign; otherwise commits exactly for eligible requests, with values that answer the request |
| Sessions.SentCrlAccepted | program/src/main.rs:585-604 | the host's proof of absence, its indices cut to 32 bits, passes the guest's check |
| Sessions.MakeCrlInputs | script/src/smt.rs:79-150 | an error exactly when the digest is a leaf; otherwise CRL fields under the tree's root that the guest accepts |
| Sessions.ProverRunWithCrl | program/src/main.rs:377-733 | the same run with a proof of absence: revoked exactly when the digest is a leaf, otherwise as above under the CRL root |
| Sessions.ProveThenVerify | script/src/smt.rs:79-232 | for every list and serial, the host refuses a proof exactly when it reports revocation, and otherwise host and guest accept it |
| Commits.CommitSignaturesChecked | program/src/main.rs:613-646 | behind a commit, both signatures were accepted by the external verifier for the certificate's key: its point on its named curve, or RSA with SHA-256 |
| Commits.SignaturesAreTheKeys | program/src/main.rs:613-646 | if the verifiers accept only what the private key signs, both signatures are what it signs for these messages |
| Commits.CommitLinkChecked | program/src/main.rs:455-502 | link i of a committed chain is in date and signed under the next key, by scheme and digest of its identifier; the last under the root key |
| Commits.OneClaimPerSignature | program/src/main.rs:613-626 | two commits with one ownership signature are for the same serial, wallet, slot, time and chain |
| Commits.NullifiersAgreeExactly | program/src/main.rs:648-651 | two commits have the same nullifier if and only if they have the same nullifier signature and the same slot |
| Commits.OneRegistryPerNullifier | program/src/main.rs:632-651 | equal nullifiers mean the same slot of the same registry on the same chain |
| Commits.KindsShareSignatureOnly | program/src/main.rs:613-651 | one signature serves as ownership and as nullifier signature only if serial and registrant spell the nullifier domain |
| Commits.ReplacedNullifierSignature | program/src/main.rs:632-651 | exactly the signatures that verify can replace an accepted nullifier signature, and then the nullifier is another exactly when the signature is |
| Commits.OneNullifierExactly | program/src/main.rs:632-651 | an accepted input keeps its nullifier under every replacement that stays accepted if and only if the key has no other signature for the registry's message |
| Commits.OneNullifierPerSlot | program/src/main.rs:632-651 | with one signature for each message, two commits with one key, registry, chain and slot have one nullifier |
| Commits.CommitNamesAllowedCa | program/src/main.rs:659-664 | if no allowed key is 64 bytes long: a commit under their root comes from a chain whose root key is one of them or a pair hashed for their tree, and one of them if it is not 64 bytes long, whatever the length of the path |
| Commits.ChainsPassExactly | program/src/main.rs:659-664 | under that root exactly the chains whose root key is an allowed key or a pair hashed for the tree have a path that passes |
| Commits.CommitExcludesRevoked | program/src/main.rs:585-604 | under the hypothesis that the paths have tree depth and the direction bits spell the claimed indices, which the guest does not check, a commit under the root over some serials comes from a certificate not among them |
| Commits.CommitLiesBetween | program/src/main.rs:585-604 | whatever the paths, a commit under that root proves that the serial's digest lies strictly between the two nodes that the direction bits lead to |
| Commits.OuterLeavesCommit | program/src/main.rs:585-604 | with the first and the last leaf labelled as neighbours, every holder who passes without the CRL check commits under the root over any list, unless the serial's digest is a sentinel |
| Commits.SomeCrlCommitsExactly | program/src/main.rs:585-604 | so exactly the holders without a sentinel digest have CRL fields that pass, revoked or not |
| Commits.CommitsExactlyBetween | program/src/main.rs:585-604 | for direction bits of any number, a holder commits with them if and only if the digest lies strictly between the two nodes that they lead to |
| Commits.ListExcludesExactly | program/src/main.rs:513-577 | with a list in DER an accepted input stays accepted if and only if the list is the issuer's, in date, signed, and does not hold the serial number without a high bit; where the issuer's key is nobody else's in the chain, it must have signed the list exactly if the first intermediate, if any, is named as the issuer |
| Commits.CommittedRequirementHolds | program/src/main.rs:692-704 | every committed non-zero requirement is the encoding of the subject's first value of that kind |
| RateLimiter.Limiter.RateLimited | backend/src/routes/chat.ts:22-32 | refuses exactly a sixteenth or later request of an open window; a new window of 60000 ms opens with count one, and above 5000 entries the expired ones go |
| RateLimiter.Limiter.Sweep | backend/src/routes/chat.ts:27-27 | removes exactly the expired windows |
| RateLimiter.SweepInvisible | backend/src/routes/chat.ts:22-32 | over every run with a non-decreasing clock the sweep changes no answer |
| RateLimiter.NeverRefusedWithinLimit | backend/src/routes/chat.ts:22-32 | a client that never sends more than 15 requests in any closed 60 seconds is never refused |
| RateLimiter.AtMostTwentyNine | backend/src/routes/chat.ts:18-32 | in any run of any clients, one client gets at most 29 requests through in any closed 60 seconds |
| RateLimiter.TwentyNineIsReached | backend/src/routes/chat.ts:18-32 | a run in which 29 get through |
| ReplayGuard.MemoryReplayGuard.Consume | backend/src/util/replayGuard.ts:28-39 | fresh exactly if unused or expired; then it expires after ttlSec * 1000 ms; above 2000 entries, at most once in 60000 ms, the expired ones go, and nothing else changes |
| ReplayGuard.MemoryReplayGuard.Sweep | backend/src/util/replayGuard.ts:33-33 | removes exactly the expired keys |
| ReplayGuard.MemoryReplayGuard.Reset | backend/src/util/replayGuard.ts:42-45 | back to the initial state |
| ReplayGuard.SweepInvisible | backend/src/util/replayGuard.ts:28-39 | over every run with a non-decreasing clock the sweep changes no answer |
| ReplayGuard.FreshIffAllExpired | backend/src/util/replayGuard.ts:28-39 | an attempt succeeds if and only if for every earlier success with its key, time plus ttlSec * 1000 ms is not after now |
| ReplayGuard.FreeAfterLifetime | backend/src/util/replayGuard.ts:28-39 | after its last success a key is free again from exactly one lifetime later on |
| ReplayGuard.SuccessesApart | backend/src/util/replayGuard.ts:28-39 | two successes with one key are at least the first one's lifetime apart, and attempts within it fail |
| AuthMessage.BuildAuthMessage | backend/src/util/registryAuth.ts:34-50 | the message text line by line, with a target line only for a non-empty target |
| AuthMessage.DecimalExactly | backend/src/util/registryAuth.ts:43-48 | numbers are written with their decimal value and sign |
| AuthMessage.DigitsExactly | backend/src/util/registryAuth.ts:43-48 | and without leading zeros |
| AuthMessage.EndingDetermines | backend/src/util/registryAuth.ts:47-48 | the last lines show whether there is a target and which, even one with newlines, and the timestamp |
| AuthMessage.MessageDetermines | backend/src/util/registryAuth.ts:34-50 | messages are equal if and only if chain id, lowercased registry, operation, shown target and timestamp are |

## Left out

- SHA-256, SHA-1, RSA, ECDSA, X.509 parsing, UTF-8 decoding, lower-casing and the serialization library: external; they are parameters of the models, with the laws named above where a theorem needs them.
- Sessions.ProverRunWithCrl: the repository has no host code that sends a proof of absence to the guest; the run writes the nine fields in the order in which the guest reads them, with indices cut to 32 bits.
- FullCrl.SerialMatchesEntry: takes an entry's raw octets to be the content octets of its INTEGER, as the parser's name for them says; the parser is not part of this model.
- FullCrl.CheckFullCrl: names are compared by the parser's equality, which the model takes as equality of opaque names.
- The ABI encoding of the public values: library code; they are a record here.
- Commits.OneClaimPerSignature: assumes that the signature does not verify for the two different challenge hashes at hand; that is a property of RSA and ECDSA, which are not part of this model.
- `merkle_root` and `merkle_proof` (script/src/merkle.rs:54-79), `empty` (script/src/smt.rs:101-103): wrappers around what is modelled.
- Debug builds: where `left_index + 1` overflows they panic, and the model wraps.
- Lone surrogates in the registry page's input text: the comparison with the circuit is about texts, which the circuit reads as Rust strings.
- `derReadTL` with lengths of 2^31 or more: the reader is modelled with JavaScript's wrap-around, but the agreement with the guest is not stated there.
- Freshness and on-chain ownership checks of authorization, the Firestore guard, the choice of a guard: I/O around the modelled parts.
- Request parsing and streaming of the chat endpoint, the front-end pages, the desktop program, the SDK, RPC access, key stores: plumbing that would add only easy members.
- The Solidity contracts, which consume the public values: not part of this model.
