/** What committed public values prove, beyond the checks that the guest made for them. */
module Commits {
  import opened Outcomes
  import opened Octets
  import opened MerkleRows
  import opened Signatures
  import opened FullCrl
  import opened Stdin
  import opened Guest
  import opened Ownership
  import opened Statement
  import opened TextField
  import opened Challenges
  import CrlTree
  import CrlPaths
  import CaTree

  /** A commit: the stream and the position the guest read from, what it read, the certificate
      parsed from it, and the values it committed. */
  datatype Commit = Commit(buffers: seq<Bytes>, at: nat, g: GuestInput, user: Cert, pv: PublicValues)

  ghost predicate IsCommit(c: Crypto, s: Serde, k: Commit) {
    && Outcome(c, s, k.buffers, k.at) == Some(k.pv)
    && Decode(s, k.buffers, k.at) == Some(k.g)
    && c.parseCert(k.g.p.certDer) == Some(k.user)
  }

  /** The signed messages behind a commit. */
  function Claim(k: Commit): Bytes {
    OwnershipPreimage(k.user.serial, k.pv.registrant, k.pv.walletIndex, k.pv.timestamp, k.pv.chainId)
  }

  function Domain(k: Commit): Bytes {
    NullifierPreimage(k.pv.registryAddress, k.pv.chainId)
  }

  /** The checks behind a commit, in terms of the committed values. */
  lemma CommitMeans(c: Crypto, s: Serde, k: Commit)
    requires IsCommit(c, s, k)
    ensures k.g.p.certChain != []
    ensures VerifyOwnership(c, c.sha256(Claim(k)), k.g.p.ownershipSig, k.user)
    ensures VerifyOwnership(c, c.sha256(Domain(k)), k.g.p.nullifierSig, k.user)
    ensures k.pv.nullifier == c.sha256(k.g.p.nullifierSig + ToBE(k.pv.walletIndex, 4))
    ensures CaTree.Fold(c.sha256, c.sha256(RootKey(k.g.p)), k.g.p.caMerkleProof) == k.pv.caMerkleRoot
    ensures CrlOracleAccepts(c.sha256, k.user.serial, k.g.crl) && k.pv.crlMerkleRoot == k.g.crl.root
    ensures MeetsAll(k.user.subject, k.pv.required)
  {
    assert Accepts(c, k.g);
  }

  // ---------------------------------------------------------------- what was checked

  /** The independent statement holds behind every commit. */
  lemma CommitStatement(c: Crypto, s: Serde, k: Commit) returns (ints: seq<Cert>, root: Bytes, ts: int)
    requires IsCommit(c, s, k)
    ensures Holds(c, k.g, k.user, ints, root, ts)
  {
    assert Accepts(c, k.g);
    AcceptsExactly(c, k.g);
    var user;
    user, ints, root, ts :| Holds(c, k.g, user, ints, root, ts);
  }

  /** Both signatures behind a commit were checked by an external verifier: an EC key's on the curve
      that its certificate names, with its point; any other key's as RSA with SHA-256. */
  lemma CommitSignaturesChecked(c: Crypto, s: Serde, k: Commit, message: Bytes, sig: Bytes)
    requires IsCommit(c, s, k)
    requires (message == Claim(k) && sig == k.g.p.ownershipSig) || (message == Domain(k) && sig == k.g.p.nullifierSig)
    ensures k.user.key.algOid == [0x2A, 0x86, 0x48, 0xCE, 0x3D, 0x02, 0x01] ==>
              || (k.user.key.curveOid == Some([0x2A, 0x86, 0x48, 0xCE, 0x3D, 0x03, 0x01, 0x07])
                  && c.ecVerify(P256, k.user.key.point, c.sha256(message), sig))
              || (k.user.key.curveOid == Some([0x2B, 0x81, 0x04, 0x00, 0x22])
                  && c.ecVerify(P384, k.user.key.point, c.sha256(message), sig))
    ensures k.user.key.algOid != [0x2A, 0x86, 0x48, 0xCE, 0x3D, 0x02, 0x01] ==>
              c.rsaVerify(k.user.key.raw, RsaSha256, c.sha256(message), sig)
  {
    CommitMeans(c, s, k);
    OwnershipExactly(c, c.sha256(message), sig, k.user);
  }

  /** The verifiers accept under this public key only what the private key signs. */
  ghost predicate OnlyOwnSignatures(c: Crypto, signer: Signer, keyDer: Bytes, key: PublicKey) {
    && (forall h: Hash, sig | c.rsaVerify(key.raw, RsaSha256, h, sig) :: signer.rsaSign(keyDer, h) == Some(sig))
    && (forall curve, h: Hash, sig | c.ecVerify(curve, key.point, h, sig) :: signer.ecSign(curve, keyDer, h) == Some(sig))
  }

  /** Then both signatures behind a commit are the ones that the private key makes for these messages. */
  lemma SignaturesAreTheKeys(c: Crypto, s: Serde, k: Commit, signer: Signer, keyDer: Bytes)
    requires IsCommit(c, s, k) && OnlyOwnSignatures(c, signer, keyDer, k.user.key)
    requires k.user.key.algOid in {OID_EC_PUB, OID_RSA_ENCRYPTION}
    ensures SignOutcome(signer, k.user.key, keyDer, c.sha256(Claim(k))) == Ok(k.g.p.ownershipSig)
    ensures SignOutcome(signer, k.user.key, keyDer, c.sha256(Domain(k))) == Ok(k.g.p.nullifierSig)
  {
    CommitSignaturesChecked(c, s, k, Claim(k), k.g.p.ownershipSig);
    CommitSignaturesChecked(c, s, k, Domain(k), k.g.p.nullifierSig);
    KindsOfKey();
  }

  /** Link `i` of the committed chain: the user certificate or intermediate i - 1, in date at the
      committed time, was signed under the key of intermediate i or, after the last one, the root key
      at the end of the chain, with scheme and digest that its algorithm identifier names. */
  lemma CommitLinkChecked(c: Crypto, s: Serde, k: Commit, i: nat, subject: Cert, key: Bytes, ts: int)
    requires IsCommit(c, s, k) && i < |k.g.p.certChain| && IsTime(k.pv.timestamp, ts)
    requires c.parseCert(if i == 0 then k.g.p.certDer else k.g.p.certChain[i - 1]) == Some(subject)
    requires if i == |k.g.p.certChain| - 1 then key == k.g.p.certChain[i]
             else c.parseCert(k.g.p.certChain[i]).Some? && key == c.parseCert(k.g.p.certChain[i]).value.key.raw
    ensures subject.notBefore <= ts <= subject.notAfter
    ensures RsaSigned(c, subject.tbs, subject.signature, subject.sigAlgOid, key)
         || EcdsaSigned(c, subject.tbs, subject.signature, subject.sigAlgOid, key)
  {
    var ints, root, t := CommitStatement(c, s, k);
    TimeExactly(k.pv.timestamp, ts);
    TimeExactly(k.pv.timestamp, t);
    if i > 0 {
      assert c.parseCert(k.g.p.certChain[i - 1]) == Some(ints[i - 1]);
      assert InDate(ints[i - 1], t);
    }
    if i < |ints| {
      assert c.parseCert(k.g.p.certChain[i]) == Some(ints[i]);
    }
  }

  // ---------------------------------------------------------------- signatures

  /** The signature does not verify for two of these hashes, under either certificate's key. The
      set is finite and holds what was signed, because an ECDSA signature verifies for a second
      hash too, to which nobody knows a message. */
  ghost predicate OverOneHash(c: Crypto, sig: Bytes, cert: Cert, cert': Cert, hashes: set<Hash>) {
    forall h, h' | h in hashes && h' in hashes && VerifyOwnership(c, h, sig, cert) && VerifyOwnership(c, h', sig, cert')
      :: h == h'
  }

  /** An ownership signature serves for one claim only: two commits with the same one are for the
      same serial, wallet, slot, time and chain. */
  lemma OneClaimPerSignature(c: Crypto, s: Serde, k: Commit, k': Commit)
    requires IsCommit(c, s, k) && IsCommit(c, s, k')
    requires k.g.p.ownershipSig == k'.g.p.ownershipSig
    requires OverOneHash(c, k.g.p.ownershipSig, k.user, k'.user, {c.sha256(Claim(k)), c.sha256(Claim(k'))})
    requires CollisionFree(c.sha256, {Claim(k), Claim(k')})
    ensures k.user.serial == k'.user.serial
    ensures k.pv.registrant == k'.pv.registrant && k.pv.walletIndex == k'.pv.walletIndex
    ensures k.pv.timestamp == k'.pv.timestamp && k.pv.chainId == k'.pv.chainId
  {
    CommitMeans(c, s, k);
    CommitMeans(c, s, k');
    ChallengeBinds(c.sha256, k.user.serial, k.pv.registrant, k.pv.walletIndex, k.pv.timestamp, k.pv.chainId,
                   k'.user.serial, k'.pv.registrant, k'.pv.walletIndex, k'.pv.timestamp, k'.pv.chainId);
  }

  /** Nullifiers agree exactly for the same nullifier signature and the same wallet slot. */
  lemma NullifiersAgreeExactly(c: Crypto, s: Serde, k: Commit, k': Commit)
    requires IsCommit(c, s, k) && IsCommit(c, s, k')
    requires CollisionFree(c.sha256, {k.g.p.nullifierSig + ToBE(k.pv.walletIndex, 4),
                                      k'.g.p.nullifierSig + ToBE(k'.pv.walletIndex, 4)})
    ensures k.pv.nullifier == k'.pv.nullifier
        <==> k.g.p.nullifierSig == k'.g.p.nullifierSig && k.pv.walletIndex == k'.pv.walletIndex
  {
    CommitMeans(c, s, k);
    CommitMeans(c, s, k');
    SlotBinds(c.sha256, k.g.p.nullifierSig, k.pv.walletIndex, k'.g.p.nullifierSig, k'.pv.walletIndex);
  }

  /** A nullifier signature serves for one registry on one chain only, so equal nullifiers mean the
      same slot of the same registry on the same chain. */
  lemma OneRegistryPerNullifier(c: Crypto, s: Serde, k: Commit, k': Commit)
    requires IsCommit(c, s, k) && IsCommit(c, s, k')
    requires k.pv.nullifier == k'.pv.nullifier
    requires OverOneHash(c, k.g.p.nullifierSig, k.user, k'.user, {c.sha256(Domain(k)), c.sha256(Domain(k'))})
    requires CollisionFree(c.sha256, {k.g.p.nullifierSig + ToBE(k.pv.walletIndex, 4),
                                      k'.g.p.nullifierSig + ToBE(k'.pv.walletIndex, 4)})
    requires CollisionFree(c.sha256, {Domain(k), Domain(k')})
    ensures k.pv.registryAddress == k'.pv.registryAddress && k.pv.chainId == k'.pv.chainId
    ensures k.pv.walletIndex == k'.pv.walletIndex
  {
    CommitMeans(c, s, k);
    CommitMeans(c, s, k');
    NullifiersAgreeExactly(c, s, k, k');
    NullifierDetermines(k.pv.registryAddress, k.pv.chainId, k'.pv.registryAddress, k'.pv.chainId);
  }

  /** One signature serves both as ownership signature and as nullifier signature only if serial
      and registrant spell the nullifier domain. */
  lemma KindsShareSignatureOnly(c: Crypto, s: Serde, k: Commit, k': Commit)
    requires IsCommit(c, s, k) && IsCommit(c, s, k')
    requires k.g.p.ownershipSig == k'.g.p.nullifierSig
    requires OverOneHash(c, k.g.p.ownershipSig, k.user, k'.user, {c.sha256(Claim(k)), c.sha256(Domain(k'))})
    requires CollisionFree(c.sha256, {Claim(k), Domain(k')})
    ensures k.user.serial == NULLIFIER_DOMAIN[..8] && k.pv.registrant[..12] == NULLIFIER_DOMAIN[8..]
  {
    CommitMeans(c, s, k);
    CommitMeans(c, s, k');
    KindsMeetExactly(k.user.serial, k.pv.registrant, k.pv.walletIndex, k.pv.timestamp, k.pv.chainId);
  }

  /** The same input with another nullifier signature. */
  function WithNullifierSignature(g: GuestInput, sig: Bytes): GuestInput {
    g.(p := g.p.(nullifierSig := sig))
  }

  lemma NullifierConjunct(c: Crypto, g: GuestInput, user: Cert, sig: Bytes)
    requires Accepts(c, g) && c.parseCert(g.p.certDer) == Some(user)
    ensures Accepts(c, WithNullifierSignature(g, sig)) <==> VerifyOwnership(c, NullifierHash(c, g.p), sig, user)
  {
  }

  /** The guest does not ask for one particular nullifier signature. Exactly the signatures that
      verify can replace the one of an accepted input, and then the nullifier is another exactly
      when the signature is. */
  lemma ReplacedNullifierSignature(c: Crypto, g: GuestInput, user: Cert, sig: Bytes)
    requires Accepts(c, g) && c.parseCert(g.p.certDer) == Some(user)
    requires CollisionFree(c.sha256, {g.p.nullifierSig + ToBE(g.p.walletIndex, 4), sig + ToBE(g.p.walletIndex, 4)})
    ensures var g' := WithNullifierSignature(g, sig);
            && (Accepts(c, g') <==> VerifyOwnership(c, NullifierHash(c, g.p), sig, user))
            && (Committed(c, g', user).nullifier == Committed(c, g, user).nullifier <==> sig == g.p.nullifierSig)
  {
    NullifierConjunct(c, g, user, sig);
    SlotBinds(c.sha256, sig, g.p.walletIndex, g.p.nullifierSig, g.p.walletIndex);
  }

  /** One nullifier for each slot: whatever nullifier signature an accepted input is given, as long
      as it stays accepted the nullifier is the same, if and only if the key has no other signature
      for the registry's message. */
  lemma OneNullifierExactly(c: Crypto, g: GuestInput, user: Cert)
    requires Accepts(c, g) && c.parseCert(g.p.certDer) == Some(user)
    requires forall sig | VerifyOwnership(c, NullifierHash(c, g.p), sig, user) ::
               CollisionFree(c.sha256, {g.p.nullifierSig + ToBE(g.p.walletIndex, 4), sig + ToBE(g.p.walletIndex, 4)})
    ensures (forall sig | Accepts(c, WithNullifierSignature(g, sig)) ::
               Committed(c, WithNullifierSignature(g, sig), user).nullifier == Committed(c, g, user).nullifier)
        <==> (forall sig | VerifyOwnership(c, NullifierHash(c, g.p), sig, user) :: sig == g.p.nullifierSig)
  {
    forall sig
      ensures Accepts(c, WithNullifierSignature(g, sig)) <==> VerifyOwnership(c, NullifierHash(c, g.p), sig, user)
    {
      NullifierConjunct(c, g, user, sig);
    }
    forall sig | VerifyOwnership(c, NullifierHash(c, g.p), sig, user)
      ensures Committed(c, WithNullifierSignature(g, sig), user).nullifier == Committed(c, g, user).nullifier
          <==> sig == g.p.nullifierSig
    {
      ReplacedNullifierSignature(c, g, user, sig);
    }
  }

  /** With one signature for each message, two commits with one key for one slot of one registry on
      one chain have the same nullifier. */
  lemma OneNullifierPerSlot(c: Crypto, s: Serde, k: Commit, k': Commit)
    requires IsCommit(c, s, k) && IsCommit(c, s, k')
    requires k.user.key == k'.user.key
    requires k.pv.registryAddress == k'.pv.registryAddress && k.pv.chainId == k'.pv.chainId
    requires k.pv.walletIndex == k'.pv.walletIndex
    requires forall sig, sig' |
               VerifyOwnership(c, c.sha256(Domain(k)), sig, k.user) && VerifyOwnership(c, c.sha256(Domain(k)), sig', k.user)
               :: sig == sig'
    ensures k.pv.nullifier == k'.pv.nullifier
  {
    CommitMeans(c, s, k);
    CommitMeans(c, s, k');
    SameKeySameCheck(c, c.sha256(Domain(k)), k'.g.p.nullifierSig, k.user, k'.user);
  }

  lemma SameKeySameCheck(c: Crypto, hash: Hash, sig: Bytes, cert: Cert, cert': Cert)
    requires cert.key == cert'.key
    ensures VerifyOwnership(c, hash, sig, cert) <==> VerifyOwnership(c, hash, sig, cert')
  {
  }

  // ---------------------------------------------------------------- the CA

  /** A commit under the root over `keys` comes from a chain whose root key is one of them, or is a
      pair hashed for their tree; one of them, if it has not the length of such a pair. */
  lemma CommitNamesAllowedCa(c: Crypto, s: Serde, k: Commit, keys: seq<Bytes>)
    requires IsCommit(c, s, k)
    requires keys != [] && CaTree.NotNodeSized(keys)
    requires k.pv.caMerkleRoot == Root(c.sha256, SortedPair, CaTree.KeyLeaves(c.sha256, keys))
    requires k.g.p.certChain != []
    requires CollisionFree(c.sha256, CaTree.MembershipInputs(c.sha256, keys, RootKey(k.g.p), k.g.p.caMerkleProof))
    ensures RootKey(k.g.p) in keys || RootKey(k.g.p) in TreeInputs(c.sha256, SortedPair, CaTree.KeyLeaves(c.sha256, keys))
    ensures |RootKey(k.g.p)| != 64 ==> RootKey(k.g.p) in keys
  {
    CommitMeans(c, s, k);
    CaTree.MembershipBinds(c.sha256, keys, RootKey(k.g.p), k.g.p.caMerkleProof);
    if |RootKey(k.g.p)| != 64 {
      CaTree.MembershipBindsKeys(c.sha256, keys, RootKey(k.g.p), k.g.p.caMerkleProof);
    }
  }

  /** The same input with the root over `keys` and another path. */
  function WithCaPath(c: Crypto, g: GuestInput, keys: seq<Bytes>, path: seq<Hash>): GuestInput
    requires keys != []
  {
    g.(p := g.p.(caMerkleRoot := Root(c.sha256, SortedPair, CaTree.KeyLeaves(c.sha256, keys)), caMerkleProof := path))
  }

  lemma CaCertsConjunct(c: Crypto, g: GuestInput, g': GuestInput, user: Cert, intermediates: seq<Cert>, rootKey: Bytes)
    requires CertsAccepted(c, g, user, intermediates, rootKey)
    requires g' == g.(p := g.p.(caMerkleRoot := g'.p.caMerkleRoot, caMerkleProof := g'.p.caMerkleProof))
    ensures CertsAccepted(c, g', user, intermediates, rootKey)
        <==> CaTree.Fold(c.sha256, c.sha256(rootKey), g'.p.caMerkleProof) == g'.p.caMerkleRoot
  {
  }

  lemma CaConjunct(c: Crypto, g: GuestInput, keys: seq<Bytes>, path: seq<Hash>)
    requires Accepts(c, g) && keys != []
    ensures Accepts(c, WithCaPath(c, g, keys, path))
        <==> CaTree.Fold(c.sha256, c.sha256(RootKey(g.p)), path) == Root(c.sha256, SortedPair, CaTree.KeyLeaves(c.sha256, keys))
  {
    CaCertsConjunct(c, g, WithCaPath(c, g, keys, path), c.parseCert(g.p.certDer).value,
                    Parsed(c, IntermediateDers(g.p)), RootKey(g.p));
  }

  /** An accepted input that has a path under the root over `keys`, without a collision. */
  ghost predicate PassesUnder(c: Crypto, g: GuestInput, keys: seq<Bytes>, path: seq<Hash>)
    requires keys != [] && g.p.certChain != []
  {
    && CollisionFree(c.sha256, CaTree.MembershipInputs(c.sha256, keys, RootKey(g.p), path))
    && Accepts(c, WithCaPath(c, g, keys, path))
  }

  /** Exactly which chains pass under the root over `keys`, with paths of any length: those whose root
      key is one of them, and those whose root key is a pair hashed for the tree. The guest does not
      look at its length. */
  lemma ChainsPassExactly(c: Crypto, g: GuestInput, keys: seq<Bytes>)
    requires Accepts(c, g) && keys != [] && CaTree.NotNodeSized(keys)
    requires CollisionFree(c.sha256, (set k | k in keys) + {RootKey(g.p)}
                                     + TreeInputs(c.sha256, SortedPair, CaTree.KeyLeaves(c.sha256, keys)))
    ensures (exists path :: PassesUnder(c, g, keys, path))
        <==> RootKey(g.p) in keys || RootKey(g.p) in TreeInputs(c.sha256, SortedPair, CaTree.KeyLeaves(c.sha256, keys))
  {
    forall path ensures PassesUnder(c, g, keys, path) <==> CaTree.VerifiesBy(c.sha256, keys, RootKey(g.p), path) {
      CaConjunct(c, g, keys, path);
    }
    CaTree.VerifiesExactly(c.sha256, keys, RootKey(g.p));
  }

  // ---------------------------------------------------------------- revocation

  /** A commit under the root over `serials` comes from a certificate that is not among them, if the
      two paths have tree depth and their direction bits spell the claimed indices. The guest
      checks neither, and without that the conclusion fails: see `OuterLeavesCommit`. */
  lemma CommitExcludesRevoked(c: Crypto, s: Serde, k: Commit, serials: seq<Bytes>)
    requires IsCommit(c, s, k)
    requires k.pv.crlMerkleRoot == CrlTree.CrlRoot(c.sha256, serials) && k.pv.crlMerkleRoot != ZERO
    requires CrlTree.SpellsPositions(CrlProof(k.g.crl), |CrlTree.Leaves(c.sha256, serials)|,
                                     k.g.crl.leftIndex, k.g.crl.rightIndex)
    requires CollisionFree(c.sha256, CrlTree.HashedInputs(c.sha256, CrlTree.Leaves(c.sha256, serials), CrlProof(k.g.crl)))
    ensures k.user.serial !in serials
  {
    CommitMeans(c, s, k);
    CrlTree.AcceptedMeansAbsent(c.sha256, serials, k.user.serial, CrlProof(k.g.crl), U32);
  }

  /** What a commit under the root over `serials` proves of every proof of absence: the direction
      bits lead to two nodes of the tree, and the serial's digest lies strictly between these. */
  lemma CommitLiesBetween(c: Crypto, s: Serde, k: Commit, serials: seq<Bytes>, ld: seq<bool>, rd: seq<bool>)
    requires IsCommit(c, s, k)
    requires k.pv.crlMerkleRoot == CrlTree.CrlRoot(c.sha256, serials) && k.pv.crlMerkleRoot != ZERO
    requires CrlPaths.HasBits(CrlProof(k.g.crl), ld, rd)
    requires CrlPaths.Clean(c.sha256, serials,
               CrlTree.HashedInputs(c.sha256, CrlTree.Leaves(c.sha256, serials), CrlProof(k.g.crl)))
    ensures CrlPaths.LiesBetween(c.sha256, CrlTree.Leaves(c.sha256, serials), ld, rd, c.sha256(k.user.serial))
  {
    CommitMeans(c, s, k);
    CrlPaths.AcceptedLiesBetween(c.sha256, serials, c.sha256(k.user.serial), CrlProof(k.g.crl), ld, rd, U32);
  }

  lemma CrlConjunct(c: Crypto, p: Params, crl: CrlInputs, user: Cert)
    requires c.parseCert(p.certDer) == Some(user)
    requires Accepts(c, GuestInput(p, DISABLED_CRL))
    ensures Accepts(c, GuestInput(p, crl)) <==> CrlOracleAccepts(c.sha256, user.serial, crl)
  {
  }

  /** The CRL fields are one more condition on an input that passes with the check switched off. */
  lemma CrlIsOneCondition(c: Crypto, s: Serde, p: Params, crl: CrlInputs, user: Cert)
    requires s.Lawful() && c.parseCert(p.certDer) == Some(user)
    requires Accepts(c, GuestInput(p, DISABLED_CRL))
    ensures var out := Outcome(c, s, EncodeParams(s, p) + EncodeCrl(s, crl), 0);
            && (out.Some? <==> CrlOracleAccepts(c.sha256, user.serial, crl))
            && (out.Some? ==> out.value == Committed(c, GuestInput(p, DISABLED_CRL), user).(crlMerkleRoot := crl.root))
  {
    HostStreamDecodes(s, p, crl);
    OutcomeOfDecoded(c, s, EncodeParams(s, p) + EncodeCrl(s, crl), 0, GuestInput(p, crl), user);
    CrlConjunct(c, p, crl, user);
  }

  /** A proof as CRL fields. */
  function FieldsOf(root: Hash, proof: CrlTree.NonInclusionProof): CrlInputs
    requires proof.leftIndex < U32 && proof.rightIndex < U32
  {
    CrlInputs(root, proof.leftLeaf, proof.rightLeaf, proof.leftPath, proof.leftDirs,
              proof.rightPath, proof.rightDirs, proof.leftIndex, proof.rightIndex)
  }

  lemma FieldsAccepted(sha: Sha, serial: Bytes, root: Hash, proof: CrlTree.NonInclusionProof)
    requires proof.leftIndex < U32 && proof.rightIndex < U32 && root != ZERO
    ensures CrlOracleAccepts(sha, serial, FieldsOf(root, proof)) <==> CrlTree.Accepts(sha, sha(serial), proof, root, U32)
  {
    assert CrlProof(FieldsOf(root, proof)) == proof;
  }

  /** The first and the last leaf as neighbours. */
  function OuterCrl(sha: Sha, leaves: seq<Hash>, last: nat): CrlInputs
    requires last < |leaves|
  {
    FieldsOf(Root(sha, Positional, leaves), CrlTree.ProofAt(sha, leaves, 0, last, 0, 1))
  }

  /** The input that tells the guest's check from absence. Whoever can register without the CRL
      check commits under the root over any list of serials, one with their own included, when the
      first and the last leaf are labelled as neighbours; only a sentinel digest does not. */
  lemma OuterLeavesCommit(c: Crypto, s: Serde, p: Params, user: Cert, serials: seq<Bytes>, leaves: seq<Hash>, last: nat)
    requires s.Lawful() && c.parseCert(p.certDer) == Some(user)
    requires Accepts(c, GuestInput(p, DISABLED_CRL))
    requires leaves == CrlTree.Leaves(c.sha256, serials) && last == |leaves| - 1
    requires CrlTree.CrlRoot(c.sha256, serials) != ZERO
    ensures var out := Outcome(c, s, EncodeParams(s, p) + EncodeCrl(s, OuterCrl(c.sha256, leaves, last)), 0);
            && (out.Some? <==> c.sha256(user.serial) != CrlTree.MIN_SENTINEL && c.sha256(user.serial) != CrlTree.MAX_SENTINEL)
            && (out.Some? ==> out.value.crlMerkleRoot == CrlTree.CrlRoot(c.sha256, serials))
  {
    var proof := CrlTree.ProofAt(c.sha256, leaves, 0, last, 0, 1);
    CrlPaths.OuterLeavesAccepted(c.sha256, serials, leaves, last, c.sha256(user.serial), U32);
    FieldsAccepted(c.sha256, user.serial, CrlTree.CrlRoot(c.sha256, serials), proof);
    CrlIsOneCondition(c, s, p, FieldsOf(CrlTree.CrlRoot(c.sha256, serials), proof), user);
  }

  /** No CRL fields with that root help a sentinel digest: so exactly the other holders have some
      that pass, revoked or not. */
  lemma SomeCrlCommitsExactly(c: Crypto, s: Serde, p: Params, user: Cert, serials: seq<Bytes>)
    requires s.Lawful() && c.parseCert(p.certDer) == Some(user)
    requires Accepts(c, GuestInput(p, DISABLED_CRL))
    requires CrlTree.CrlRoot(c.sha256, serials) != ZERO
    ensures (exists crl: CrlInputs :: crl.root == CrlTree.CrlRoot(c.sha256, serials)
               && Outcome(c, s, EncodeParams(s, p) + EncodeCrl(s, crl), 0).Some?)
        <==> c.sha256(user.serial) != CrlTree.MIN_SENTINEL && c.sha256(user.serial) != CrlTree.MAX_SENTINEL
  {
    var leaves := CrlTree.Leaves(c.sha256, serials);
    OuterLeavesCommit(c, s, p, user, serials, leaves, |leaves| - 1);
    if crl: CrlInputs :| crl.root == CrlTree.CrlRoot(c.sha256, serials)
                         && Outcome(c, s, EncodeParams(s, p) + EncodeCrl(s, crl), 0).Some? {
      CrlIsOneCondition(c, s, p, crl, user);
      CrlPaths.ProvableIffNoSentinel(c.sha256, serials, c.sha256(user.serial), U32);
    }
  }

  /** A commit from these parameters with these direction bits, under the root over `serials`. */
  ghost predicate CommitsWithBits(c: Crypto, s: Serde, p: Params, serials: seq<Bytes>, crl: CrlInputs,
                                  ld: seq<bool>, rd: seq<bool>) {
    && crl.root == CrlTree.CrlRoot(c.sha256, serials)
    && CrlPaths.HasBits(CrlProof(crl), ld, rd)
    && CrlPaths.Clean(c.sha256, serials,
         CrlTree.HashedInputs(c.sha256, CrlTree.Leaves(c.sha256, serials), CrlProof(crl)))
    && Outcome(c, s, EncodeParams(s, p) + EncodeCrl(s, crl), 0).Some?
  }

  /** Exactly whom the guest's CRL check lets through, for direction bits of any number: a holder
      who can register without it commits with these bits if and only if the digest of the serial
      lies strictly between the two nodes that the bits lead to. */
  lemma CommitsExactlyBetween(c: Crypto, s: Serde, p: Params, user: Cert, serials: seq<Bytes>, ld: seq<bool>, rd: seq<bool>)
    requires s.Lawful() && c.parseCert(p.certDer) == Some(user)
    requires Accepts(c, GuestInput(p, DISABLED_CRL))
    requires CrlTree.CrlRoot(c.sha256, serials) != ZERO
    requires CrlPaths.Clean(c.sha256, serials, TreeInputs(c.sha256, Positional, CrlTree.Leaves(c.sha256, serials)))
    ensures (exists crl :: CommitsWithBits(c, s, p, serials, crl, ld, rd))
        <==> CrlPaths.LiesBetween(c.sha256, CrlTree.Leaves(c.sha256, serials), ld, rd, c.sha256(user.serial))
  {
    var leaves, key := CrlTree.Leaves(c.sha256, serials), c.sha256(user.serial);
    if crl :| CommitsWithBits(c, s, p, serials, crl, ld, rd) {
      CrlIsOneCondition(c, s, p, crl, user);
      CrlPaths.AcceptedLiesBetween(c.sha256, serials, key, CrlProof(crl), ld, rd, U32);
    }
    if CrlPaths.LiesBetween(c.sha256, leaves, ld, rd, key) {
      CrlPaths.StartProofAccepted(c.sha256, leaves, key, ld, rd, U32);
      var crl := FieldsOf(CrlTree.CrlRoot(c.sha256, serials), CrlPaths.StartProof(c.sha256, leaves, ld, rd));
      CrlIsOneCondition(c, s, p, crl, user);
      assert CommitsWithBits(c, s, p, serials, crl, ld, rd);
    }
  }

  // ---------------------------------------------------------------- revocation by a list in DER

  /** An input that passes without a list, with one, commits exactly if the list is signed and does
      not hold the serial number in a form that the guest recognizes: a listed number with a high
      bit passes too. `listed` are the numbers on the list. The key that must have signed it is the
      one that signs the certificate, where that is nobody else's in the chain, exactly if the first
      intermediate is named as the certificate's issuer or there is none. */
  lemma ListExcludesExactly(c: Crypto, g: GuestInput, crlDer: Bytes, crl: Crl, listed: seq<nat>, user: Cert, n: nat,
                            intermediates: seq<Cert>, key: Bytes)
    requires g.p.crlDer == [] && Accepts(c, g) && c.parseCert(g.p.certDer) == Some(user)
    requires crlDer != [] && c.parseCrl(crlDer) == Some(crl)
    requires user.serial == BigEndian(n) && crl.revoked == EntryOctets(listed)
    requires intermediates == Parsed(c, IntermediateDers(g.p))
    requires key == CrlKey(intermediates, RootKey(g.p), user.issuerName)
    ensures Accepts(c, g.(p := g.p.(crlDer := crlDer)))
        <==> SignedList(c, crl, user, key, AsI64(g.p.timestamp)) && (n in listed ==> HighBit(n))
    ensures IssuerKeyIsOwn(intermediates, RootKey(g.p)) ==>
              (key == SignerKey(intermediates, RootKey(g.p), 0)
               <==> intermediates == [] || intermediates[0].subjectName == user.issuerName)
  {
    RecognizedExactly(n, listed);
    ListConjunct(c, g, crlDer, user);
    if IssuerKeyIsOwn(intermediates, RootKey(g.p)) {
      ListKeyIsIssuersByName(user, intermediates, RootKey(g.p));
    }
  }

  lemma ListConjunct(c: Crypto, g: GuestInput, crlDer: Bytes, user: Cert)
    requires g.p.crlDer == [] && Accepts(c, g) && c.parseCert(g.p.certDer) == Some(user) && crlDer != []
    ensures Accepts(c, g.(p := g.p.(crlDer := crlDer)))
        <==> FullCrlAccepts(c, crlDer, user, Parsed(c, IntermediateDers(g.p)), RootKey(g.p), AsI64(g.p.timestamp))
  {
  }

  // ---------------------------------------------------------------- requirements

  /** A committed non-zero requirement is the encoding of the subject's first string value of
      its kind. */
  lemma CommittedRequirementHolds(c: Crypto, s: Serde, k: Commit)
    requires IsCommit(c, s, k)
    ensures HoldsOfSubject(k.user.subject, OID_COUNTRY, k.pv.required.country)
    ensures HoldsOfSubject(k.user.subject, OID_ORG, k.pv.required.org)
    ensures HoldsOfSubject(k.user.subject, OID_ORG_UNIT, k.pv.required.orgUnit)
    ensures HoldsOfSubject(k.user.subject, OID_CN, k.pv.required.commonName)
  {
    CommitMeans(c, s, k);
    MetRequirement(k.user.subject, OID_COUNTRY, k.pv.required.country);
    MetRequirement(k.user.subject, OID_ORG, k.pv.required.org);
    MetRequirement(k.user.subject, OID_ORG_UNIT, k.pv.required.orgUnit);
    MetRequirement(k.user.subject, OID_CN, k.pv.required.commonName);
  }

  ghost predicate HoldsOfSubject(subject: seq<Attribute>, oid: Bytes, required: Hash) {
    required != ZERO ==> exists i, text :: IsFirstText(subject, oid, i, text) && CircuitField(Some(text)) == required
  }

  lemma MetRequirement(subject: seq<Attribute>, oid: Bytes, required: Hash)
    requires Meets(subject, oid, required)
    ensures HoldsOfSubject(subject, oid, required)
  {
    if required != ZERO {
      var text := FirstText(subject, oid).value;
      FirstTextIsFirst(subject, oid, text);
      var i: nat :| IsFirstText(subject, oid, i, text);
    }
  }
}
