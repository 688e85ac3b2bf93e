/** Whole runs: the host signs, builds its Merkle trees and writes the stream, and the guest reads
    and decides. */
module Sessions {
  import opened Outcomes
  import opened Octets
  import opened MerkleRows
  import opened Signatures
  import opened FullCrl
  import opened Ownership
  import opened Stdin
  import opened Guest
  import opened Statement
  import opened TextField
  import Challenges
  import CrlTree
  import CaTree

  /** Where the leaves of the CA tree come from: files beside the CA's own key, or the registry's
      list, if it could be fetched. */
  datatype CaSource = Local(extraCas: seq<Bytes>) | Registry(fetched: Option<seq<Hash>>)

  /** What the holder asks for. */
  datatype Request = Request(
    certDer: Bytes, keyDer: Bytes, caPubKey: Bytes, intermediates: seq<Bytes>, cas: CaSource,
    timestamp: u64, crlDer: Bytes, registrant: Address, walletIndex: u32, maxWallets: u32,
    disclosureMask: bv8, required: Fields, registryAddress: Address, chainId: u64)

  // ---------------------------------------------------------------- specification

  /** The root over the CA's key and the keys beside it, or over the registry's list if that could be
      fetched and has the CA's key, or over the CA's key alone. */
  predicate IsCaRoot(sha: Sha, q: Request, root: Hash) {
    match q.cas
    case Local(extraCas) => root == Root(sha, SortedPair, [sha(q.caPubKey)] + CaTree.KeyLeaves(sha, extraCas))
    case Registry(fetched) =>
      if fetched.Some? && sha(q.caPubKey) in fetched.value then root == Root(sha, SortedPair, fetched.value)
      else root == sha(q.caPubKey)
  }

  function OwnershipSignature(c: Crypto, k: Signer, q: Request, user: Cert): Result<Bytes, SignError> {
    SignOutcome(k, user.key, q.keyDer,
                c.sha256(Challenges.OwnershipPreimage(user.serial, q.registrant, q.walletIndex, q.timestamp, q.chainId)))
  }

  function NullifierSignature(c: Crypto, k: Signer, q: Request, user: Cert): Result<Bytes, SignError> {
    SignOutcome(k, user.key, q.keyDer, c.sha256(Challenges.NullifierPreimage(q.registryAddress, q.chainId)))
  }

  /** The certificate parses and its key signs both challenges. */
  predicate Signs(c: Crypto, k: Signer, q: Request) {
    var user := c.parseCert(q.certDer);
    user.Some? && OwnershipSignature(c, k, q, user.value).Ok? && NullifierSignature(c, k, q, user.value).Ok?
  }

  /** The private key of the request belongs to its certificate. */
  ghost predicate OwnKey(c: Crypto, k: Signer, q: Request) {
    c.parseCert(q.certDer).Some? ==> KeyFits(c, k, q.keyDer, c.parseCert(q.certDer).value.key)
  }

  /** Who may register, in terms of the request alone: certificates that parse, are in date and
      form a chain up to the CA's key, a wallet slot in range, and a subject that meets the
      requirements. Nothing is said of signatures, CA paths or streams, which the host makes. */
  predicate Eligible(c: Crypto, q: Request) {
    && q.walletIndex < q.maxWallets
    && c.parseCert(q.certDer).Some?
    && AllParse(c, q.intermediates)
    && var user, intermediates, ts := c.parseCert(q.certDer).value, Parsed(c, q.intermediates), AsI64(q.timestamp);
       && ValidAt(user, ts)
       && (forall i | 0 <= i < |intermediates| :: ValidAt(intermediates[i], ts))
       && ChainLinked(CertVerifier(c), user, intermediates, q.caPubKey)
       && (q.crlDer != [] ==> FullCrlAccepts(c, q.crlDer, user, intermediates, q.caPubKey, ts))
       && MeetsAll(user.subject, q.required)
  }

  /** The public values answer the request. */
  ghost predicate Answers(c: Crypto, k: Signer, q: Request, user: Cert, crlRoot: Hash, pv: PublicValues) {
    && pv.timestamp == q.timestamp && pv.registrant == q.registrant && pv.walletIndex == q.walletIndex
    && pv.chainId == q.chainId && pv.registryAddress == q.registryAddress && pv.required == q.required
    && IsTime(pv.notAfter, user.notAfter)
    && pv.crlMerkleRoot == crlRoot
    && IsCaRoot(c.sha256, q, pv.caMerkleRoot)
    && NullifierSignature(c, k, q, user).Ok?
    && pv.nullifier == c.sha256(NullifierSignature(c, k, q, user).value + ToBE(q.walletIndex, 4))
    && ShownIf(user.subject, [0x55, 0x04, 0x06], q.disclosureMask & 1 == 1, pv.disclosed.country)
    && ShownIf(user.subject, [0x55, 0x04, 0x0A], q.disclosureMask & 2 == 2, pv.disclosed.org)
    && ShownIf(user.subject, [0x55, 0x04, 0x0B], q.disclosureMask & 4 == 4, pv.disclosed.orgUnit)
    && ShownIf(user.subject, [0x55, 0x04, 0x03], q.disclosureMask & 8 == 8, pv.disclosed.commonName)
  }

  // ---------------------------------------------------------------- the host

  /** The stream's parameters repeat the request. */
  predicate Repeats(q: Request, p: Params) {
    && p.certDer == q.certDer && p.certChain == q.intermediates + [q.caPubKey]
    && p.timestamp == q.timestamp && p.crlDer == q.crlDer && p.registrant == q.registrant
    && p.walletIndex == q.walletIndex && p.maxWallets == q.maxWallets
    && p.disclosureMask == q.disclosureMask && p.required == q.required
    && p.registryAddress == q.registryAddress && p.chainId == q.chainId
  }

  /** What the host makes for a request. */
  ghost predicate Prepared(c: Crypto, k: Signer, q: Request, user: Cert, p: Params) {
    && Repeats(q, p)
    && c.parseCert(q.certDer) == Some(user)
    && OwnershipSignature(c, k, q, user) == Ok(p.ownershipSig)
    && NullifierSignature(c, k, q, user) == Ok(p.nullifierSig)
    && IsCaRoot(c.sha256, q, p.caMerkleRoot)
    && CaTree.Fold(c.sha256, c.sha256(q.caPubKey), p.caMerkleProof) == p.caMerkleRoot
  }

  method MakeCaPath(sha: Sha, q: Request) returns (root: Hash, path: seq<Hash>)
    ensures IsCaRoot(sha, q, root)
    ensures CaTree.Fold(sha, sha(q.caPubKey), path) == root
  {
    match q.cas
    case Registry(fetched) =>
      root, path := CaTree.BuildCaMerkle(sha, fetched, q.caPubKey);
    case Local(extraCas) =>
      var extraHashes := CaTree.KeyLeaves(sha, extraCas);
      var leaf;
      leaf, root, path := CaTree.CaMerkleTree(sha, q.caPubKey, extraHashes);
      CaTree.HonestPathVerifies(sha, [leaf] + extraHashes, 0);
  }

  /** The prover's `main` up to the stream: chain, signatures, CA path. */
  method Prepare(c: Crypto, k: Signer, q: Request) returns (r: Result<Params, SignError>)
    ensures r.Ok? <==> Signs(c, k, q)
    ensures r.Ok? ==> Prepared(c, k, q, c.parseCert(q.certDer).value, r.value)
  {
    var certChain := q.intermediates;
    certChain := certChain + [q.caPubKey];
    var ownershipSig :- SignOwnership(c, k, q.certDer, q.keyDer, q.registrant, q.walletIndex, q.timestamp, q.chainId);
    var nullifierSig :- SignNullifier(c, k, q.certDer, q.keyDer, q.registryAddress, q.chainId);
    var root, path := MakeCaPath(c.sha256, q);
    return Ok(Params(q.certDer, ownershipSig, nullifierSig, certChain, q.timestamp, q.crlDer, q.registrant,
                     q.walletIndex, q.maxWallets, q.disclosureMask, q.required, path, root,
                     q.registryAddress, q.chainId));
  }

  // ---------------------------------------------------------------- what the guest makes of it

  lemma ChainOfRequest(q: Request, p: Params)
    requires Repeats(q, p)
    ensures p.certChain != [] && RootKey(p) == q.caPubKey && IntermediateDers(p) == q.intermediates
  {
  }

  /** Of what the host made, the guest accepts exactly the eligible requests whose CRL fields pass. */
  lemma PreparedAccepted(c: Crypto, k: Signer, q: Request, user: Cert, p: Params, crl: CrlInputs)
    requires Prepared(c, k, q, user, p) && KeyFits(c, k, q.keyDer, user.key)
    ensures Accepts(c, GuestInput(p, crl)) <==> Eligible(c, q) && CrlOracleAccepts(c.sha256, user.serial, crl)
  {
    ChainOfRequest(q, p);
    SignatureVerifies(c, k, q.keyDer, user, OwnershipHash(c, p, user.serial));
    SignatureVerifies(c, k, q.keyDer, user, NullifierHash(c, p));
  }

  lemma CommittedAnswers(c: Crypto, k: Signer, q: Request, user: Cert, p: Params, crl: CrlInputs)
    requires Prepared(c, k, q, user, p)
    ensures Answers(c, k, q, user, crl.root, Committed(c, GuestInput(p, crl), user))
  {
    CommittedExactly(c, GuestInput(p, crl), user);
  }

  lemma PreparedOutcome(c: Crypto, k: Signer, s: Serde, q: Request, user: Cert, p: Params, crl: CrlInputs)
    requires s.Lawful() && Prepared(c, k, q, user, p) && KeyFits(c, k, q.keyDer, user.key)
    requires CrlOracleAccepts(c.sha256, user.serial, crl)
    ensures var out := Outcome(c, s, EncodeParams(s, p) + EncodeCrl(s, crl), 0);
            && (out.Some? <==> Eligible(c, q))
            && (out.Some? ==> Answers(c, k, q, user, crl.root, out.value))
  {
    HostStreamDecodes(s, p, crl);
    OutcomeOfDecoded(c, s, EncodeParams(s, p) + EncodeCrl(s, crl), 0, GuestInput(p, crl), user);
    PreparedAccepted(c, k, q, user, p, crl);
    CommittedAnswers(c, k, q, user, p, crl);
  }

  // ---------------------------------------------------------------- runs

  /** Host and guest on one stream, with the CRL check by Merkle proof switched off. The host gives
      up exactly when it cannot sign; otherwise the guest commits exactly for eligible requests, and
      what it commits answers the request. */
  method ProverRun(c: Crypto, k: Signer, s: Serde, q: Request) returns (r: Result<Option<PublicValues>, SignError>)
    requires s.Lawful() && OwnKey(c, k, q)
    ensures r.Ok? <==> Signs(c, k, q)
    ensures r.Ok? ==> (r.value.Some? <==> Eligible(c, q))
    ensures r.Ok? && r.value.Some? ==> Answers(c, k, q, c.parseCert(q.certDer).value, ZERO, r.value.value)
  {
    var p :- Prepare(c, k, q);
    var stdin := BuildStdin(s, p);
    PreparedOutcome(c, k, s, q, c.parseCert(q.certDer).value, p, DISABLED_CRL);
    var out := GuestMain(c, s, stdin);
    return Ok(out);
  }

  datatype RunError = Signing(sign: SignError) | Revocation(tree: CrlTree.TreeError)

  /** A host proof as guest input: the indices are cut down to `u32`. */
  function SentCrl(root: Hash, proof: CrlTree.NonInclusionProof): CrlInputs {
    CrlInputs(root, proof.leftLeaf, proof.rightLeaf, proof.leftPath, proof.leftDirs,
              proof.rightPath, proof.rightDirs,
              CrlTree.Cut(U32, proof.leftIndex), CrlTree.Cut(U32, proof.rightIndex))
  }

  /** The guest accepts the host's proof for every serial that has one. */
  lemma SentCrlAccepted(sha: Sha, serials: seq<Bytes>, serial: Bytes, pos: nat)
    requires CrlTree.BelongsAt(CrlTree.Leaves(sha, serials), sha(serial), pos)
    ensures var proof := CrlTree.ProofAt(sha, CrlTree.Leaves(sha, serials), pos - 1, pos, pos - 1, pos);
            CrlOracleAccepts(sha, serial, SentCrl(CrlTree.CrlRoot(sha, serials), proof))
  {
    CrlTree.HonestProofAccepted(sha, CrlTree.Leaves(sha, serials), sha(serial), pos, U32);
  }

  /** The tree over the revoked serials, the proof of absence from it, and its CRL fields. */
  method MakeCrlInputs(sha: Sha, serials: seq<Bytes>, serial: Bytes) returns (r: Result<CrlInputs, CrlTree.TreeError>)
    ensures sha(serial) in CrlTree.Leaves(sha, serials) ==> r == Err(CrlTree.Revoked)
    ensures sha(serial) !in CrlTree.Leaves(sha, serials) ==>
              r.Ok? && r.value.root == CrlTree.CrlRoot(sha, serials) && CrlOracleAccepts(sha, serial, r.value)
  {
    var tree := CrlTree.CrlMerkleTree.FromRevokedSerials(sha, serials);
    var root := tree.GetRoot(sha);
    CrlTree.ZeroesBelowAll(sha(serial));
    var proof :- tree.ProveNonInclusion(sha, serial);
    SentCrlAccepted(sha, serials, serial, proof.rightIndex);
    return Ok(SentCrl(root, proof));
  }

  /** The same run with a proof of absence from a list of revoked serials: it ends with an error
      exactly when the host cannot sign or the certificate's digest is among the leaves. */
  method ProverRunWithCrl(c: Crypto, k: Signer, s: Serde, q: Request, serials: seq<Bytes>)
    returns (r: Result<Option<PublicValues>, RunError>)
    requires s.Lawful() && OwnKey(c, k, q)
    ensures !Signs(c, k, q) ==> r.Err? && r.error.Signing?
    ensures Signs(c, k, q) && c.sha256(c.parseCert(q.certDer).value.serial) in CrlTree.Leaves(c.sha256, serials)
        ==> r == Err(Revocation(CrlTree.Revoked))
    ensures Signs(c, k, q) && c.sha256(c.parseCert(q.certDer).value.serial) !in CrlTree.Leaves(c.sha256, serials)
        ==> && r.Ok?
            && (r.value.Some? <==> Eligible(c, q))
            && (r.value.Some? ==> Answers(c, k, q, c.parseCert(q.certDer).value,
                                          CrlTree.CrlRoot(c.sha256, serials), r.value.value))
  {
    var prepared := Prepare(c, k, q);
    if prepared.Err? {
      return Err(Signing(prepared.error));
    }
    var user := c.parseCert(q.certDer).value;
    var crl := MakeCrlInputs(c.sha256, serials, user.serial);
    if crl.Err? {
      return Err(Revocation(crl.error));
    }
    PreparedOutcome(c, k, s, q, user, prepared.value, crl.value);
    var stdin := BuildStdinWithCrl(s, prepared.value, crl.value);
    var out := GuestMain(c, s, stdin);
    return Ok(out);
  }

  /** For every list and every serial: the host refuses a proof exactly when it reports revocation,
      and otherwise its proof passes the host's verifier and the guest's. */
  method ProveThenVerify(sha: Sha, serials: seq<Bytes>, serial: Bytes)
    returns (revoked: bool, verified: Result<(bool, bool), CrlTree.TreeError>)
    requires |serials| < U64 - 2
    ensures revoked <==> sha(serial) in CrlTree.LeafSet(sha, serials)
    ensures verified == if revoked then Err(CrlTree.Revoked) else Ok((true, true))
  {
    var tree := CrlTree.CrlMerkleTree.FromRevokedSerials(sha, serials);
    CrlTree.LeafIffInSet(sha, serials, sha(serial));
    var root := tree.GetRoot(sha);
    revoked := tree.IsRevoked(sha, serial);
    var proof := tree.ProveNonInclusion(sha, serial);
    CrlTree.ZeroesBelowAll(sha(serial));
    if proof.Err? {
      return revoked, Err(proof.error);
    }
    CrlTree.HonestProofAccepted(sha, tree.leaves, sha(serial), proof.value.rightIndex, U64);
    SentCrlAccepted(sha, serials, serial, proof.value.rightIndex);
    var byHost := CrlTree.VerifyNonInclusion(sha, serial, proof.value, root);
    var byGuest := CheckCrlOracle(sha, serial, SentCrl(root, proof.value));
    return revoked, Ok((byHost, byGuest));
  }
}
