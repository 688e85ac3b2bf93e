/** Proofs of absence with paths of any length. Neither verifier looks at the length of a path or
    compares its direction bits with the claimed index; this module says for each choice of
    direction bits which keys can then be proved absent. */
module CrlPaths {
  import opened Octets
  import opened MerkleRows
  import opened Sorting
  import opened CrlTree

  // ---------------------------------------------------------------- what direction bits allow

  /** The bits that `zip` uses. */
  function UsedBits(path: seq<Hash>, dirs: seq<bool>): seq<bool> {
    dirs[..Steps(path, dirs)]
  }

  predicate HasBits(proof: NonInclusionProof, ld: seq<bool>, rd: seq<bool>) {
    UsedBits(proof.leftPath, proof.leftDirs) == ld && UsedBits(proof.rightPath, proof.rightDirs) == rd
  }

  /** The bits lead to two nodes of the tree, and the key lies strictly between these. */
  predicate LiesBetween(sha: Sha, leaves: seq<Hash>, ld: seq<bool>, rd: seq<bool>, key: Hash)
    requires leaves != []
  {
    && |ld| <= Depth(|leaves|) && |rd| <= Depth(|leaves|)
    && Less(StartNode(sha, Positional, leaves, ld), key)
    && Less(key, StartNode(sha, Positional, leaves, rd))
  }

  /** No collisions among the serials and the hashed nodes, no serial as long as two hashes, and no
      node that hashes to a sentinel. */
  ghost predicate Clean(sha: Sha, serials: seq<Bytes>, nodes: set<Bytes>) {
    && CollisionFree(sha, (set s | s in serials) + nodes)
    && (forall s {:trigger s in serials} | s in serials :: |s| != 64)
    && (forall x | x in nodes :: sha(x) != MIN_SENTINEL && sha(x) != MAX_SENTINEL)
  }

  /** An accepted proof with these direction bits. */
  ghost predicate AcceptedWith(sha: Sha, serials: seq<Bytes>, key: Hash, proof: NonInclusionProof,
                               ld: seq<bool>, rd: seq<bool>, width: nat)
    requires width > 0
  {
    && HasBits(proof, ld, rd)
    && Clean(sha, serials, HashedInputs(sha, Leaves(sha, serials), proof))
    && Accepts(sha, key, proof, CrlRoot(sha, serials), width)
  }

  // ---------------------------------------------------------------- accepted keys lie between

  lemma NoLeafIsNode(sha: Sha, serials: seq<Bytes>, nodes: set<Bytes>, h: Hash)
    requires Clean(sha, serials, nodes) && h in Leaves(sha, serials)
    ensures !IsNodeDigest(sha, nodes, h)
  {
    LeavesSpec(sha, serials);
    assert h in Members(Leaves(sha, serials));
    if h != MIN_SENTINEL && h != MAX_SENTINEL {
      var s :| s in serials && sha(s) == h;
      assert forall p | p in nodes && sha(p) == sha(s) :: p == s;
    }
  }

  /** A path that reaches the root is no longer than the tree is deep and starts where its bits lead. */
  lemma PathStart(sha: Sha, serials: seq<Bytes>, leaves: seq<Hash>, nodes: set<Bytes>,
                  node: Hash, path: seq<Hash>, dirs: seq<bool>)
    requires leaves == Leaves(sha, serials) && Clean(sha, serials, nodes)
    requires TreeInputs(sha, Positional, leaves) + ClimbInputs(sha, Positional, node, path, dirs) <= nodes
    requires Climb(sha, Positional, node, path, dirs) == Root(sha, Positional, leaves)
    ensures |UsedBits(path, dirs)| <= Depth(|leaves|)
    ensures node == StartNode(sha, Positional, leaves, UsedBits(path, dirs))
  {
    var k := Steps(path, dirs);
    ClimbZips(sha, node, path, dirs);
    if k > Depth(|leaves|) {
      NotTooLong(sha, serials, leaves, nodes, node, path[..k], dirs[..k]);
    } else {
      AnyPathBinds(sha, leaves, node, path[..k], dirs[..k]);
    }
  }

  /** A path longer than the tree is deep would hash to a leaf. */
  lemma NotTooLong(sha: Sha, serials: seq<Bytes>, leaves: seq<Hash>, nodes: set<Bytes>,
                   node: Hash, path: seq<Hash>, dirs: seq<bool>)
    requires leaves == Leaves(sha, serials) && Clean(sha, serials, nodes) && |path| == |dirs|
    requires TreeInputs(sha, Positional, leaves) + ClimbInputs(sha, Positional, node, path, dirs) <= nodes
    requires Climb(sha, Positional, node, path, dirs) == Root(sha, Positional, leaves)
    ensures |path| <= Depth(|leaves|)
  {
    if |path| > Depth(|leaves|) {
      LongClimbHashesToLeaf(sha, leaves, node, path, dirs);
      var h :| h in leaves && IsNodeDigest(sha, ClimbInputs(sha, Positional, node, path, dirs), h);
      NoLeafIsNode(sha, serials, nodes, h);
    }
  }

  lemma AcceptedLiesBetween(sha: Sha, serials: seq<Bytes>, key: Hash, proof: NonInclusionProof,
                            ld: seq<bool>, rd: seq<bool>, width: nat)
    requires width > 0 && AcceptedWith(sha, serials, key, proof, ld, rd, width)
    ensures LiesBetween(sha, Leaves(sha, serials), ld, rd, key)
  {
    var leaves := Leaves(sha, serials);
    var nodes := HashedInputs(sha, leaves, proof);
    PathStart(sha, serials, leaves, nodes, proof.leftLeaf, proof.leftPath, proof.leftDirs);
    PathStart(sha, serials, leaves, nodes, proof.rightLeaf, proof.rightPath, proof.rightDirs);
  }

  // ---------------------------------------------------------------- keys between are accepted

  /** The two nodes with their own paths, under consecutive indices that say nothing about them. */
  function StartProof(sha: Sha, leaves: seq<Hash>, ld: seq<bool>, rd: seq<bool>): NonInclusionProof
    requires leaves != [] && |ld| <= Depth(|leaves|) && |rd| <= Depth(|leaves|)
  {
    NonInclusionProof(StartNode(sha, Positional, leaves, ld), StartNode(sha, Positional, leaves, rd),
                      StartPath(sha, Positional, leaves, ld), ld,
                      StartPath(sha, Positional, leaves, rd), rd, 0, 1)
  }

  lemma StartProofAccepted(sha: Sha, leaves: seq<Hash>, key: Hash, ld: seq<bool>, rd: seq<bool>, width: nat)
    requires leaves != [] && width > 1
    requires LiesBetween(sha, leaves, ld, rd, key)
    ensures HasBits(StartProof(sha, leaves, ld, rd), ld, rd)
    ensures HashedInputs(sha, leaves, StartProof(sha, leaves, ld, rd)) == TreeInputs(sha, Positional, leaves)
    ensures Accepts(sha, key, StartProof(sha, leaves, ld, rd), Root(sha, Positional, leaves), width)
  {
    StartPathClimbs(sha, Positional, leaves, ld);
    StartPathClimbs(sha, Positional, leaves, rd);
  }

  // ---------------------------------------------------------------- exactly

  /** Exactly the keys that have an accepted proof with given direction bits of any number: those
      strictly between the two nodes that the bits lead to. */
  lemma AcceptedExactlyBetween(sha: Sha, serials: seq<Bytes>, key: Hash, ld: seq<bool>, rd: seq<bool>, width: nat)
    requires width > 1
    requires Clean(sha, serials, TreeInputs(sha, Positional, Leaves(sha, serials)))
    ensures (exists proof :: AcceptedWith(sha, serials, key, proof, ld, rd, width))
        <==> LiesBetween(sha, Leaves(sha, serials), ld, rd, key)
  {
    if proof :| AcceptedWith(sha, serials, key, proof, ld, rd, width) {
      AcceptedLiesBetween(sha, serials, key, proof, ld, rd, width);
    }
    if LiesBetween(sha, Leaves(sha, serials), ld, rd, key) {
      StartProofAccepted(sha, Leaves(sha, serials), key, ld, rd, width);
      assert AcceptedWith(sha, serials, key, StartProof(sha, Leaves(sha, serials), ld, rd), ld, rd, width);
    }
  }

  /** With these bits, acceptance means absence. */
  ghost predicate BitsGuaranteeAbsence(sha: Sha, serials: seq<Bytes>, ld: seq<bool>, rd: seq<bool>, width: nat)
    requires width > 0
  {
    forall serial, proof | AcceptedWith(sha, serials, sha(serial), proof, ld, rd, width) :: serial !in serials
  }

  /** Exactly the direction bits, of any number, for which acceptance means absence: those that
      lead to two nodes with no revoked digest strictly between them. */
  lemma AbsenceExactlyWithoutRevokedBetween(sha: Sha, serials: seq<Bytes>, ld: seq<bool>, rd: seq<bool>, width: nat)
    requires width > 1
    requires Clean(sha, serials, TreeInputs(sha, Positional, Leaves(sha, serials)))
    ensures BitsGuaranteeAbsence(sha, serials, ld, rd, width)
        <==> forall s | s in serials :: !LiesBetween(sha, Leaves(sha, serials), ld, rd, sha(s))
  {
    forall s | s in serials
      ensures (exists proof :: AcceptedWith(sha, serials, sha(s), proof, ld, rd, width))
          <==> LiesBetween(sha, Leaves(sha, serials), ld, rd, sha(s))
    {
      AcceptedExactlyBetween(sha, serials, sha(s), ld, rd, width);
    }
  }

  // ---------------------------------------------------------------- where the check fails

  lemma SentinelsBoundKeys(key: Hash)
    ensures Less(MIN_SENTINEL, key) <==> key != MIN_SENTINEL
    ensures Less(key, MAX_SENTINEL) <==> key != MAX_SENTINEL
  {
    ZerosLeast(32, key);
    OnesGreatest(32, key);
    LessTotal(MIN_SENTINEL, key);
    LessTotal(key, MAX_SENTINEL);
    LessIrreflexive(key);
  }

  /** Inputs on which the check fails: the first and the last leaf, honestly proved and labelled
      0 and 1, are accepted for every key but the sentinels, whether or not it is revoked. */
  lemma OuterLeavesAccepted(sha: Sha, serials: seq<Bytes>, leaves: seq<Hash>, last: nat, key: Hash, width: nat)
    requires width > 1 && leaves == Leaves(sha, serials) && last == |leaves| - 1
    ensures Accepts(sha, key, ProofAt(sha, leaves, 0, last, 0, 1), CrlRoot(sha, serials), width)
        <==> key != MIN_SENTINEL && key != MAX_SENTINEL
  {
    LeavesEnds(sha, serials, leaves, last);
    SentinelsBoundKeys(key);
    ProofAtAccepted(sha, leaves, key, 0, last, 0, 1, width);
  }

  /** So exactly the serials whose digest is no sentinel have an accepted proof. */
  lemma ProvableIffNoSentinel(sha: Sha, serials: seq<Bytes>, key: Hash, width: nat)
    requires width > 1
    ensures (exists proof :: Accepts(sha, key, proof, CrlRoot(sha, serials), width))
        <==> key != MIN_SENTINEL && key != MAX_SENTINEL
  {
    var leaves := Leaves(sha, serials);
    OuterLeavesAccepted(sha, serials, leaves, |leaves| - 1, key, width);
    if proof :| Accepts(sha, key, proof, CrlRoot(sha, serials), width) {
      ZerosLeast(32, proof.leftLeaf);
      OnesGreatest(32, proof.rightLeaf);
    }
  }

  /** The root in place of a left leaf, with an empty path, and leaf `j` on the right. */
  function RootProof(sha: Sha, leaves: seq<Hash>, j: nat): NonInclusionProof
    requires j < |leaves|
  {
    NonInclusionProof(Root(sha, Positional, leaves), leaves[j], [], [],
                      HonestPath(sha, Positional, leaves, j), HonestDirs(Depth(|leaves|), j), 0, 1)
  }

  lemma RootProofAccepted(sha: Sha, leaves: seq<Hash>, j: nat, key: Hash, width: nat)
    requires width > 1 && j < |leaves|
    ensures Accepts(sha, key, RootProof(sha, leaves, j), Root(sha, Positional, leaves), width)
        <==> Less(Root(sha, Positional, leaves), key) && Less(key, leaves[j])
  {
    HonestClimb(sha, leaves, j);
    AcceptsExactly(sha, key, RootProof(sha, leaves, j), Root(sha, Positional, leaves), width, 1);
  }

  /** A second family: with an empty left path the root itself serves as left leaf, for every key
      strictly between the root and the last leaf. */
  lemma RootServesAsLeaf(sha: Sha, serials: seq<Bytes>, leaves: seq<Hash>, last: nat, key: Hash, width: nat)
    requires width > 1 && leaves == Leaves(sha, serials) && last == |leaves| - 1
    ensures Accepts(sha, key, RootProof(sha, leaves, last), CrlRoot(sha, serials), width)
        <==> Less(CrlRoot(sha, serials), key) && key != MAX_SENTINEL
  {
    LeavesEnds(sha, serials, leaves, last);
    SentinelsBoundKeys(key);
    RootProofAccepted(sha, leaves, last, key, width);
  }

  // ---------------------------------------------------------------- the root binds the list

  lemma AllBitsUsed(path: seq<Hash>, dirs: seq<bool>)
    requires |path| == |dirs|
    ensures UsedBits(path, dirs) == dirs
  {
  }

  /** A node that is no digest of two nodes, with a path to the root, is a leaf. */
  lemma ReachingNodeIsLeaf(sha: Sha, others: seq<Bytes>, leaves: seq<Hash>, nodes: set<Bytes>,
                           node: Hash, path: seq<Hash>, dirs: seq<bool>)
    requires leaves == Leaves(sha, others) && Clean(sha, others, nodes)
    requires TreeInputs(sha, Positional, leaves) + ClimbInputs(sha, Positional, node, path, dirs) <= nodes
    requires |path| == |dirs| && Climb(sha, Positional, node, path, dirs) == Root(sha, Positional, leaves)
    requires !IsNodeDigest(sha, nodes, node)
    ensures node in leaves
  {
    AllBitsUsed(path, dirs);
    PathStart(sha, others, leaves, nodes, node, path, dirs);
    StartsAtLeaf(sha, leaves, nodes, dirs);
  }

  lemma StartsAtLeaf(sha: Sha, leaves: seq<Hash>, nodes: set<Bytes>, dirs: seq<bool>)
    requires leaves != [] && |dirs| <= Depth(|leaves|) && TreeInputs(sha, Positional, leaves) <= nodes
    requires !IsNodeDigest(sha, nodes, StartNode(sha, Positional, leaves, dirs))
    ensures StartNode(sha, Positional, leaves, dirs) in leaves
  {
    if |dirs| < Depth(|leaves|) {
      ShortStartIsHashed(sha, Positional, leaves, dirs);
    }
  }

  /** A leaf of one tree is a leaf of every clean tree with the same root. */
  lemma LeafOfBoth(sha: Sha, serials: seq<Bytes>, others: seq<Bytes>, leaves: seq<Hash>, i: nat)
    requires leaves == Leaves(sha, serials) && i < |leaves|
    requires CleanTrees(sha, serials, others)
    requires Root(sha, Positional, leaves) == CrlRoot(sha, others)
    ensures leaves[i] in Leaves(sha, others)
  {
    var nodes := BothTrees(sha, serials, others);
    RealOfReal(|leaves|, i);
    HonestPathClimbs(sha, Positional, leaves, i);
    NoLeafIsNode(sha, serials, nodes, leaves[i]);
    ReachingNodeIsLeaf(sha, others, Leaves(sha, others), nodes, leaves[i],
                       HonestPath(sha, Positional, leaves, i), HonestDirs(Depth(|leaves|), i));
  }

  ghost function BothTrees(sha: Sha, serials: seq<Bytes>, others: seq<Bytes>): set<Bytes> {
    TreeInputs(sha, Positional, Leaves(sha, serials)) + TreeInputs(sha, Positional, Leaves(sha, others))
  }

  /** The assumption on everything hashed for two trees. */
  ghost predicate CleanTrees(sha: Sha, serials: seq<Bytes>, others: seq<Bytes>) {
    && Clean(sha, serials, BothTrees(sha, serials, others))
    && Clean(sha, others, BothTrees(sha, serials, others))
    && CollisionFree(sha, (set s | s in serials) + (set s | s in others))
    && (forall s | s in serials + others :: sha(s) != MIN_SENTINEL && sha(s) != MAX_SENTINEL)
  }

  lemma SameRootSameLeaves(sha: Sha, serials: seq<Bytes>, others: seq<Bytes>)
    requires CleanTrees(sha, serials, others)
    requires CrlRoot(sha, serials) == CrlRoot(sha, others)
    ensures Leaves(sha, serials) == Leaves(sha, others)
  {
    var a, b := Leaves(sha, serials), Leaves(sha, others);
    LeavesSpec(sha, serials);
    LeavesSpec(sha, others);
    forall i | 0 <= i < |a| ensures a[i] in b {
      LeafOfBoth(sha, serials, others, a, i);
    }
    assert BothTrees(sha, others, serials) == BothTrees(sha, serials, others);
    forall i | 0 <= i < |b| ensures b[i] in a {
      LeafOfBoth(sha, others, serials, b, i);
    }
    AscendingListingUnique(a, b);
  }

  /** A serial stands in the list exactly when its digest is among the leaves. */
  lemma ListedIffLeaf(sha: Sha, serials: seq<Bytes>, s: Bytes, inputs: set<Bytes>)
    requires CollisionFree(sha, inputs) && s in inputs && forall x | x in serials :: x in inputs
    requires sha(s) != MIN_SENTINEL && sha(s) != MAX_SENTINEL
    ensures s in serials <==> sha(s) in Leaves(sha, serials)
  {
    LeavesSpec(sha, serials);
    assert sha(s) in Leaves(sha, serials) <==> sha(s) in Members(Leaves(sha, serials));
  }

  lemma SameLeavesSameSerials(sha: Sha, serials: seq<Bytes>, others: seq<Bytes>, s: Bytes)
    requires CollisionFree(sha, (set s | s in serials) + (set s | s in others))
    requires s in serials || s in others
    requires sha(s) != MIN_SENTINEL && sha(s) != MAX_SENTINEL
    requires Leaves(sha, serials) == Leaves(sha, others)
    ensures s in serials && s in others
  {
    var inputs := (set s | s in serials) + (set s | s in others);
    ListedIffLeaf(sha, serials, s, inputs);
    ListedIffLeaf(sha, others, s, inputs);
  }

  /** The root commits to the set of revoked serials: two lists have the same root exactly when
      they contain the same serials. */
  lemma RootCommitsToSerials(sha: Sha, serials: seq<Bytes>, others: seq<Bytes>)
    requires CleanTrees(sha, serials, others)
    ensures CrlRoot(sha, serials) == CrlRoot(sha, others) <==> forall s :: s in serials <==> s in others
  {
    if CrlRoot(sha, serials) == CrlRoot(sha, others) {
      SameRootSameLeaves(sha, serials, others);
      forall s | s in serials + others ensures s in serials && s in others {
        SameLeavesSameSerials(sha, serials, others, s);
      }
    }
    if forall s :: s in serials <==> s in others {
      RootIsFunctionOfSet(sha, serials, others);
    }
  }
}
