/** The sorted Merkle tree of revoked serial numbers and its proofs of absence. */
module CrlTree {
  import opened Outcomes
  import opened Octets
  import opened MerkleRows
  import opened Sorting

  const MIN_SENTINEL: Hash := ZERO
  const MAX_SENTINEL: Hash := ONES

  datatype TreeError = EmptyLeaves | Revoked | MissingMinSentinel

  /** Two neighbouring leaves around a key, each with its path to the root. */
  datatype NonInclusionProof = NonInclusionProof(
    leftLeaf: Hash, rightLeaf: Hash,
    leftPath: seq<Hash>, leftDirs: seq<bool>,
    rightPath: seq<Hash>, rightDirs: seq<bool>,
    leftIndex: nat, rightIndex: nat)

  // ---------------------------------------------------------------- specification

  function Digests(sha: Sha, serials: seq<Bytes>): (r: seq<Hash>)
    ensures |r| == |serials|
    ensures forall i | 0 <= i < |r| :: r[i] == sha(serials[i])
  {
    seq(|serials|, i requires 0 <= i < |serials| => sha(serials[i]))
  }

  /** The leaves: digests and sentinels, sorted, without repetition. */
  function Leaves(sha: Sha, serials: seq<Bytes>): (leaves: seq<Hash>)
    ensures leaves != [] && |leaves| <= |serials| + 2
  {
    Dedup(Sort(Digests(sha, serials) + [MIN_SENTINEL] + [MAX_SENTINEL]))
  }

  function CrlRoot(sha: Sha, serials: seq<Bytes>): Hash {
    Root(sha, Positional, Leaves(sha, serials))
  }

  ghost function LeafSet(sha: Sha, serials: seq<Bytes>): set<Hash> {
    (set s | s in serials :: sha(s)) + {MIN_SENTINEL, MAX_SENTINEL}
  }

  /** Truncation to an index type of `width` values, as casts and additions do:
      2^64 for the host's `usize`, 2^32 for the guest's `u32`. */
  function Cut(width: nat, i: nat): (r: nat)
    requires width > 0
    ensures r < width
    ensures i < width ==> r == i
  {
    if i < width then i else Cut(width, i - width)
  }

  lemma {:induction false} CutSuccessor(width: nat, i: nat)
    requires width > 0
    ensures Cut(width, Cut(width, i) + 1) == Cut(width, i + 1)
    decreases i
  {
    if i >= width {
      CutSuccessor(width, i - width);
    }
  }

  /** A wrapped successor is zero. */
  lemma SuccessorCases(width: nat, i: nat)
    requires i < width
    ensures Cut(width, i + 1) == i + 1 || Cut(width, i + 1) == 0
  {
    if i + 1 == width {
      assert Cut(width, i + 1) == Cut(width, 0);
    }
  }

  /** What the verifier checks, for a key that is already hashed. */
  predicate Accepts(sha: Sha, key: Hash, proof: NonInclusionProof, root: Hash, width: nat)
    requires width > 0
  {
    && Less(proof.leftLeaf, key)
    && Less(key, proof.rightLeaf)
    && proof.rightIndex == Cut(width, proof.leftIndex + 1)
    && Climb(sha, Positional, proof.leftLeaf, proof.leftPath, proof.leftDirs) == root
    && Climb(sha, Positional, proof.rightLeaf, proof.rightPath, proof.rightDirs) == root
  }

  /** Leaves `i` and `j` with their honest paths, labelled with indices `l` and `r`. */
  function ProofAt(sha: Sha, leaves: seq<Hash>, i: nat, j: nat, l: nat, r: nat): NonInclusionProof
    requires i < |leaves| && j < |leaves|
  {
    NonInclusionProof(leaves[i], leaves[j],
                      HonestPath(sha, Positional, leaves, i), HonestDirs(Depth(|leaves|), i),
                      HonestPath(sha, Positional, leaves, j), HonestDirs(Depth(|leaves|), j),
                      l, r)
  }

  /** The number of steps a path and its directions really make (`zip`). */
  function Steps(path: seq<Hash>, dirs: seq<bool>): (k: nat)
    ensures k <= |path| && k <= |dirs|
  {
    if |path| <= |dirs| then |path| else |dirs|
  }

  /** Both paths have the depth of a tree of `n` leaves, and spell positions `i` and `j`. */
  predicate SpellsPositions(proof: NonInclusionProof, n: nat, i: nat, j: nat)
    requires n >= 1
  {
    && Steps(proof.leftPath, proof.leftDirs) == Depth(n)
    && Steps(proof.rightPath, proof.rightDirs) == Depth(n)
    && Spell(proof.leftDirs[..Depth(n)]) == i
    && Spell(proof.rightDirs[..Depth(n)]) == j
  }

  /** Everything hashed by building the tree and by checking the proof. */
  ghost function HashedInputs(sha: Sha, leaves: seq<Hash>, proof: NonInclusionProof): set<Bytes>
    requires leaves != []
  {
    TreeInputs(sha, Positional, leaves)
    + ClimbInputs(sha, Positional, proof.leftLeaf, proof.leftPath, proof.leftDirs)
    + ClimbInputs(sha, Positional, proof.rightLeaf, proof.rightPath, proof.rightDirs)
  }

  // ---------------------------------------------------------------- the leaves

  lemma LeafSetOfAll(sha: Sha, serials: seq<Bytes>)
    ensures Members(Digests(sha, serials) + [MIN_SENTINEL] + [MAX_SENTINEL]) == LeafSet(sha, serials)
  {
    var digests := Digests(sha, serials);
    assert Members(digests) == set s | s in serials :: sha(s) by {
      forall s | s in serials ensures sha(s) in digests {
        var k :| 0 <= k < |serials| && serials[k] == s;
        assert digests[k] == sha(s);
      }
    }
  }

  lemma SortKeepsMembers(s: seq<Hash>)
    ensures Members(Sort(s)) == Members(s)
  {
    SortSorts(s);
    forall h ensures h in Sort(s) <==> h in s {
      assert h in multiset(Sort(s)) <==> h in multiset(s);
    }
  }

  /** The leaves are the ascending listing of the digests and the two sentinels. */
  lemma LeavesSpec(sha: Sha, serials: seq<Bytes>)
    ensures StrictlyAscending(Leaves(sha, serials))
    ensures Members(Leaves(sha, serials)) == LeafSet(sha, serials)
    ensures |Leaves(sha, serials)| >= 2
    ensures Leaves(sha, serials)[0] == MIN_SENTINEL
    ensures Leaves(sha, serials)[|Leaves(sha, serials)| - 1] == MAX_SENTINEL
  {
    var all := Digests(sha, serials) + [MIN_SENTINEL] + [MAX_SENTINEL];
    LeafSetOfAll(sha, serials);
    SortKeepsMembers(all);
    SortSorts(all);
    DedupOfSorted(Sort(all));
    var leaves := Leaves(sha, serials);
    assert MIN_SENTINEL in Members(leaves) && MAX_SENTINEL in Members(leaves);
    SentinelsAtEnds(leaves);
  }

  /** The two ends alone. */
  lemma LeavesEnds(sha: Sha, serials: seq<Bytes>, leaves: seq<Hash>, last: nat)
    requires leaves == Leaves(sha, serials) && last == |leaves| - 1
    ensures last >= 1 && leaves[0] == MIN_SENTINEL && leaves[last] == MAX_SENTINEL
  {
    LeavesSpec(sha, serials);
  }

  lemma LeafIffInSet(sha: Sha, serials: seq<Bytes>, key: Hash)
    ensures key in Leaves(sha, serials) <==> key in LeafSet(sha, serials)
  {
    LeavesSpec(sha, serials);
    assert key in Leaves(sha, serials) <==> key in Members(Leaves(sha, serials));
  }

  lemma ZeroesBelowAll(key: Hash)
    ensures !Less(key, MIN_SENTINEL)
  {
    ZerosLeast(32, key);
  }

  lemma SentinelsAtEnds(leaves: seq<Hash>)
    requires StrictlyAscending(leaves) && MIN_SENTINEL in leaves && MAX_SENTINEL in leaves
    ensures |leaves| >= 2
    ensures leaves[0] == MIN_SENTINEL && leaves[|leaves| - 1] == MAX_SENTINEL
  {
    ZerosLeast(32, leaves[0]);
    OnesGreatest(32, leaves[|leaves| - 1]);
    assert MIN_SENTINEL[0] != MAX_SENTINEL[0];
  }

  /** The root depends only on the set of digests: reordering or repeating serials
      changes neither leaves nor rows nor root. */
  lemma RootIsFunctionOfSet(sha: Sha, serials: seq<Bytes>, others: seq<Bytes>)
    requires (set s | s in serials :: sha(s)) == (set s | s in others :: sha(s))
    ensures Leaves(sha, serials) == Leaves(sha, others)
    ensures CrlRoot(sha, serials) == CrlRoot(sha, others)
  {
    LeavesSpec(sha, serials);
    LeavesSpec(sha, others);
    AscendingListingUnique(Leaves(sha, serials), Leaves(sha, others));
  }

  // ---------------------------------------------------------------- the tree

  /** One pass over a row, two nodes at a time. */
  method BuildNextLayer(sha: Sha, current: seq<Hash>) returns (next: seq<Hash>)
    ensures next == NextRow(sha, Positional, current)
  {
    next := [];
    var i := 0;
    while i < |current|
      invariant i == 2 * |next| && |next| <= (|current| + 1) / 2
      invariant forall q | 0 <= q < |next| :: next[q] == NextRow(sha, Positional, current)[q]
    {
      if i + 1 < |current| {
        next := next + [sha(Append(current[i], current[i + 1]))];
      } else {
        next := next + [sha(Append(current[i], current[i]))];
      }
      i := i + 2;
    }
  }

  method BuildLayers(sha: Sha, leaves: seq<Hash>) returns (r: Result<seq<seq<Hash>>, TreeError>)
    ensures leaves == [] ==> r == Err(EmptyLeaves)
    ensures leaves != [] ==> r == Ok(Rows(sha, Positional, leaves))
  {
    if leaves == [] {
      return Err(EmptyLeaves);
    }
    var layers := [leaves];
    ghost var above: seq<seq<Hash>> := [];
    while |layers[|layers| - 1]| > 1
      invariant layers != [] && layers[|layers| - 1] != []
      invariant layers == above + [layers[|layers| - 1]]
      invariant above + Rows(sha, Positional, layers[|layers| - 1]) == Rows(sha, Positional, leaves)
      decreases |layers[|layers| - 1]|
    {
      var current := layers[|layers| - 1];
      var next := BuildNextLayer(sha, current);
      assert above + Rows(sha, Positional, current) == (above + [current]) + Rows(sha, Positional, next);
      above := layers;
      layers := layers + [next];
    }
    return Ok(layers);
  }

  /** What the loop below keeps: the path and directions so far, and those still to come. */
  ghost predicate Collected(layers: seq<seq<Hash>>, leafIndex: nat, k: nat, idx: nat, path: seq<Hash>, dirs: seq<bool>)
    requires Halving(layers) && k < |layers| && leafIndex < |layers[0]| && idx < |layers[k]|
  {
    && path + PathInRows(layers, k, idx) == PathInRows(layers, 0, leafIndex)
    && dirs + HonestDirs(|layers| - 1 - k, idx) == HonestDirs(|layers| - 1, leafIndex)
  }

  lemma CollectedStep(layers: seq<seq<Hash>>, leafIndex: nat, k: nat, idx: nat, path: seq<Hash>, dirs: seq<bool>,
                      sibling: Hash, isLeft: bool)
    requires Halving(layers) && k + 1 < |layers| && leafIndex < |layers[0]| && idx < |layers[k]|
    requires Collected(layers, leafIndex, k, idx, path, dirs)
    requires sibling == Neighbour(layers[k], idx) && isLeft == (idx % 2 == 0)
    ensures idx / 2 < |layers[k + 1]|
    ensures Collected(layers, leafIndex, k + 1, idx / 2, path + [sibling], dirs + [isLeft])
  {
    PathInRowsStep(layers, k, idx, path, sibling);
    HonestDirsStep(|layers| - 1 - k, idx, dirs);
  }

  /** The loop of `merkle_proof`: one sibling and one direction bit from every row but the last. */
  method WalkUp(layers: seq<seq<Hash>>, leafIndex: nat) returns (path: seq<Hash>, dirs: seq<bool>)
    requires layers != [] && Halving(layers) && leafIndex < |layers[0]|
    ensures path == PathInRows(layers, 0, leafIndex)
    ensures dirs == HonestDirs(|layers| - 1, leafIndex)
  {
    path, dirs := [], [];
    var idx: nat := leafIndex;
    for k := 0 to |layers| - 1
      invariant idx < |layers[k]| && Collected(layers, leafIndex, k, idx, path, dirs)
    {
      var layer := layers[k];
      var isLeft := idx % 2 == 0;
      var siblingIdx := if isLeft then idx + 1 else idx - 1;
      var sibling := if siblingIdx < |layer| then layer[siblingIdx] else layer[idx];
      CollectedStep(layers, leafIndex, k, idx, path, dirs, sibling, isLeft);
      path := path + [sibling];
      dirs := dirs + [isLeft];
      idx := idx / 2;
    }
  }

  method CollectLeaves(sha: Sha, serials: seq<Bytes>) returns (leaves: seq<Hash>)
    ensures leaves == Leaves(sha, serials)
  {
    leaves := Digests(sha, serials);
    leaves := leaves + [MIN_SENTINEL];
    leaves := leaves + [MAX_SENTINEL];
    leaves := Sort(leaves);
    leaves := Dedup(leaves);
  }

  datatype CrlMerkleTree = CrlMerkleTree(leaves: seq<Hash>, layers: seq<seq<Hash>>) {

    /** What the constructor establishes. The proofs below need no minimum sentinel. */
    ghost predicate WellFormed(sha: Sha) {
      && leaves != []
      && StrictlyAscending(leaves)
      && leaves[|leaves| - 1] == MAX_SENTINEL
      && layers == Rows(sha, Positional, leaves)
    }

    static method FromRevokedSerials(sha: Sha, serials: seq<Bytes>) returns (t: CrlMerkleTree)
      ensures t.WellFormed(sha)
      ensures t.leaves == Leaves(sha, serials)
      ensures t.leaves[0] == MIN_SENTINEL
    {
      var leaves := CollectLeaves(sha, serials);
      LeavesSpec(sha, serials);
      var layers := BuildLayers(sha, leaves);
      t := CrlMerkleTree(leaves, layers.value);
    }

    method GetRoot(ghost sha: Sha) returns (root: Hash)
      requires WellFormed(sha)
      ensures root == Root(sha, Positional, leaves)
    {
      LastRowIsRoot(sha, Positional, leaves);
      root := layers[|layers| - 1][0];
    }

    method IsRevoked(sha: Sha, serial: Bytes) returns (revoked: bool)
      requires WellFormed(sha)
      ensures revoked <==> sha(serial) in leaves
    {
      var p := BinarySearch(leaves, sha(serial));
      return p.Found?;
    }

    method MerkleProof(ghost sha: Sha, leafIndex: nat) returns (path: seq<Hash>, dirs: seq<bool>)
      requires WellFormed(sha) && leafIndex < |leaves|
      ensures path == HonestPath(sha, Positional, leaves, leafIndex)
      ensures dirs == HonestDirs(Depth(|leaves|), leafIndex)
    {
      TreeRows(sha, Positional, leaves, layers, leafIndex);
      path, dirs := WalkUp(layers, leafIndex);
    }

    /** Fails exactly for revoked serials (and, in a tree without the minimum sentinel,
        for keys below every leaf); otherwise gives the honest proof around the key. */
    method ProveNonInclusion(sha: Sha, serial: Bytes) returns (r: Result<NonInclusionProof, TreeError>)
      requires WellFormed(sha)
      ensures r == Err(Revoked) <==> sha(serial) in leaves
      ensures r == Err(MissingMinSentinel) <==> Less(sha(serial), leaves[0])
      ensures r.Err? ==> r.error != EmptyLeaves
      ensures r.Ok? ==>
                && BelongsAt(leaves, sha(serial), r.value.rightIndex)
                && r.value == ProofAt(sha, leaves, r.value.rightIndex - 1, r.value.rightIndex,
                                      r.value.rightIndex - 1, r.value.rightIndex)
    {
      var key := sha(serial);
      var p := BinarySearch(leaves, key);
      if p.Found? {
        NotBelowFirst(leaves, p.index);
        return Err(Revoked);
      }
      if p.index == 0 {
        return Err(MissingMinSentinel);
      }
      InsertionPlace(leaves, key, p.index);
      var proof := ProofFrom(sha, p.index - 1, p.index);
      return Ok(proof);
    }

    /** The last part of `prove_non_inclusion`: two leaves and their paths. */
    method ProofFrom(ghost sha: Sha, left: nat, right: nat) returns (proof: NonInclusionProof)
      requires WellFormed(sha) && left < |leaves| && right < |leaves|
      ensures proof == ProofAt(sha, leaves, left, right, left, right)
    {
      var leftPath, leftDirs := MerkleProof(sha, left);
      var rightPath, rightDirs := MerkleProof(sha, right);
      return NonInclusionProof(leaves[left], leaves[right], leftPath, leftDirs, rightPath, rightDirs, left, right);
    }
  }

  /** Where a key belongs behind the first leaf, it belongs between two leaves. */
  lemma InsertionPlace(leaves: seq<Hash>, key: Hash, pos: nat)
    requires leaves != [] && leaves[|leaves| - 1] == MAX_SENTINEL && 0 < pos <= |leaves|
    requires forall k | 0 <= k < pos :: Less(leaves[k], key)
    requires forall k | pos <= k < |leaves| :: Less(key, leaves[k])
    ensures BelongsAt(leaves, key, pos) && !Less(key, leaves[0])
  {
    LessAsymmetric(leaves[0], key);
    OnesGreatest(32, key);
  }

  lemma NotBelowFirst(s: seq<Hash>, k: nat)
    requires StrictlyAscending(s) && k < |s|
    ensures !Less(s[k], s[0])
  {
    if k == 0 {
      LessIrreflexive(s[0]);
    } else {
      LessAsymmetric(s[0], s[k]);
    }
  }

  // ---------------------------------------------------------------- the verifier

  method ComputeRoot(sha: Sha, leaf: Hash, path: seq<Hash>, dirs: seq<bool>) returns (current: Hash)
    ensures current == Climb(sha, Positional, leaf, path, dirs)
  {
    current := leaf;
    var k := 0;
    while k < |path| && k < |dirs|
      invariant k <= |path| && k <= |dirs|
      invariant Climb(sha, Positional, current, path[k..], dirs[k..]) == Climb(sha, Positional, leaf, path, dirs)
    {
      if dirs[k] {
        current := sha(Append(current, path[k]));
      } else {
        current := sha(Append(path[k], current));
      }
      k := k + 1;
    }
  }

  method VerifyNonInclusion(sha: Sha, serial: Bytes, proof: NonInclusionProof, expectedRoot: Hash)
    returns (ok: bool)
    ensures ok <==> Accepts(sha, sha(serial), proof, expectedRoot, U64)
  {
    var key := sha(serial);
    if !Less(proof.leftLeaf, key) || !Less(key, proof.rightLeaf) {
      return false;
    }
    if proof.rightIndex != Cut(U64, proof.leftIndex + 1) {
      return false;
    }
    var leftRoot := ComputeRoot(sha, proof.leftLeaf, proof.leftPath, proof.leftDirs);
    if leftRoot != expectedRoot {
      return false;
    }
    var rightRoot := ComputeRoot(sha, proof.rightLeaf, proof.rightPath, proof.rightDirs);
    if rightRoot != expectedRoot {
      return false;
    }
    return true;
  }

  // ---------------------------------------------------------------- completeness

  lemma HonestClimb(sha: Sha, leaves: seq<Hash>, i: nat)
    requires i < |leaves|
    ensures Climb(sha, Positional, leaves[i], HonestPath(sha, Positional, leaves, i), HonestDirs(Depth(|leaves|), i))
         == Root(sha, Positional, leaves)
  {
    RealOfReal(|leaves|, i);
    HonestPathClimbs(sha, Positional, leaves, i);
  }

  /** Two paths to the root under consecutive indices are accepted for the keys between their ends. */
  lemma AcceptsExactly(sha: Sha, key: Hash, proof: NonInclusionProof, root: Hash, width: nat, next: nat)
    requires width > 0 && next == Cut(width, proof.leftIndex + 1) && proof.rightIndex == next
    requires Climb(sha, Positional, proof.leftLeaf, proof.leftPath, proof.leftDirs) == root
    requires Climb(sha, Positional, proof.rightLeaf, proof.rightPath, proof.rightDirs) == root
    ensures Accepts(sha, key, proof, root, width) <==> Less(proof.leftLeaf, key) && Less(key, proof.rightLeaf)
  {
  }

  /** So honest paths from two leaves are accepted for exactly the keys between these. */
  lemma ProofAtAccepted(sha: Sha, leaves: seq<Hash>, key: Hash, i: nat, j: nat, l: nat, r: nat, width: nat)
    requires i < |leaves| && j < |leaves|
    requires width > 0 && r == Cut(width, l + 1)
    ensures Accepts(sha, key, ProofAt(sha, leaves, i, j, l, r), Root(sha, Positional, leaves), width)
        <==> Less(leaves[i], key) && Less(key, leaves[j])
  {
    var p := ProofAt(sha, leaves, i, j, l, r);
    ProofAtClimbs(sha, leaves, i, j, l, r, p);
    AcceptsExactly(sha, key, p, Root(sha, Positional, leaves), width, r);
  }

  lemma ProofAtClimbs(sha: Sha, leaves: seq<Hash>, i: nat, j: nat, l: nat, r: nat, p: NonInclusionProof)
    requires i < |leaves| && j < |leaves| && p == ProofAt(sha, leaves, i, j, l, r)
    ensures Climb(sha, Positional, p.leftLeaf, p.leftPath, p.leftDirs) == Root(sha, Positional, leaves)
    ensures Climb(sha, Positional, p.rightLeaf, p.rightPath, p.rightDirs) == Root(sha, Positional, leaves)
  {
    HonestClimb(sha, leaves, i);
    HonestClimb(sha, leaves, j);
  }

  /** `key` belongs strictly between leaves `pos - 1` and `pos`. */
  predicate BelongsAt(leaves: seq<Hash>, key: Hash, pos: nat) {
    1 <= pos < |leaves| && Less(leaves[pos - 1], key) && Less(key, leaves[pos])
  }

  /** The sentinels force every absent key strictly inside the leaf row; a leaf has no such place. */
  lemma PlaceIffAbsent(leaves: seq<Hash>, key: Hash)
    requires StrictlyAscending(leaves) && |leaves| >= 2
    requires leaves[0] == MIN_SENTINEL && leaves[|leaves| - 1] == MAX_SENTINEL
    ensures key !in leaves <==> exists pos :: BelongsAt(leaves, key, pos)
  {
    if key !in leaves {
      var pos := PlaceOf(leaves, key);
    } else {
      var k :| 0 <= k < |leaves| && leaves[k] == key;
      forall pos: nat ensures !BelongsAt(leaves, key, pos) {
        if BelongsAt(leaves, key, pos) {
          BetweenNeighbours(leaves, pos - 1, pos, k);
        }
      }
    }
  }

  lemma PlaceOf(leaves: seq<Hash>, key: Hash) returns (pos: nat)
    requires |leaves| >= 2 && key !in leaves
    requires leaves[0] == MIN_SENTINEL && leaves[|leaves| - 1] == MAX_SENTINEL
    ensures BelongsAt(leaves, key, pos)
  {
    ZerosLeast(32, key);
    LessTotal(leaves[0], key);
    OnesGreatest(32, key);
    LessTotal(leaves[|leaves| - 1], key);
    pos := 1;
    while !Less(key, leaves[pos])
      invariant 1 <= pos < |leaves| && Less(leaves[pos - 1], key)
      decreases |leaves| - pos
    {
      LessTotal(leaves[pos], key);
      pos := pos + 1;
    }
  }

  /** The serials without a proof are exactly those whose digest is a leaf. */
  lemma ProvableIffNotRevoked(sha: Sha, serials: seq<Bytes>, serial: Bytes)
    ensures sha(serial) !in Leaves(sha, serials) <==> exists pos :: BelongsAt(Leaves(sha, serials), sha(serial), pos)
  {
    LeavesSpec(sha, serials);
    PlaceIffAbsent(Leaves(sha, serials), sha(serial));
  }

  /** The proof made at the key's place is accepted, on the host (`width` 2^64) and, its indices
      cut down to `u32`, in the guest (`width` 2^32). */
  lemma HonestProofAccepted(sha: Sha, leaves: seq<Hash>, key: Hash, pos: nat, width: nat)
    requires width > 0 && BelongsAt(leaves, key, pos)
    ensures Accepts(sha, key, ProofAt(sha, leaves, pos - 1, pos, Cut(width, pos - 1), Cut(width, pos)),
                    Root(sha, Positional, leaves), width)
  {
    var left, l, r := pos - 1, Cut(width, pos - 1), Cut(width, pos);
    CutSuccessor(width, left);
    ProofAtAccepted(sha, leaves, key, left, pos, l, r, width);
  }

  /** A leaf strictly between two others stands strictly between them. */
  lemma BetweenNeighbours(s: seq<Hash>, a: nat, b: nat, k: nat)
    requires StrictlyAscending(s) && a < |s| && b < |s| && k < |s|
    requires Less(s[a], s[k]) && Less(s[k], s[b])
    ensures a < k < b
  {
    LessIrreflexive(s[k]);
    if k < a {
      LessAsymmetric(s[k], s[a]);
    }
    if b < k {
      LessAsymmetric(s[b], s[k]);
    }
  }

  // ---------------------------------------------------------------- soundness

  /** Only the steps that `zip` makes matter. */
  lemma {:induction false} ClimbZips(sha: Sha, leaf: Hash, path: seq<Hash>, dirs: seq<bool>)
    ensures var k := Steps(path, dirs);
            && Climb(sha, Positional, leaf, path[..k], dirs[..k]) == Climb(sha, Positional, leaf, path, dirs)
            && ClimbInputs(sha, Positional, leaf, path[..k], dirs[..k]) == ClimbInputs(sha, Positional, leaf, path, dirs)
    decreases |path|
  {
    if path != [] && dirs != [] {
      var k := Steps(path, dirs);
      ClimbZips(sha, sha(StepInput(Positional, leaf, path[0], dirs[0])), path[1..], dirs[1..]);
      assert path[..k][1..] == path[1..][..k - 1];
      assert dirs[..k][1..] == dirs[1..][..k - 1];
    }
  }

  /** A path of tree depth starts at the leaf its direction bits point to. */
  lemma PathStartsAtLeaf(sha: Sha, leaves: seq<Hash>, leaf: Hash, path: seq<Hash>, dirs: seq<bool>)
    requires leaves != [] && Steps(path, dirs) == Depth(|leaves|)
    requires CollisionFree(sha, TreeInputs(sha, Positional, leaves) + ClimbInputs(sha, Positional, leaf, path, dirs))
    requires Climb(sha, Positional, leaf, path, dirs) == Root(sha, Positional, leaves)
    ensures leaf == leaves[Real(|leaves|, Spell(dirs[..Depth(|leaves|)]))]
  {
    var k := Steps(path, dirs);
    ClimbZips(sha, leaf, path, dirs);
    ClimbBinds(sha, leaves, leaf, path[..k], dirs[..k]);
  }

  lemma AcceptedLeaves(sha: Sha, leaves: seq<Hash>, key: Hash, proof: NonInclusionProof, i: nat, j: nat, width: nat)
    requires width > 0
    requires leaves != [] && SpellsPositions(proof, |leaves|, i, j)
    requires CollisionFree(sha, HashedInputs(sha, leaves, proof))
    requires Accepts(sha, key, proof, Root(sha, Positional, leaves), width)
    ensures proof.leftLeaf == leaves[Real(|leaves|, i)]
    ensures proof.rightLeaf == leaves[Real(|leaves|, j)]
  {
    PathStartsAtLeaf(sha, leaves, proof.leftLeaf, proof.leftPath, proof.leftDirs);
    PathStartsAtLeaf(sha, leaves, proof.rightLeaf, proof.rightPath, proof.rightDirs);
  }

  lemma NoLeafInGap(leaves: seq<Hash>, key: Hash, a: nat, b: nat)
    requires StrictlyAscending(leaves) && a < |leaves| && b < |leaves| && b <= a + 1
    requires Less(leaves[a], key) && Less(key, leaves[b])
    ensures key !in leaves
  {
    if key in leaves {
      var k :| 0 <= k < |leaves| && leaves[k] == key;
      BetweenNeighbours(leaves, a, b, k);
    }
  }

  /** No leaf lies between the leaves at two adjacent positions, wrapped indices included. */
  lemma NoLeafBetween(leaves: seq<Hash>, key: Hash, i: nat, j: nat, width: nat)
    requires width > 0
    requires StrictlyAscending(leaves) && leaves != []
    requires i < width && j == Cut(width, i + 1)
    requires Less(leaves[Real(|leaves|, i)], key) && Less(key, leaves[Real(|leaves|, j)])
    ensures key !in leaves
  {
    SuccessorCases(width, i);
    if j == i + 1 {
      RealSuccessor(|leaves|, i);
    } else {
      RealZero(|leaves|);
    }
    NoLeafInGap(leaves, key, Real(|leaves|, i), Real(|leaves|, j));
  }

  /** Absence is sound under a hypothesis that the verifiers do not check: the paths have tree
      depth and the direction bits spell the claimed indices. In all else the proof may be
      dishonest, and index arithmetic may wrap. (Without it: module CrlPaths.) */
  lemma AcceptedMeansAbsent(sha: Sha, serials: seq<Bytes>, serial: Bytes, proof: NonInclusionProof, width: nat)
    requires proof.leftIndex < width
    requires SpellsPositions(proof, |Leaves(sha, serials)|, proof.leftIndex, proof.rightIndex)
    requires CollisionFree(sha, HashedInputs(sha, Leaves(sha, serials), proof))
    requires Accepts(sha, sha(serial), proof, CrlRoot(sha, serials), width)
    ensures sha(serial) !in Leaves(sha, serials)
    ensures serial !in serials
  {
    LeavesSpec(sha, serials);
    AcceptedLeaves(sha, Leaves(sha, serials), sha(serial), proof, proof.leftIndex, proof.rightIndex, width);
    NoLeafBetween(Leaves(sha, serials), sha(serial), proof.leftIndex, proof.rightIndex, width);
    assert serial in serials ==> sha(serial) in Members(Leaves(sha, serials));
  }

  // ---------------------------------------------------------------- exactly when it is sound

  /** No revoked serial has an accepted proof whose direction bits spell positions `i` and `j`,
      whatever indices the proof claims. */
  ghost predicate AbsenceGuaranteed(sha: Sha, serials: seq<Bytes>, i: nat, j: nat, width: nat)
    requires width > 0
  {
    forall serial, proof: NonInclusionProof |
      && SpellsPositions(proof, |Leaves(sha, serials)|, i, j)
      && CollisionFree(sha, HashedInputs(sha, Leaves(sha, serials), proof))
      && Accepts(sha, sha(serial), proof, CrlRoot(sha, serials), width)
      :: serial !in serials
  }

  /** The verifiers compare claimed indices only. Among paths of tree depth, acceptance means
      absence exactly for those pairs of spelled positions whose real leaves leave no room between
      them. */
  lemma AbsenceExactlyForAdjacentPositions(sha: Sha, serials: seq<Bytes>, i: nat, j: nat, width: nat)
    requires width > 1
    requires i < Pow2(Depth(|Leaves(sha, serials)|)) && j < Pow2(Depth(|Leaves(sha, serials)|))
    requires CollisionFree(sha, TreeInputs(sha, Positional, Leaves(sha, serials)))
    ensures AbsenceGuaranteed(sha, serials, i, j, width)
        <==> Real(|Leaves(sha, serials)|, j) <= Real(|Leaves(sha, serials)|, i) + 1
  {
    LeavesSpec(sha, serials);
    if Real(|Leaves(sha, serials)|, j) <= Real(|Leaves(sha, serials)|, i) + 1 {
      forall serial, proof: NonInclusionProof |
        && SpellsPositions(proof, |Leaves(sha, serials)|, i, j)
        && CollisionFree(sha, HashedInputs(sha, Leaves(sha, serials), proof))
        && Accepts(sha, sha(serial), proof, CrlRoot(sha, serials), width)
        ensures serial !in serials
      {
        AcceptedLeaves(sha, Leaves(sha, serials), sha(serial), proof, i, j, width);
        NoLeafInGap(Leaves(sha, serials), sha(serial), Real(|Leaves(sha, serials)|, i), Real(|Leaves(sha, serials)|, j));
        assert serial in serials ==> sha(serial) in Members(Leaves(sha, serials));
      }
    } else {
      var serial := SerialOfInnerLeaf(sha, serials, Leaves(sha, serials), Real(|Leaves(sha, serials)|, i) + 1);
      var proof := PaddedProof(sha, Leaves(sha, serials), i, j, sha(serial), width);
    }
  }

  /** A leaf between the sentinels is the digest of a revoked serial. */
  lemma SerialOfInnerLeaf(sha: Sha, serials: seq<Bytes>, leaves: seq<Hash>, k: nat) returns (serial: Bytes)
    requires leaves == Leaves(sha, serials) && 1 <= k < |leaves| - 1
    ensures serial in serials && sha(serial) == leaves[k]
  {
    LeafIffInSet(sha, serials, leaves[k]);
    assert leaves[k] != MIN_SENTINEL && leaves[k] != MAX_SENTINEL by {
      LeavesSpec(sha, serials);
      InnerIsNoEnd(leaves, k, MIN_SENTINEL, MAX_SENTINEL);
    }
    serial := SerialOfDigest(sha, serials, leaves[k]);
  }

  lemma SerialOfDigest(sha: Sha, serials: seq<Bytes>, h: Hash) returns (serial: Bytes)
    requires h in LeafSet(sha, serials) && h != MIN_SENTINEL && h != MAX_SENTINEL
    ensures serial in serials && sha(serial) == h
  {
    serial :| serial in serials && sha(serial) == h;
  }

  lemma InnerIsNoEnd(leaves: seq<Hash>, k: nat, first: Hash, last: Hash)
    requires StrictlyAscending(leaves) && 1 <= k < |leaves| - 1
    requires leaves[0] == first && leaves[|leaves| - 1] == last
    ensures leaves[k] != first && leaves[k] != last
  {
    assert Less(leaves[0], leaves[k]) && Less(leaves[k], leaves[|leaves| - 1]);
    LessIrreflexive(leaves[k]);
  }

  /** The honest path from padded position `i`, as one side of a proof. */
  lemma PaddedSide(sha: Sha, leaves: seq<Hash>, i: nat, d: nat) returns (path: seq<Hash>, dirs: seq<bool>)
    requires leaves != [] && d == Depth(|leaves|) && i < Pow2(d)
    ensures Steps(path, dirs) == d && |dirs| == d && Spell(dirs) == i
    ensures Climb(sha, Positional, leaves[Real(|leaves|, i)], path, dirs) == Root(sha, Positional, leaves)
    ensures ClimbInputs(sha, Positional, leaves[Real(|leaves|, i)], path, dirs) <= TreeInputs(sha, Positional, leaves)
  {
    path, dirs := HonestPath(sha, Positional, leaves, i), HonestDirs(d, i);
    HonestPathClimbs(sha, Positional, leaves, i);
    SpellHonestDirs(d, i);
  }

  /** The honest paths from two padded positions are accepted for any key between their leaves. */
  lemma PaddedProof(sha: Sha, leaves: seq<Hash>, i: nat, j: nat, key: Hash, width: nat) returns (p: NonInclusionProof)
    requires leaves != [] && width > 1
    requires i < Pow2(Depth(|leaves|)) && j < Pow2(Depth(|leaves|))
    requires Less(leaves[Real(|leaves|, i)], key) && Less(key, leaves[Real(|leaves|, j)])
    ensures SpellsPositions(p, |leaves|, i, j)
    ensures HashedInputs(sha, leaves, p) == TreeInputs(sha, Positional, leaves)
    ensures Accepts(sha, key, p, Root(sha, Positional, leaves), width)
  {
    var d := Depth(|leaves|);
    var leftPath, leftDirs := PaddedSide(sha, leaves, i, d);
    var rightPath, rightDirs := PaddedSide(sha, leaves, j, d);
    p := NonInclusionProof(leaves[Real(|leaves|, i)], leaves[Real(|leaves|, j)],
                           leftPath, leftDirs, rightPath, rightDirs, 0, 1);
    AcceptsExactly(sha, key, p, Root(sha, Positional, leaves), width, 1);
    assert leftDirs[..d] == leftDirs && rightDirs[..d] == rightDirs;
  }

  /** The sentinels in octets. */
  lemma SentinelsExactly(i: nat)
    requires i < 32
    ensures MIN_SENTINEL[i] == 0 && MAX_SENTINEL[i] == 0xff
  {
  }
}
