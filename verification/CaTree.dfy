/** The Merkle tree of allowed CA keys. Sorted-pair hashing makes directions unnecessary,
    so a proof is a list of siblings alone. */
module CaTree {
  import opened Outcomes
  import opened Octets
  import opened MerkleRows

  datatype TreeError = EmptyLeaves | IndexOutOfRange

  // ---------------------------------------------------------------- specification

  /** Recompute a root from a node and its siblings. */
  function Fold(sha: Sha, node: Hash, path: seq<Hash>): Hash
    decreases |path|
  {
    if |path| == 0 then node else Fold(sha, Node(sha, SortedPair, node, path[0]), path[1..])
  }

  /** Everything hashed by `Fold`. */
  ghost function FoldInputs(sha: Sha, node: Hash, path: seq<Hash>): set<Bytes>
    decreases |path|
  {
    if |path| == 0 then {}
    else {Preimage(SortedPair, node, path[0])} + FoldInputs(sha, Node(sha, SortedPair, node, path[0]), path[1..])
  }

  function KeyLeaves(sha: Sha, keys: seq<Bytes>): (leaves: seq<Hash>)
    ensures |leaves| == |keys|
    ensures forall i | 0 <= i < |keys| :: leaves[i] == sha(keys[i])
  {
    seq(|keys|, i requires 0 <= i < |keys| => sha(keys[i]))
  }

  // ---------------------------------------------------------------- host code

  method HashPair(sha: Sha, a: Hash, b: Hash) returns (h: Hash)
    ensures h == Node(sha, SortedPair, a, b)
  {
    var hasher: Bytes;
    if !Less(b, a) {
      hasher := a;
      hasher := hasher + b;
    } else {
      hasher := b;
      hasher := hasher + a;
    }
    return sha(hasher);
  }

  method BuildNextLayer(sha: Sha, current: seq<Hash>) returns (next: seq<Hash>)
    ensures next == NextRow(sha, SortedPair, current)
  {
    next := [];
    var i := 0;
    while i < |current|
      invariant i == 2 * |next| && |next| <= (|current| + 1) / 2
      invariant forall q | 0 <= q < |next| :: next[q] == NextRow(sha, SortedPair, current)[q]
    {
      var node: Hash;
      if i + 1 < |current| {
        node := HashPair(sha, current[i], current[i + 1]);
      } else {
        node := HashPair(sha, current[i], current[i]);
      }
      next := next + [node];
      i := i + 2;
    }
  }

  method BuildTree(sha: Sha, leaves: seq<Hash>) returns (r: Result<seq<seq<Hash>>, TreeError>)
    ensures leaves == [] ==> r == Err(EmptyLeaves)
    ensures leaves != [] ==> r == Ok(Rows(sha, SortedPair, leaves))
  {
    if leaves == [] {
      return Err(EmptyLeaves);
    }
    var layers := [leaves];
    ghost var above: seq<seq<Hash>> := [];
    while |layers[|layers| - 1]| > 1
      invariant layers != [] && layers[|layers| - 1] != []
      invariant layers == above + [layers[|layers| - 1]]
      invariant above + Rows(sha, SortedPair, layers[|layers| - 1]) == Rows(sha, SortedPair, leaves)
      decreases |layers[|layers| - 1]|
    {
      var current := layers[|layers| - 1];
      var next := BuildNextLayer(sha, current);
      assert above + Rows(sha, SortedPair, current) == (above + [current]) + Rows(sha, SortedPair, next);
      above := layers;
      layers := layers + [next];
    }
    return Ok(layers);
  }

  method ExtractProofFromLayers(layers: seq<seq<Hash>>, leafIndex: nat) returns (path: seq<Hash>)
    requires layers != [] && Halving(layers) && leafIndex < |layers[0]|
    ensures path == PathInRows(layers, 0, leafIndex)
  {
    path := [];
    var idx: nat := leafIndex;
    for k := 0 to |layers| - 1
      invariant idx < |layers[k]|
      invariant path + PathInRows(layers, k, idx) == PathInRows(layers, 0, leafIndex)
    {
      var layer := layers[k];
      var siblingIdx := if idx % 2 == 0 then idx + 1 else idx - 1;
      var sibling := if siblingIdx < |layer| then layer[siblingIdx] else layer[idx];
      PathInRowsStep(layers, k, idx, path, sibling);
      path := path + [sibling];
      idx := idx / 2;
    }
  }

  method MerkleRootAndProof(sha: Sha, leaves: seq<Hash>, leafIndex: nat)
    returns (r: Result<(Hash, seq<Hash>), TreeError>)
    ensures leaves == [] ==> r == Err(EmptyLeaves)
    ensures leaves != [] && leafIndex >= |leaves| ==> r == Err(IndexOutOfRange)
    ensures leafIndex < |leaves| ==>
              r == Ok((Root(sha, SortedPair, leaves), HonestPath(sha, SortedPair, leaves, leafIndex)))
  {
    var layers := BuildTree(sha, leaves);
    if layers.Err? {
      return Err(layers.error);
    }
    if leafIndex >= |leaves| {
      return Err(IndexOutOfRange);
    }
    LastRowIsRoot(sha, SortedPair, leaves);
    TreeRows(sha, SortedPair, leaves, layers.value, leafIndex);
    var root := layers.value[|layers.value| - 1][0];
    var path := ExtractProofFromLayers(layers.value, leafIndex);
    return Ok((root, path));
  }

  /** The leaf of the CA key, with the root and path of the tree where it stands first. */
  method CaMerkleTree(sha: Sha, caPubKey: Bytes, extraCaHashes: seq<Hash>)
    returns (leaf: Hash, root: Hash, path: seq<Hash>)
    ensures leaf == sha(caPubKey)
    ensures root == Root(sha, SortedPair, [leaf] + extraCaHashes)
    ensures path == HonestPath(sha, SortedPair, [leaf] + extraCaHashes, 0)
    ensures extraCaHashes == [] ==> root == leaf && path == []
  {
    leaf := sha(caPubKey);
    var leaves := [leaf];
    leaves := leaves + extraCaHashes;
    var r := MerkleRootAndProof(sha, leaves, 0);
    root, path := r.value.0, r.value.1;
  }

  /** `position`: the first place of a leaf. */
  method PositionOf(leaves: seq<Hash>, leaf: Hash) returns (k: Option<nat>)
    ensures k.Some? <==> leaf in leaves
    ensures k.Some? ==> k.value < |leaves| && leaves[k.value] == leaf && leaf !in leaves[..k.value]
  {
    for i := 0 to |leaves|
      invariant leaf !in leaves[..i]
    {
      if leaves[i] == leaf {
        return Some(i);
      }
    }
    return None;
  }

  /** The tree over the CA list of the registry, which may not have been fetched: with the path of the
      first place of the CA's key, if the list has it, and otherwise the tree of that key alone. */
  method BuildCaMerkle(sha: Sha, fetched: Option<seq<Hash>>, caPubKey: Bytes) returns (root: Hash, path: seq<Hash>)
    ensures fetched.Some? && sha(caPubKey) in fetched.value ==>
              && root == Root(sha, SortedPair, fetched.value)
              && exists i: nat :: i < |fetched.value| && fetched.value[i] == sha(caPubKey)
                                  && sha(caPubKey) !in fetched.value[..i]
                                  && path == HonestPath(sha, SortedPair, fetched.value, i)
    ensures fetched.None? || sha(caPubKey) !in fetched.value ==> root == sha(caPubKey) && path == []
    ensures Fold(sha, sha(caPubKey), path) == root
  {
    var leaf := sha(caPubKey);
    if fetched.Some? {
      var index := PositionOf(fetched.value, leaf);
      if index.Some? {
        var r := MerkleRootAndProof(sha, fetched.value, index.value);
        HonestPathVerifies(sha, fetched.value, index.value);
        return r.value.0, r.value.1;
      }
    }
    leaf, root, path := CaMerkleTree(sha, caPubKey, []);
  }

  method VerifyProof(sha: Sha, leaf: Hash, path: seq<Hash>, expectedRoot: Hash) returns (ok: bool)
    ensures ok <==> Fold(sha, leaf, path) == expectedRoot
  {
    var current := leaf;
    for k := 0 to |path|
      invariant Fold(sha, current, path[k..]) == Fold(sha, leaf, path)
    {
      current := HashPair(sha, current, path[k]);
    }
    return current == expectedRoot;
  }

  // ---------------------------------------------------------------- completeness

  /** Sorted-pair hashing makes the direction bits irrelevant. */
  lemma {:induction false} FoldIsClimb(sha: Sha, node: Hash, path: seq<Hash>, dirs: seq<bool>)
    requires |path| == |dirs|
    ensures Fold(sha, node, path) == Climb(sha, SortedPair, node, path, dirs)
    ensures FoldInputs(sha, node, path) == ClimbInputs(sha, SortedPair, node, path, dirs)
    decreases |path|
  {
    if path != [] {
      SortedPairCommutes(node, path[0]);
      FoldIsClimb(sha, Node(sha, SortedPair, node, path[0]), path[1..], dirs[1..]);
    }
  }

  /** The extracted path verifies for every leaf, and checking it hashes nothing beyond the tree. */
  lemma HonestPathVerifies(sha: Sha, leaves: seq<Hash>, i: nat)
    requires i < |leaves|
    ensures Fold(sha, leaves[i], HonestPath(sha, SortedPair, leaves, i)) == Root(sha, SortedPair, leaves)
    ensures FoldInputs(sha, leaves[i], HonestPath(sha, SortedPair, leaves, i)) <= TreeInputs(sha, SortedPair, leaves)
  {
    RealOfReal(|leaves|, i);
    HonestPathClimbs(sha, SortedPair, leaves, i);
    FoldIsClimb(sha, leaves[i], HonestPath(sha, SortedPair, leaves, i), HonestDirs(Depth(|leaves|), i));
  }

  /** Its length is the least d with n <= 2^d. */
  lemma HonestPathLength(sha: Sha, leaves: seq<Hash>, i: nat, d: nat)
    requires i < |leaves|
    ensures |leaves| <= Pow2(d) <==> |HonestPath(sha, SortedPair, leaves, i)| <= d
  {
    DepthIsLeast(|leaves|, d);
  }

  // ---------------------------------------------------------------- binding

  /** `leaf` stands at a padded position whose honest path is `path`. */
  ghost predicate IsHonestPath(sha: Sha, leaves: seq<Hash>, leaf: Hash, path: seq<Hash>)
    requires leaves != []
  {
    exists i: nat :: leaf == leaves[Real(|leaves|, i)] && path == HonestPath(sha, SortedPair, leaves, i)
  }

  lemma {:induction false} FoldBinds(sha: Sha, row: seq<Hash>, leaf: Hash, path: seq<Hash>) returns (i: nat)
    requires row != [] && |path| == Depth(|row|)
    requires CollisionFree(sha, TreeInputs(sha, SortedPair, row) + FoldInputs(sha, leaf, path))
    requires Fold(sha, leaf, path) == Root(sha, SortedPair, row)
    ensures leaf == row[Real(|row|, i)]
    ensures path == HonestPath(sha, SortedPair, row, i)
    decreases |row|
  {
    if |row| == 1 {
      i := 0;
    } else {
      var next := NextRow(sha, SortedPair, row);
      var p := Preimage(SortedPair, leaf, path[0]);
      var half := FoldBinds(sha, next, sha(p), path[1..]);
      var q := Real(|next|, half);
      var l, r := row[2 * q], row[RightChild(|row|, q)];
      NodeBinds(sha, SortedPair, row, q, p, TreeInputs(sha, SortedPair, row) + FoldInputs(sha, leaf, path));
      SortedPairSplit(leaf, path[0], l, r);
      var isLeft := leaf == l && path[0] == r;
      HonestAt(sha, SortedPair, row, half, isLeft);
      i := Child(half, isLeft);
      assert path == [path[0]] + path[1..];
    }
  }

  /** A path of tree depth reaches the root exactly when it is the honest path of a position
      of the padded row and starts at the leaf standing there. */
  lemma PathIffHonest(sha: Sha, leaves: seq<Hash>, leaf: Hash, path: seq<Hash>)
    requires leaves != [] && |path| == Depth(|leaves|)
    requires CollisionFree(sha, TreeInputs(sha, SortedPair, leaves) + FoldInputs(sha, leaf, path))
    ensures Fold(sha, leaf, path) == Root(sha, SortedPair, leaves) <==> IsHonestPath(sha, leaves, leaf, path)
    ensures Fold(sha, leaf, path) == Root(sha, SortedPair, leaves) ==> leaf in leaves
  {
    if Fold(sha, leaf, path) == Root(sha, SortedPair, leaves) {
      var i := FoldBinds(sha, leaves, leaf, path);
    }
    if IsHonestPath(sha, leaves, leaf, path) {
      var i: nat :| leaf == leaves[Real(|leaves|, i)] && path == HonestPath(sha, SortedPair, leaves, i);
      HonestPathClimbs(sha, SortedPair, leaves, i);
      FoldIsClimb(sha, leaf, path, HonestDirs(Depth(|leaves|), i));
    }
  }

  // ---------------------------------------------------------------- keys, any path length

  /** A path too short to reach the leaves starts at a digest of two nodes. */
  lemma {:induction false} ShortPathStartsInside(sha: Sha, row: seq<Hash>, node: Hash, path: seq<Hash>)
    requires row != [] && |path| < Depth(|row|)
    requires CollisionFree(sha, TreeInputs(sha, SortedPair, row) + FoldInputs(sha, node, path))
    requires Fold(sha, node, path) == Root(sha, SortedPair, row)
    ensures IsNodeDigest(sha, TreeInputs(sha, SortedPair, row), node)
    decreases |row|
  {
    var next := NextRow(sha, SortedPair, row);
    if |path| == Depth(|next|) {
      var i := FoldBinds(sha, next, node, path);
      NextNodeIsHashed(sha, SortedPair, row, Real(|next|, i));
    } else {
      ShortPathStartsInside(sha, next, node, path);
    }
  }

  /** A path longer than the tree is deep reaches a leaf after at least one hash. */
  lemma {:induction false} LongPathHashesToLeaf(sha: Sha, row: seq<Hash>, node: Hash, path: seq<Hash>)
    requires row != [] && |path| > Depth(|row|)
    requires CollisionFree(sha, TreeInputs(sha, SortedPair, row) + FoldInputs(sha, node, path))
    requires Fold(sha, node, path) == Root(sha, SortedPair, row)
    ensures exists h :: h in row && IsNodeDigest(sha, FoldInputs(sha, node, path), h)
    decreases |path|
  {
    var p := Preimage(SortedPair, node, path[0]);
    assert p in FoldInputs(sha, node, path);
    if |path| == Depth(|row|) + 1 {
      var i := FoldBinds(sha, row, sha(p), path[1..]);
      assert IsNodeDigest(sha, FoldInputs(sha, node, path), sha(p));
    } else {
      LongPathHashesToLeaf(sha, row, sha(p), path[1..]);
      var h :| h in row && IsNodeDigest(sha, FoldInputs(sha, sha(p), path[1..]), h);
      assert IsNodeDigest(sha, FoldInputs(sha, node, path), h);
    }
  }

  /** Everything hashed: the keys, the tree over them, the presented key and its path. */
  ghost function MembershipInputs(sha: Sha, keys: seq<Bytes>, key: Bytes, path: seq<Hash>): set<Bytes>
    requires keys != []
  {
    (set k | k in keys) + {key}
    + TreeInputs(sha, SortedPair, KeyLeaves(sha, keys)) + FoldInputs(sha, sha(key), path)
  }

  /** No public key has the length of two hashes. (A P-256 key takes 91 bytes in DER, a P-384
      key 120, and RSA keys of the usual sizes more than 150.) */
  ghost predicate NotNodeSized(keys: seq<Bytes>) {
    forall k {:trigger k in keys} | k in keys :: |k| != 64
  }

  /** Checking an honest path hashes nothing beyond the keys and the tree, so for honest paths the
      assumption of the next theorem is one about the tree alone. */
  lemma HonestPathHashesNothingNew(sha: Sha, keys: seq<Bytes>, i: nat)
    requires i < |keys|
    ensures MembershipInputs(sha, keys, keys[i], HonestPath(sha, SortedPair, KeyLeaves(sha, keys), i))
         == (set k | k in keys) + TreeInputs(sha, SortedPair, KeyLeaves(sha, keys))
  {
    HonestPathVerifies(sha, KeyLeaves(sha, keys), i);
  }

  lemma NoNodeDigestIsKey(sha: Sha, inputs: set<Bytes>, nodes: set<Bytes>, key: Bytes)
    requires CollisionFree(sha, inputs) && nodes <= inputs && key in inputs && |key| != 64
    ensures !IsNodeDigest(sha, nodes, sha(key))
  {
  }

  /** Everything hashed for the tree is the pair of two nodes. */
  lemma {:induction false} TreeInputIsPair(sha: Sha, row: seq<Hash>, p: Bytes)
    requires row != [] && p in TreeInputs(sha, SortedPair, row)
    ensures |p| == 64
    decreases |row|
  {
    if p !in RowInputs(SortedPair, row) {
      TreeInputIsPair(sha, NextRow(sha, SortedPair, row), p);
    }
  }

  /** Membership is binding for paths of every length. What is presented with a path to the root is
      one of the allowed keys, with a path of exactly the tree's depth, or one of the pairs hashed
      for the tree itself, with a shorter path. */
  lemma MembershipBinds(sha: Sha, keys: seq<Bytes>, key: Bytes, path: seq<Hash>)
    requires keys != [] && NotNodeSized(keys)
    requires CollisionFree(sha, MembershipInputs(sha, keys, key, path))
    requires Fold(sha, sha(key), path) == Root(sha, SortedPair, KeyLeaves(sha, keys))
    ensures || (key in keys && |path| == Depth(|keys|))
            || (key in TreeInputs(sha, SortedPair, KeyLeaves(sha, keys)) && |path| < Depth(|keys|))
  {
    var leaves := KeyLeaves(sha, keys);
    if |path| < Depth(|leaves|) {
      ShortPathStartsInside(sha, leaves, sha(key), path);
    } else if |path| > Depth(|leaves|) {
      NoKeyIsNode(sha, keys, MembershipInputs(sha, keys, key, path), FoldInputs(sha, sha(key), path));
      LongPathHashesToLeaf(sha, leaves, sha(key), path);
    } else {
      var i := FoldBinds(sha, leaves, sha(key), path);
      assert sha(keys[Real(|leaves|, i)]) == sha(key);
    }
  }

  lemma NoKeyIsNode(sha: Sha, keys: seq<Bytes>, inputs: set<Bytes>, nodes: set<Bytes>)
    requires NotNodeSized(keys) && CollisionFree(sha, inputs) && nodes <= inputs
    requires forall k | k in keys :: k in inputs
    ensures forall h | h in KeyLeaves(sha, keys) :: !IsNodeDigest(sha, nodes, h)
  {
    forall h | h in KeyLeaves(sha, keys) ensures !IsNodeDigest(sha, nodes, h) {
      var i :| 0 <= i < |keys| && sha(keys[i]) == h;
      NoNodeDigestIsKey(sha, inputs, nodes, keys[i]);
    }
  }

  /** So a key that is not as long as a pair is an allowed one. The length is a condition on what the
      prover presents; neither verifier checks it. */
  lemma MembershipBindsKeys(sha: Sha, keys: seq<Bytes>, key: Bytes, path: seq<Hash>)
    requires keys != [] && NotNodeSized(keys) && |key| != 64
    requires CollisionFree(sha, MembershipInputs(sha, keys, key, path))
    requires Fold(sha, sha(key), path) == Root(sha, SortedPair, KeyLeaves(sha, keys))
    ensures key in keys && |path| == Depth(|keys|)
  {
    MembershipBinds(sha, keys, key, path);
    if key in TreeInputs(sha, SortedPair, KeyLeaves(sha, keys)) {
      TreeInputIsPair(sha, KeyLeaves(sha, keys), key);
    }
  }

  // ---------------------------------------------------------------- exactly what verifies

  /** Every pair hashed for the tree has a path to the root: that of its digest, one row up. */
  lemma {:induction false} PairHasPath(sha: Sha, row: seq<Hash>, p: Bytes) returns (path: seq<Hash>)
    requires row != [] && p in TreeInputs(sha, SortedPair, row)
    ensures Fold(sha, sha(p), path) == Root(sha, SortedPair, row)
    ensures FoldInputs(sha, sha(p), path) <= TreeInputs(sha, SortedPair, row)
    decreases |row|
  {
    var next := NextRow(sha, SortedPair, row);
    if p in RowInputs(SortedPair, row) {
      var q: nat :| q < (|row| + 1) / 2 && p == Preimage(SortedPair, row[2 * q], row[RightChild(|row|, q)]);
      NextRowAt(sha, SortedPair, row, q);
      path := HonestPath(sha, SortedPair, next, q);
      HonestPathVerifies(sha, next, q);
    } else {
      path := PairHasPath(sha, next, p);
    }
  }

  /** A path that verifies for what is presented, without a collision among all that is hashed. */
  ghost predicate VerifiesBy(sha: Sha, keys: seq<Bytes>, key: Bytes, path: seq<Hash>)
    requires keys != []
  {
    && CollisionFree(sha, MembershipInputs(sha, keys, key, path))
    && Fold(sha, sha(key), path) == Root(sha, SortedPair, KeyLeaves(sha, keys))
  }

  /** Exactly what verifies under the root over `keys`, with paths of any length: the keys, and the
      pairs hashed for the tree. With two keys or more there are such pairs. */
  lemma VerifiesExactly(sha: Sha, keys: seq<Bytes>, key: Bytes)
    requires keys != [] && NotNodeSized(keys)
    requires CollisionFree(sha, (set k | k in keys) + {key} + TreeInputs(sha, SortedPair, KeyLeaves(sha, keys)))
    ensures (exists path :: VerifiesBy(sha, keys, key, path))
        <==> key in keys || key in TreeInputs(sha, SortedPair, KeyLeaves(sha, keys))
  {
    var leaves := KeyLeaves(sha, keys);
    if path :| VerifiesBy(sha, keys, key, path) {
      MembershipBinds(sha, keys, key, path);
    }
    if key in keys {
      var i :| 0 <= i < |keys| && keys[i] == key;
      HonestPathVerifies(sha, leaves, i);
      SameInputs(sha, keys, key, HonestPath(sha, SortedPair, leaves, i));
    } else if key in TreeInputs(sha, SortedPair, leaves) {
      var path := PairHasPath(sha, leaves, key);
      SameInputs(sha, keys, key, path);
    }
  }

  lemma SameInputs(sha: Sha, keys: seq<Bytes>, key: Bytes, path: seq<Hash>)
    requires keys != []
    requires CollisionFree(sha, (set k | k in keys) + {key} + TreeInputs(sha, SortedPair, KeyLeaves(sha, keys)))
    requires FoldInputs(sha, sha(key), path) <= TreeInputs(sha, SortedPair, KeyLeaves(sha, keys))
    requires Fold(sha, sha(key), path) == Root(sha, SortedPair, KeyLeaves(sha, keys))
    ensures VerifiesBy(sha, keys, key, path)
  {
    assert MembershipInputs(sha, keys, key, path)
        == (set k | k in keys) + {key} + TreeInputs(sha, SortedPair, KeyLeaves(sha, keys));
  }

  /** A concrete one: the pair of the first two leaves, which is none of the keys, verifies with the
      path of its digest in the row above. */
  lemma FirstPairVerifies(sha: Sha, keys: seq<Bytes>, pair: Bytes)
    requires |keys| >= 2 && NotNodeSized(keys) && pair == Preimage(SortedPair, sha(keys[0]), sha(keys[1]))
    ensures var above := NextRow(sha, SortedPair, KeyLeaves(sha, keys));
            Fold(sha, sha(pair), HonestPath(sha, SortedPair, above, 0)) == Root(sha, SortedPair, KeyLeaves(sha, keys))
    ensures pair !in keys
  {
    var leaves := KeyLeaves(sha, keys);
    NextRowAt(sha, SortedPair, leaves, 0);
    HonestPathVerifies(sha, NextRow(sha, SortedPair, leaves), 0);
  }

  /** One step up: the two digests in ascending order. */
  lemma FoldStep(sha: Sha, node: Hash, sibling: Hash, path: seq<Hash>)
    ensures Less(node, sibling) ==> Fold(sha, node, [sibling] + path) == Fold(sha, sha(node + sibling), path)
    ensures Less(sibling, node) ==> Fold(sha, node, [sibling] + path) == Fold(sha, sha(sibling + node), path)
    ensures node == sibling ==> Fold(sha, node, [sibling] + path) == Fold(sha, sha(node + node), path)
    ensures Fold(sha, node, []) == node
  {
    assert ([sibling] + path)[1..] == path;
    PreimageExactly(node, sibling);
    PreimageExactly(sibling, node);
  }
}
