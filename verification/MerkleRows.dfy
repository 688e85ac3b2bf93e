/** The tree shape shared by the CA tree and the CRL tree: rows halve rounding up, and a
    row of odd length pairs its last node with itself.

    Padding by duplication makes every tree of depth d look like a full tree of 2^d leaves.
    `Real` maps a position of that full row to the leaf that really stands there. */
module MerkleRows {
  import opened Octets

  /** How two children are laid out before hashing: left then right (CRL tree),
      or the smaller first (CA tree). */
  datatype Pairing = Positional | SortedPair

  function Preimage(m: Pairing, a: Hash, b: Hash): (p: Bytes)
    ensures |p| == 64
  {
    if m.SortedPair? && Less(b, a) then b + a else a + b
  }

  function Node(sha: Sha, m: Pairing, a: Hash, b: Hash): Hash {
    sha(Preimage(m, a, b))
  }

  /** The second child of pair `q` in a row of `n` nodes. */
  function RightChild(n: nat, q: nat): (r: nat)
    requires 2 * q < n
    ensures r < n
  {
    if 2 * q + 1 < n then 2 * q + 1 else 2 * q
  }

  function NextRow(sha: Sha, m: Pairing, row: seq<Hash>): (next: seq<Hash>)
    ensures |next| == (|row| + 1) / 2
  {
    seq((|row| + 1) / 2, q requires 0 <= q < (|row| + 1) / 2 => Node(sha, m, row[2 * q], row[RightChild(|row|, q)]))
  }

  lemma NextRowAt(sha: Sha, m: Pairing, row: seq<Hash>, q: nat)
    requires q < |NextRow(sha, m, row)|
    ensures NextRow(sha, m, row)[q] == Node(sha, m, row[2 * q], row[RightChild(|row|, q)])
  {
  }

  function Rows(sha: Sha, m: Pairing, row: seq<Hash>): (rows: seq<seq<Hash>>)
    requires row != []
    ensures rows != [] && rows[0] == row
    decreases |row|
  {
    if |row| == 1 then [row] else [row] + Rows(sha, m, NextRow(sha, m, row))
  }

  function Root(sha: Sha, m: Pairing, row: seq<Hash>): Hash
    requires row != []
    decreases |row|
  {
    if |row| == 1 then row[0] else Root(sha, m, NextRow(sha, m, row))
  }

  /** How often `n` nodes must be halved, rounding up, to reach one. */
  function Depth(n: nat): nat
    requires n >= 1
  {
    if n == 1 then 0 else 1 + Depth((n + 1) / 2)
  }

  function Pow2(d: nat): (p: nat)
    ensures p >= 1
  {
    if d == 0 then 1 else 2 * Pow2(d - 1)
  }

  /** The leaf that stands at position `i` of the padded row. */
  function Real(n: nat, i: nat): (r: nat)
    requires n >= 1
    ensures r < n
  {
    if n == 1 then 0
    else
      var q := Real((n + 1) / 2, i / 2);
      if i % 2 == 0 then 2 * q else RightChild(n, q)
  }

  /** The leaf hashed together with the one at padded position `i`. */
  function Sibling(n: nat, i: nat): (r: nat)
    requires n >= 2
    ensures r < n
  {
    var q := Real((n + 1) / 2, i / 2);
    if i % 2 == 0 then RightChild(n, q) else 2 * q
  }

  /** The sibling hashes from padded position `i` up to the root. */
  function HonestPath(sha: Sha, m: Pairing, row: seq<Hash>, i: nat): (path: seq<Hash>)
    requires row != []
    ensures |path| == Depth(|row|)
    decreases |row|
  {
    if |row| == 1 then []
    else [row[Sibling(|row|, i)]] + HonestPath(sha, m, NextRow(sha, m, row), i / 2)
  }

  /** The direction bits of position `i`: true where the node is a left child. */
  function HonestDirs(d: nat, i: nat): (dirs: seq<bool>)
    ensures |dirs| == d
  {
    if d == 0 then [] else [i % 2 == 0] + HonestDirs(d - 1, i / 2)
  }

  /** The position that direction bits spell, lowest bit first. */
  function Spell(dirs: seq<bool>): nat {
    if |dirs| == 0 then 0 else (if dirs[0] then 0 else 1) + 2 * Spell(dirs[1..])
  }

  /** Recompute a root from a leaf; stops at the shorter of path and directions (`zip`). */
  function Climb(sha: Sha, m: Pairing, leaf: Hash, path: seq<Hash>, dirs: seq<bool>): Hash
    decreases |path|, leaf
  {
    if |path| == 0 || |dirs| == 0 then leaf
    else Climb(sha, m, sha(StepInput(m, leaf, path[0], dirs[0])), path[1..], dirs[1..])
  }

  function StepInput(m: Pairing, node: Hash, sibling: Hash, isLeft: bool): (p: Bytes)
    ensures |p| == 64
  {
    if isLeft then Preimage(m, node, sibling) else Preimage(m, sibling, node)
  }

  // ---------------------------------------------------------------- what gets hashed

  ghost function RowInputs(m: Pairing, row: seq<Hash>): set<Bytes> {
    set q | 0 <= q < (|row| + 1) / 2 :: Preimage(m, row[2 * q], row[RightChild(|row|, q)])
  }

  /** Everything hashed while building the tree over `row`. */
  ghost function TreeInputs(sha: Sha, m: Pairing, row: seq<Hash>): set<Bytes>
    requires row != []
    decreases |row|
  {
    if |row| == 1 then {} else RowInputs(m, row) + TreeInputs(sha, m, NextRow(sha, m, row))
  }

  /** Everything hashed by `Climb`. */
  ghost function ClimbInputs(sha: Sha, m: Pairing, leaf: Hash, path: seq<Hash>, dirs: seq<bool>): set<Bytes>
    decreases |path|, leaf
  {
    if |path| == 0 || |dirs| == 0 then {}
    else
      var p := StepInput(m, leaf, path[0], dirs[0]);
      {p} + ClimbInputs(sha, m, sha(p), path[1..], dirs[1..])
  }

  // ---------------------------------------------------------------- shape of the tree

  /** The depth is the least d with n <= 2^d. */
  lemma {:induction false} DepthIsLeast(n: nat, d: nat)
    requires n >= 1
    ensures n <= Pow2(d) <==> Depth(n) <= d
    decreases n
  {
    if n > 1 && d > 0 {
      DepthIsLeast((n + 1) / 2, d - 1);
    }
  }

  /** Real leaves stand at their own positions. */
  lemma {:induction false} RealOfReal(n: nat, i: nat)
    requires i < n
    ensures Real(n, i) == i
    decreases n
  {
    if n > 1 {
      RealOfReal((n + 1) / 2, i / 2);
    }
  }

  /** Next to a position there is the same leaf, the next leaf, or an earlier one.
      (The map is not monotone: six leaves stand as 0 1 2 3 4 5 4 5.) */
  lemma {:induction false} RealSuccessor(n: nat, i: nat)
    requires n >= 1
    ensures Real(n, i + 1) <= Real(n, i) + 1
    decreases n
  {
    if n > 1 {
      if i % 2 == 0 {
        assert (i + 1) / 2 == i / 2;
      } else {
        assert (i + 1) / 2 == i / 2 + 1;
        RealSuccessor((n + 1) / 2, i / 2);
      }
    }
  }

  lemma {:induction false} RealZero(n: nat)
    requires n >= 1
    ensures Real(n, 0) == 0
    decreases n
  {
    if n > 1 {
      RealZero((n + 1) / 2);
    }
  }

  lemma {:induction false} SpellHonestDirs(d: nat, i: nat)
    requires i < Pow2(d)
    ensures Spell(HonestDirs(d, i)) == i
  {
    if d > 0 {
      SpellHonestDirs(d - 1, i / 2);
      assert HonestDirs(d, i)[1..] == HonestDirs(d - 1, i / 2);
    }
  }

  lemma {:induction false} HonestDirsSpell(dirs: seq<bool>)
    ensures HonestDirs(|dirs|, Spell(dirs)) == dirs
    ensures Spell(dirs) < Pow2(|dirs|)
  {
    if dirs != [] {
      HonestDirsSpell(dirs[1..]);
    }
  }

  // ---------------------------------------------------------------- paths

  /** Completeness: from every padded position the honest path leads to the root. */
  lemma {:induction false} HonestPathClimbs(sha: Sha, m: Pairing, row: seq<Hash>, i: nat)
    requires row != []
    ensures Climb(sha, m, row[Real(|row|, i)], HonestPath(sha, m, row, i), HonestDirs(Depth(|row|), i))
         == Root(sha, m, row)
    ensures ClimbInputs(sha, m, row[Real(|row|, i)], HonestPath(sha, m, row, i), HonestDirs(Depth(|row|), i))
         <= TreeInputs(sha, m, row)
    decreases |row|
  {
    if |row| > 1 {
      var next := NextRow(sha, m, row);
      var q := Real(|next|, i / 2);
      HonestPathClimbs(sha, m, next, i / 2);
      var path, dirs := HonestPath(sha, m, row, i), HonestDirs(Depth(|row|), i);
      assert path[1..] == HonestPath(sha, m, next, i / 2);
      assert dirs[1..] == HonestDirs(Depth(|next|), i / 2);
      assert StepInput(m, row[Real(|row|, i)], path[0], dirs[0]) == Preimage(m, row[2 * q], row[RightChild(|row|, q)]);
    }
  }

  /** One level of binding: an input that hashes to the node over pair `q` is that pair. */
  lemma NodeBinds(sha: Sha, m: Pairing, row: seq<Hash>, q: nat, p: Bytes, inputs: set<Bytes>)
    requires |row| > 1 && 2 * q < |row|
    requires CollisionFree(sha, inputs) && TreeInputs(sha, m, row) <= inputs && p in inputs
    requires sha(p) == NextRow(sha, m, row)[q]
    ensures p == Preimage(m, row[2 * q], row[RightChild(|row|, q)])
  {
    assert Preimage(m, row[2 * q], row[RightChild(|row|, q)]) in RowInputs(m, row);
  }

  /** The two padded positions under position `half` of the next row. */
  lemma PairPositions(n: nat, half: nat)
    requires n > 1
    ensures var q := Real((n + 1) / 2, half);
            && Real(n, 2 * half) == 2 * q && Sibling(n, 2 * half) == RightChild(n, q)
            && Real(n, 2 * half + 1) == RightChild(n, q) && Sibling(n, 2 * half + 1) == 2 * q
    ensures (2 * half) / 2 == half && (2 * half + 1) / 2 == half
  {
  }

  /** Binding, positional hashing: a path of tree depth that reaches the root is the honest
      path of the position its direction bits spell, and starts at the leaf standing there. */
  lemma {:induction false} ClimbBinds(sha: Sha, row: seq<Hash>, leaf: Hash, path: seq<Hash>, dirs: seq<bool>)
    requires row != []
    requires |path| == |dirs| == Depth(|row|)
    requires CollisionFree(sha, TreeInputs(sha, Positional, row) + ClimbInputs(sha, Positional, leaf, path, dirs))
    requires Climb(sha, Positional, leaf, path, dirs) == Root(sha, Positional, row)
    ensures leaf == row[Real(|row|, Spell(dirs))]
    ensures path == HonestPath(sha, Positional, row, Spell(dirs))
    decreases |row|
  {
    if |row| > 1 {
      var next := NextRow(sha, Positional, row);
      var p := StepInput(Positional, leaf, path[0], dirs[0]);
      var half := Spell(dirs[1..]);
      ClimbBinds(sha, next, sha(p), path[1..], dirs[1..]);
      NodeBinds(sha, Positional, row, Real(|next|, half), p,
                TreeInputs(sha, Positional, row) + ClimbInputs(sha, Positional, leaf, path, dirs));
      ChildrenSplit(leaf, path[0], dirs[0], row[2 * Real(|next|, half)], row[RightChild(|row|, Real(|next|, half))]);
      HonestAt(sha, Positional, row, half, dirs[0]);
      assert Spell(dirs) == Child(half, dirs[0]);
      assert path == [path[0]] + path[1..];
    }
  }

  /** Exactly: a path of tree depth reaches the root if and only if it is the honest path of the
      position its direction bits spell and starts at the leaf standing there. */
  lemma ClimbIffHonest(sha: Sha, row: seq<Hash>, leaf: Hash, path: seq<Hash>, dirs: seq<bool>)
    requires row != []
    requires |path| == |dirs| == Depth(|row|)
    requires CollisionFree(sha, TreeInputs(sha, Positional, row) + ClimbInputs(sha, Positional, leaf, path, dirs))
    ensures Climb(sha, Positional, leaf, path, dirs) == Root(sha, Positional, row)
        <==> leaf == row[Real(|row|, Spell(dirs))] && path == HonestPath(sha, Positional, row, Spell(dirs))
  {
    if Climb(sha, Positional, leaf, path, dirs) == Root(sha, Positional, row) {
      ClimbBinds(sha, row, leaf, path, dirs);
    } else {
      HonestDirsSpell(dirs);
      HonestPathClimbs(sha, Positional, row, Spell(dirs));
    }
  }

  /** The padded position under position `half` of the next row. */
  function Child(half: nat, isLeft: bool): nat {
    if isLeft then 2 * half else 2 * half + 1
  }

  /** The leaf and the path at a padded position, from those one row up. */
  lemma HonestAt(sha: Sha, m: Pairing, row: seq<Hash>, half: nat, isLeft: bool)
    requires |row| > 1
    ensures var q := Real(|NextRow(sha, m, row)|, half);
            && Real(|row|, Child(half, isLeft)) == (if isLeft then 2 * q else RightChild(|row|, q))
            && HonestPath(sha, m, row, Child(half, isLeft))
               == [if isLeft then row[RightChild(|row|, q)] else row[2 * q]] + HonestPath(sha, m, NextRow(sha, m, row), half)
  {
    PairPositions(|row|, half);
  }

  lemma ChildrenSplit(node: Hash, sibling: Hash, isLeft: bool, l: Hash, r: Hash)
    requires StepInput(Positional, node, sibling, isLeft) == Preimage(Positional, l, r)
    ensures if isLeft then node == l && sibling == r else node == r && sibling == l
  {
    if isLeft {
      PairSplit(node, sibling, l, r);
    } else {
      PairSplit(sibling, node, l, r);
    }
  }

  lemma PairSplit(a: Hash, b: Hash, c: Hash, d: Hash)
    requires a + b == c + d
    ensures a == c && b == d
  {
    assert a == (a + b)[..32] == (c + d)[..32] == c;
    assert b == (a + b)[32..] == (c + d)[32..] == d;
  }

  /** Two preimages of sorted pairs agree only on the same unordered pair. */
  lemma SortedPairSplit(a: Hash, b: Hash, c: Hash, d: Hash)
    requires Preimage(SortedPair, a, b) == Preimage(SortedPair, c, d)
    ensures (a == c && b == d) || (a == d && b == c)
  {
    PairSplit(if Less(b, a) then b else a, if Less(b, a) then a else b,
              if Less(d, c) then d else c, if Less(d, c) then c else d);
  }

  /** Sorted-pair hashing ignores the order of the children. */
  lemma SortedPairCommutes(a: Hash, b: Hash)
    ensures Preimage(SortedPair, a, b) == Preimage(SortedPair, b, a)
  {
    LessTotal(a, b);
    if Less(a, b) {
      LessAsymmetric(a, b);
    } else if Less(b, a) {
      LessAsymmetric(b, a);
    }
  }

  /** The sibling of a real leaf is its neighbour, or itself at an odd end. */
  lemma SiblingOfReal(n: nat, i: nat)
    requires n > 1 && i < n
    ensures Sibling(n, i) == if i % 2 == 1 then i - 1 else if i + 1 < n then i + 1 else i
  {
    assert i / 2 < (n + 1) / 2;
    RealOfReal((n + 1) / 2, i / 2);
  }

  lemma HonestPathStep(sha: Sha, m: Pairing, row: seq<Hash>, i: nat, sibling: Hash)
    requires |row| > 1
    requires sibling == row[Sibling(|row|, i)]
    ensures HonestPath(sha, m, row, i) == [sibling] + HonestPath(sha, m, NextRow(sha, m, row), i / 2)
  {
  }

  lemma HonestDirsStep(d: nat, i: nat, done: seq<bool>)
    requires d > 0
    ensures done + HonestDirs(d, i) == (done + [i % 2 == 0]) + HonestDirs(d - 1, i / 2)
  {
    MoveFirst(done, i % 2 == 0, HonestDirs(d - 1, i / 2));
  }

  /** Moving the first element of what is to come to the end of what is there. */
  lemma MoveFirst<T>(done: seq<T>, x: T, rest: seq<T>)
    ensures done + ([x] + rest) == (done + [x]) + rest
  {
  }

  // ---------------------------------------------------------------- rows

  lemma {:induction false} RowsCount(sha: Sha, m: Pairing, row: seq<Hash>)
    requires row != []
    ensures |Rows(sha, m, row)| == Depth(|row|) + 1
    decreases |row|
  {
    if |row| > 1 {
      RowsCount(sha, m, NextRow(sha, m, row));
    }
  }

  lemma {:induction false} LastRowIsRoot(sha: Sha, m: Pairing, row: seq<Hash>)
    requires row != []
    ensures Last(Rows(sha, m, row)) == [Root(sha, m, row)]
    decreases |row|
  {
    if |row| > 1 {
      LastRowIsRoot(sha, m, NextRow(sha, m, row));
      LastOfCons(row, Rows(sha, m, NextRow(sha, m, row)));
    } else {
      assert row == [row[0]];
    }
  }

  function Last<T>(s: seq<T>): T
    requires s != []
  {
    s[|s| - 1]
  }

  lemma LastOfCons<T>(x: T, s: seq<T>)
    requires s != []
    ensures Last([x] + s) == Last(s)
  {
  }

  /** Each row is half as long as the one below, rounding up. */
  ghost predicate Halving(rows: seq<seq<Hash>>) {
    forall k | 0 < k < |rows| :: |rows[k]| == (|rows[k - 1]| + 1) / 2
  }

  /** What a proof takes from one row: the neighbour, or the node itself at an odd end. */
  function Neighbour(row: seq<Hash>, i: nat): Hash
    requires i < |row|
  {
    if i % 2 == 1 then row[i - 1] else if i + 1 < |row| then row[i + 1] else row[i]
  }

  /** The path read off finished rows, from row `k` up. */
  ghost function PathInRows(rows: seq<seq<Hash>>, k: nat, i: nat): seq<Hash>
    requires Halving(rows) && k < |rows| && i < |rows[k]|
    decreases |rows| - k
  {
    if k + 1 == |rows| then []
    else
      NextIndex(rows, k, i);
      [Neighbour(rows[k], i)] + PathInRows(rows, k + 1, i / 2)
  }

  lemma NextIndex(rows: seq<seq<Hash>>, k: nat, i: nat)
    requires Halving(rows) && k + 1 < |rows| && i < |rows[k]|
    ensures i / 2 < |rows[k + 1]|
  {
    assert |rows[k + 1]| == (|rows[k + 1 - 1]| + 1) / 2;
  }

  /** One turn of a prover's loop: the neighbour moves from what is to come to what is there. */
  lemma PathInRowsStep(rows: seq<seq<Hash>>, k: nat, i: nat, done: seq<Hash>, sibling: Hash)
    requires Halving(rows) && k + 1 < |rows| && i < |rows[k]| && sibling == Neighbour(rows[k], i)
    ensures i / 2 < |rows[k + 1]|
    ensures done + PathInRows(rows, k, i) == (done + [sibling]) + PathInRows(rows, k + 1, i / 2)
  {
    NextIndex(rows, k, i);
    MoveFirst(done, sibling, PathInRows(rows, k + 1, i / 2));
  }

  lemma {:induction false} RowsHalve(sha: Sha, m: Pairing, row: seq<Hash>)
    requires row != []
    ensures Halving(Rows(sha, m, row))
    decreases |row|
  {
    if |row| > 1 {
      var upper := Rows(sha, m, NextRow(sha, m, row));
      RowsHalve(sha, m, NextRow(sha, m, row));
      var rows := Rows(sha, m, row);
      forall k | 0 < k < |rows| ensures |rows[k]| == (|rows[k - 1]| + 1) / 2 {
        assert rows[k] == upper[k - 1];
        if k > 1 {
          assert rows[k - 1] == upper[k - 2];
        }
      }
    }
  }

  /** What a prover relies on: the rows halve, one for each level, and hold the honest path. */
  lemma TreeRows(sha: Sha, m: Pairing, row: seq<Hash>, rows: seq<seq<Hash>>, i: nat)
    requires i < |row| && rows == Rows(sha, m, row)
    ensures Halving(rows) && |rows| == Depth(|row|) + 1
    ensures PathInRows(rows, 0, i) == HonestPath(sha, m, row, i)
  {
    RowsHalve(sha, m, row);
    RowsCount(sha, m, row);
    PathInRowsIsHonest(sha, m, row, rows, 0, i);
  }

  /** Read off the rows of a tree, the path of a real leaf is its honest path. */
  lemma {:induction false} PathInRowsIsHonest(sha: Sha, m: Pairing, row: seq<Hash>, rows: seq<seq<Hash>>, k: nat, i: nat)
    requires i < |row|
    requires Halving(rows) && k < |rows| && rows[k..] == Rows(sha, m, row)
    ensures PathInRows(rows, k, i) == HonestPath(sha, m, row, i)
    decreases |row|
  {
    assert rows[k] == rows[k..][0] == row;
    if |row| > 1 {
      var next := NextRow(sha, m, row);
      assert rows[k + 1..] == rows[k..][1..] == Rows(sha, m, next);
      PathInRowsIsHonest(sha, m, next, rows, k + 1, i / 2);
      SiblingOfReal(|row|, i);
      HonestPathStep(sha, m, row, i, Neighbour(row, i));
    }
  }

  /** `h` is the digest of one of the 64-byte members of `inputs`. */
  ghost predicate IsNodeDigest(sha: Sha, inputs: set<Bytes>, h: Hash) {
    exists p {:trigger p in inputs} :: p in inputs && |p| == 64 && sha(p) == h
  }

  /** Every node of the next row is the digest of a 64-byte input of the tree. */
  lemma NextNodeIsHashed(sha: Sha, m: Pairing, row: seq<Hash>, j: nat)
    requires |row| > 1 && j < |NextRow(sha, m, row)|
    ensures IsNodeDigest(sha, TreeInputs(sha, m, row), NextRow(sha, m, row)[j])
  {
    var p := Preimage(m, row[2 * j], row[RightChild(|row|, j)]);
    assert p in RowInputs(m, row);
  }

  // ---------------------------------------------------------------- paths of any length

  /** The node that a path with these direction bits starts from: a leaf when there are as many
      bits as the tree is deep, a node further up when there are fewer, the root for none. */
  function StartNode(sha: Sha, m: Pairing, row: seq<Hash>, dirs: seq<bool>): Hash
    requires row != [] && |dirs| <= Depth(|row|)
    decreases |row|
  {
    if |dirs| == Depth(|row|) then row[Real(|row|, Spell(dirs))]
    else StartNode(sha, m, NextRow(sha, m, row), dirs)
  }

  /** The siblings on the way from that node to the root. */
  function StartPath(sha: Sha, m: Pairing, row: seq<Hash>, dirs: seq<bool>): (path: seq<Hash>)
    requires row != [] && |dirs| <= Depth(|row|)
    ensures |path| == |dirs|
    decreases |row|
  {
    if |dirs| == Depth(|row|) then HonestPath(sha, m, row, Spell(dirs))
    else StartPath(sha, m, NextRow(sha, m, row), dirs)
  }

  lemma {:induction false} StartNodeOfNone(sha: Sha, m: Pairing, row: seq<Hash>)
    requires row != []
    ensures StartNode(sha, m, row, []) == Root(sha, m, row)
    decreases |row|
  {
    if |row| > 1 {
      StartNodeOfNone(sha, m, NextRow(sha, m, row));
    }
  }

  lemma {:induction false} StartPathClimbs(sha: Sha, m: Pairing, row: seq<Hash>, dirs: seq<bool>)
    requires row != [] && |dirs| <= Depth(|row|)
    ensures Climb(sha, m, StartNode(sha, m, row, dirs), StartPath(sha, m, row, dirs), dirs) == Root(sha, m, row)
    ensures ClimbInputs(sha, m, StartNode(sha, m, row, dirs), StartPath(sha, m, row, dirs), dirs) <= TreeInputs(sha, m, row)
    decreases |row|
  {
    if |dirs| == Depth(|row|) {
      HonestDirsSpell(dirs);
      HonestPathClimbs(sha, m, row, Spell(dirs));
    } else {
      StartPathClimbs(sha, m, NextRow(sha, m, row), dirs);
    }
  }

  /** Binding for every path that is not longer than the tree is deep: it starts at the node its
      direction bits lead to, and is that node's own path. */
  lemma {:induction false} AnyPathBinds(sha: Sha, row: seq<Hash>, node: Hash, path: seq<Hash>, dirs: seq<bool>)
    requires row != [] && |path| == |dirs| <= Depth(|row|)
    requires CollisionFree(sha, TreeInputs(sha, Positional, row) + ClimbInputs(sha, Positional, node, path, dirs))
    requires Climb(sha, Positional, node, path, dirs) == Root(sha, Positional, row)
    ensures node == StartNode(sha, Positional, row, dirs)
    ensures path == StartPath(sha, Positional, row, dirs)
    decreases |row|
  {
    if |dirs| == Depth(|row|) {
      ClimbBinds(sha, row, node, path, dirs);
    } else {
      AnyPathBinds(sha, NextRow(sha, Positional, row), node, path, dirs);
    }
  }

  /** A node above the leaves is the digest of two nodes. */
  lemma {:induction false} ShortStartIsHashed(sha: Sha, m: Pairing, row: seq<Hash>, dirs: seq<bool>)
    requires row != [] && |dirs| < Depth(|row|)
    ensures IsNodeDigest(sha, TreeInputs(sha, m, row), StartNode(sha, m, row, dirs))
    decreases |row|
  {
    var next := NextRow(sha, m, row);
    if |dirs| == Depth(|next|) {
      NextNodeIsHashed(sha, m, row, Real(|next|, Spell(dirs)));
      assert StartNode(sha, m, next, dirs) == next[Real(|next|, Spell(dirs))];
    } else {
      ShortStartIsHashed(sha, m, next, dirs);
    }
  }

  /** A path longer than the tree is deep reaches a leaf after at least one hash. */
  lemma {:induction false} LongClimbHashesToLeaf(sha: Sha, row: seq<Hash>, node: Hash, path: seq<Hash>, dirs: seq<bool>)
    requires row != [] && |path| == |dirs| > Depth(|row|)
    requires CollisionFree(sha, TreeInputs(sha, Positional, row) + ClimbInputs(sha, Positional, node, path, dirs))
    requires Climb(sha, Positional, node, path, dirs) == Root(sha, Positional, row)
    ensures exists h :: h in row && IsNodeDigest(sha, ClimbInputs(sha, Positional, node, path, dirs), h)
    decreases |path|
  {
    var p := StepInput(Positional, node, path[0], dirs[0]);
    assert p in ClimbInputs(sha, Positional, node, path, dirs);
    if |path| == Depth(|row|) + 1 {
      ClimbBinds(sha, row, sha(p), path[1..], dirs[1..]);
      assert IsNodeDigest(sha, ClimbInputs(sha, Positional, node, path, dirs), sha(p));
    } else {
      LongClimbHashesToLeaf(sha, row, sha(p), path[1..], dirs[1..]);
      var h :| h in row && IsNodeDigest(sha, ClimbInputs(sha, Positional, sha(p), path[1..], dirs[1..]), h);
      assert IsNodeDigest(sha, ClimbInputs(sha, Positional, node, path, dirs), h);
    }
  }

  // ---------------------------------------------------------------- in plain terms

  /** What is hashed for a pair: left then right, or the two in ascending order. */
  lemma PreimageExactly(a: Hash, b: Hash)
    ensures Preimage(Positional, a, b) == a + b
    ensures Less(a, b) ==> Preimage(SortedPair, a, b) == a + b && Preimage(SortedPair, b, a) == a + b
    ensures a == b ==> Preimage(SortedPair, a, b) == a + a
  {
    if Less(a, b) {
      LessAsymmetric(a, b);
    }
    LessIrreflexive(a);
  }

  /** The digests that make up the next row: pairs of neighbours, and an odd last node with itself. */
  lemma NextRowExactly(sha: Sha, m: Pairing, row: seq<Hash>, q: nat)
    ensures 2 * q + 1 < |row| ==>
              q < |NextRow(sha, m, row)| && NextRow(sha, m, row)[q] == sha(Preimage(m, row[2 * q], row[2 * q + 1]))
    ensures 2 * q + 1 == |row| ==>
              |NextRow(sha, m, row)| == q + 1 && NextRow(sha, m, row)[q] == sha(Preimage(m, row[2 * q], row[2 * q]))
    ensures 2 * q == |row| ==> |NextRow(sha, m, row)| == q
  {
    if q < |NextRow(sha, m, row)| {
      NextRowAt(sha, m, row, q);
    }
  }

  /** The root of one node is the node, and of more that of the next row. */
  lemma RootExactly(sha: Sha, m: Pairing, row: seq<Hash>)
    requires row != []
    ensures |row| == 1 ==> Root(sha, m, row) == row[0]
    ensures |row| > 1 ==> Root(sha, m, row) == Root(sha, m, NextRow(sha, m, row))
  {
  }

  /** One step up: the sibling on the right where the direction bit is set, else on the left. */
  lemma ClimbStep(sha: Sha, node: Hash, sibling: Hash, path: seq<Hash>, dirs: seq<bool>)
    ensures Climb(sha, Positional, node, [sibling] + path, [true] + dirs)
         == Climb(sha, Positional, sha(node + sibling), path, dirs)
    ensures Climb(sha, Positional, node, [sibling] + path, [false] + dirs)
         == Climb(sha, Positional, sha(sibling + node), path, dirs)
    ensures Climb(sha, Positional, node, [], dirs) == Climb(sha, Positional, node, path, []) == node
  {
    assert ([sibling] + path)[1..] == path;
    assert ([true] + dirs)[1..] == dirs && ([false] + dirs)[1..] == dirs;
  }
}
