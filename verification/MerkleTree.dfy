/** The sparse Merkle tree kept by the certificate registry contract: the fold of a leaf along a
    proof, the root of a whole row of leaves, and what an accepted proof says about the row. */
module MerkleTree {
  import opened Common

  /** The two-to-one compression function `hashLeftRight`. */
  type Compress = (Hash, Hash) -> Hash

  ghost predicate CollisionFree(H: Compress) {
    forall a, b, c, d :: H(a, b) == H(c, d) ==> a == c && b == d
  }

  // ---------- The contract's computation ----------

  /** One level of the fold: an odd position is a right child. */
  function Parent(H: Compress, node: Hash, sibling: Hash, index: nat): Hash {
    if index % 2 == 1 then H(sibling, node) else H(node, sibling)
  }

  function Fold(H: Compress, node: Hash, index: nat, proof: seq<Hash>): Hash
    decreases |proof|
  {
    if proof == [] then node else Fold(H, Parent(H, node, proof[0], index), index / 2, proof[1..])
  }

  /** The contract's loop over the levels of a proof; None is a revert. */
  method ComputeRoot(H: Compress, treeDepth: nat, leaf: Hash, leafIndex: nat, proof: seq<Hash>)
    returns (root: Option<Hash>)
    ensures root.Some? <==> leafIndex < Pow2(treeDepth) && |proof| == treeDepth
    ensures root.Some? ==> root.value == Fold(H, leaf, leafIndex, proof)
  {
    if leafIndex >= Pow2(treeDepth) || |proof| != treeDepth {
      return None;
    }
    var node, index := leaf, leafIndex;
    for k := 0 to treeDepth
      invariant Fold(H, node, index, proof[k..]) == Fold(H, leaf, leafIndex, proof)
    {
      assert proof[k..][1..] == proof[k + 1..];
      node := if index % 2 == 1 then H(proof[k], node) else H(node, proof[k]);
      index := index / 2;
    }
    return Some(node);
  }

  // ---------- The row of leaves it stands for ----------

  /** The row of nodes one level above `row`. */
  function Up(H: Compress, row: seq<Hash>, half: nat): (up: seq<Hash>)
    requires |row| == 2 * half
    ensures |up| == half
  {
    if half == 0 then []
    else Up(H, row[..2 * half - 2], half - 1) + [H(row[2 * half - 2], row[2 * half - 1])]
  }

  function Root(H: Compress, row: seq<Hash>, depth: nat): Hash
    requires |row| == Pow2(depth)
    decreases depth
  {
    if depth == 0 then row[0] else Root(H, Up(H, row, Pow2(depth - 1)), depth - 1)
  }

  function SiblingIndex(index: nat): nat {
    if index % 2 == 1 then index - 1 else index + 1
  }

  /** The proof an honest Merkle proof service answers for the leaf at `index`. */
  function Siblings(H: Compress, row: seq<Hash>, depth: nat, index: nat): (proof: seq<Hash>)
    requires |row| == Pow2(depth) && index < Pow2(depth)
    ensures |proof| == depth
    decreases depth
  {
    if depth == 0 then []
    else [row[SiblingIndex(index)]] + Siblings(H, Up(H, row, Pow2(depth - 1)), depth - 1, index / 2)
  }

  function FirstPosition(row: seq<Hash>, leaf: Hash): (i: nat)
    requires leaf in row
    ensures i < |row| && row[i] == leaf
  {
    if row[0] == leaf then 0 else 1 + FirstPosition(row[1..], leaf)
  }

  function Repeat(value: Hash, count: nat): (row: seq<Hash>)
    ensures |row| == count && forall k :: 0 <= k < count ==> row[k] == value
  {
    if count == 0 then [] else Repeat(value, count - 1) + [value]
  }

  function EmptyRoot(H: Compress, zero: Hash, depth: nat): Hash
    decreases depth
  {
    if depth == 0 then zero else EmptyRoot(H, H(zero, zero), depth - 1)
  }

  /** The loop of the contract's constructor. */
  method ComputeEmptyRoot(H: Compress, zero: Hash, treeDepth: nat) returns (root: Hash)
    ensures root == Root(H, Repeat(zero, Pow2(treeDepth)), treeDepth)
  {
    root := zero;
    for k := 0 to treeDepth
      invariant EmptyRoot(H, root, treeDepth - k) == EmptyRoot(H, zero, treeDepth)
    {
      root := H(root, root);
    }
    EmptyRootIsZeroRow(H, zero, treeDepth);
  }

  // ---------- Laws ----------

  lemma {:induction false} UpAt(H: Compress, row: seq<Hash>, half: nat, k: nat)
    requires |row| == 2 * half && k < half
    ensures Up(H, row, half)[k] == H(row[2 * k], row[2 * k + 1])
    decreases half
  {
    if k < half - 1 {
      UpAt(H, row[..2 * half - 2], half - 1, k);
    }
  }

  lemma {:induction false} UpOfRepeat(H: Compress, value: Hash, half: nat)
    ensures Up(H, Repeat(value, 2 * half), half) == Repeat(H(value, value), half)
  {
    forall k | 0 <= k < half ensures Up(H, Repeat(value, 2 * half), half)[k] == H(value, value) {
      UpAt(H, Repeat(value, 2 * half), half, k);
    }
  }

  lemma {:induction false} EmptyRootIsZeroRow(H: Compress, zero: Hash, depth: nat)
    ensures EmptyRoot(H, zero, depth) == Root(H, Repeat(zero, Pow2(depth)), depth)
    decreases depth
  {
    if depth > 0 {
      var half := Pow2(depth - 1);
      assert Pow2(depth) == 2 * half;
      var row := Repeat(zero, 2 * half);
      UpOfRepeat(H, zero, half);
      var up := Repeat(H(zero, zero), half);
      EmptyRootIsZeroRow(H, H(zero, zero), depth - 1);
      assert Root(H, row, depth) == Root(H, up, depth - 1);
    }
  }

  lemma {:induction false} UpOfHalves(H: Compress, row: seq<Hash>, quarter: nat)
    requires |row| == 4 * quarter
    ensures Up(H, row[..2 * quarter], quarter) == Up(H, row, 2 * quarter)[..quarter]
    ensures Up(H, row[2 * quarter..], quarter) == Up(H, row, 2 * quarter)[quarter..]
  {
    forall k | 0 <= k < quarter
      ensures Up(H, row[..2 * quarter], quarter)[k] == Up(H, row, 2 * quarter)[k]
      ensures Up(H, row[2 * quarter..], quarter)[k] == Up(H, row, 2 * quarter)[quarter + k]
    {
      UpAt(H, row[..2 * quarter], quarter, k);
      UpAt(H, row[2 * quarter..], quarter, k);
      UpAt(H, row, 2 * quarter, k);
      UpAt(H, row, 2 * quarter, quarter + k);
    }
  }

  lemma {:induction false} UpOfUpdate(H: Compress, row: seq<Hash>, half: nat, index: nat, leaf: Hash)
    requires |row| == 2 * half && index < |row|
    ensures Up(H, row[index := leaf], half)
         == Up(H, row, half)[index / 2 := Parent(H, leaf, row[SiblingIndex(index)], index)]
  {
    var up, parent := Up(H, row, half), Parent(H, leaf, row[SiblingIndex(index)], index);
    var rewritten := up[index / 2 := parent];
    forall k | 0 <= k < half ensures Up(H, row[index := leaf], half)[k] == rewritten[k] {
      UpAt(H, row, half, k);
      UpAt(H, row[index := leaf], half, k);
    }
  }

  lemma {:induction false} ParentOpens(H: Compress, row: seq<Hash>, half: nat, index: nat, leaf: Hash, sibling: Hash)
    requires CollisionFree(H)
    requires |row| == 2 * half && index < |row|
    requires Up(H, row, half)[index / 2] == Parent(H, leaf, sibling, index)
    ensures row[index] == leaf && row[SiblingIndex(index)] == sibling
  {
    UpAt(H, row, half, index / 2);
  }

  lemma {:induction false} UpIsInjective(H: Compress, row: seq<Hash>, other: seq<Hash>, half: nat)
    requires CollisionFree(H)
    requires |row| == |other| == 2 * half && Up(H, row, half) == Up(H, other, half)
    ensures row == other
  {
    forall i | 0 <= i < |row| ensures row[i] == other[i] {
      UpAt(H, row, half, i / 2);
      UpAt(H, other, half, i / 2);
    }
  }

  /** The level-by-level root is the textbook one: the hash of the roots of the two halves. */
  lemma {:induction false} RootOfHalves(H: Compress, row: seq<Hash>, depth: nat)
    requires |row| == Pow2(depth + 1)
    ensures Root(H, row, depth + 1)
         == H(Root(H, row[..Pow2(depth)], depth), Root(H, row[Pow2(depth)..], depth))
    decreases depth
  {
    var up := Up(H, row, Pow2(depth));
    if depth == 0 {
      UpAt(H, row, 1, 0);
    } else {
      RootOfHalves(H, up, depth - 1);
      UpOfHalves(H, row, Pow2(depth - 1));
    }
  }

  lemma {:induction false} FoldStep(H: Compress, row: seq<Hash>, depth: nat, index: nat, leaf: Hash)
    requires depth > 0 && |row| == Pow2(depth) && index < Pow2(depth)
    ensures Fold(H, leaf, index, Siblings(H, row, depth, index))
         == Fold(H, Parent(H, leaf, row[SiblingIndex(index)], index), index / 2,
                 Siblings(H, Up(H, row, Pow2(depth - 1)), depth - 1, index / 2))
  {
    var above := Siblings(H, Up(H, row, Pow2(depth - 1)), depth - 1, index / 2);
    assert ([row[SiblingIndex(index)]] + above)[1..] == above;
  }

  lemma {:induction false} RootStep(H: Compress, row: seq<Hash>, depth: nat, index: nat, leaf: Hash)
    requires depth > 0 && |row| == Pow2(depth) && index < Pow2(depth)
    ensures Root(H, row[index := leaf], depth)
         == Root(H, Up(H, row, Pow2(depth - 1))[index / 2 := Parent(H, leaf, row[SiblingIndex(index)], index)],
                 depth - 1)
  {
    UpOfUpdate(H, row, Pow2(depth - 1), index, leaf);
  }

  /** Rewriting one leaf and folding it along the honest proof gives the root of the rewritten row. */
  lemma {:induction false} FoldRewrites(H: Compress, row: seq<Hash>, depth: nat, index: nat, leaf: Hash)
    requires |row| == Pow2(depth) && index < Pow2(depth)
    ensures Fold(H, leaf, index, Siblings(H, row, depth, index)) == Root(H, row[index := leaf], depth)
    decreases depth
  {
    if depth > 0 {
      FoldStep(H, row, depth, index, leaf);
      RootStep(H, row, depth, index, leaf);
      FoldRewrites(H, Up(H, row, Pow2(depth - 1)), depth - 1, index / 2,
                   Parent(H, leaf, row[SiblingIndex(index)], index));
    }
  }

  /** A proof that folds to the root shows the leaf really stored there, and is the honest proof. */
  lemma {:induction false} FoldBinds(H: Compress, row: seq<Hash>, depth: nat, index: nat, leaf: Hash, proof: seq<Hash>)
    requires CollisionFree(H)
    requires |row| == Pow2(depth) && index < Pow2(depth) && |proof| == depth
    requires Fold(H, leaf, index, proof) == Root(H, row, depth)
    ensures row[index] == leaf && proof == Siblings(H, row, depth, index)
    decreases depth
  {
    if depth > 0 {
      var parent := Parent(H, leaf, proof[0], index);
      FoldBinds(H, Up(H, row, Pow2(depth - 1)), depth - 1, index / 2, parent, proof[1..]);
      ParentOpens(H, row, Pow2(depth - 1), index, leaf, proof[0]);
      assert proof == [proof[0]] + proof[1..];
    }
  }

  /** Membership proofs are sound and complete, and no leaf has two of them. */
  lemma {:induction false} ProofAcceptedExactly(H: Compress, row: seq<Hash>, depth: nat, index: nat, leaf: Hash,
                                                proof: seq<Hash>)
    requires CollisionFree(H)
    requires |row| == Pow2(depth) && index < Pow2(depth) && |proof| == depth
    ensures Fold(H, leaf, index, proof) == Root(H, row, depth)
       <==> row[index] == leaf && proof == Siblings(H, row, depth, index)
  {
    if Fold(H, leaf, index, proof) == Root(H, row, depth) {
      FoldBinds(H, row, depth, index, leaf, proof);
    }
    if row[index] == leaf && proof == Siblings(H, row, depth, index) {
      FoldRewrites(H, row, depth, index, leaf);
      assert row[index := leaf] == row;
    }
  }

  /** Whatever index and proof are submitted, if the old leaf folds to the current root then the
      new leaf folds to the root of the same row with that one leaf replaced. */
  lemma {:induction false} AcceptedProofRewritesOneLeaf(H: Compress, row: seq<Hash>, depth: nat, index: nat,
                                                        oldLeaf: Hash, newLeaf: Hash, proof: seq<Hash>)
    requires CollisionFree(H)
    requires |row| == Pow2(depth) && index < Pow2(depth) && |proof| == depth
    requires Fold(H, oldLeaf, index, proof) == Root(H, row, depth)
    ensures row[index] == oldLeaf
    ensures Fold(H, newLeaf, index, proof) == Root(H, row[index := newLeaf], depth)
  {
    FoldBinds(H, row, depth, index, oldLeaf, proof);
    FoldRewrites(H, row, depth, index, newLeaf);
  }

  /** Under a collision-free compression function the root determines every leaf. */
  lemma {:induction false} RootDeterminesLeaves(H: Compress, row: seq<Hash>, other: seq<Hash>, depth: nat)
    requires CollisionFree(H)
    requires |row| == |other| == Pow2(depth)
    requires Root(H, row, depth) == Root(H, other, depth)
    ensures row == other
    decreases depth
  {
    if depth > 0 {
      RootDeterminesLeaves(H, Up(H, row, Pow2(depth - 1)), Up(H, other, Pow2(depth - 1)), depth - 1);
      UpIsInjective(H, row, other, Pow2(depth - 1));
    }
  }
}
