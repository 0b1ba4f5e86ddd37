/**
 Inclusion proofs for an index that the tree does not have. The verifier does not check the index, but
 a tree over known contents has no such proof without a collision between a leaf and an internal node,
 or between two internal nodes: this is what the prefixes 0x00 and 0x01 are for.
 */
module OutOfRange {
  import opened MachineInts
  import opened MerkleTree
  import opened ProofVerifier
  import opened Accumulator

  /**
   An index out of range is accepted in two cases only. With one leaf, `verified` starts as true for
   the root itself and stays so while too few siblings are fed; otherwise the siblings climb, from
   below the leaves, to the root.
   */
  lemma OutOfRangeAccepted(h: Hash, root: Digest, proof: seq<Digest>, value: Digest, index: nat, size: nat)
    requires IsPowerOfTwo(size) && index >= size
    ensures Depth(size - 1 + index) > Log2(size)
    ensures Accepts(h, root, proof, value, index, size)
       <==> || ShortProof(root, proof, value, index, size)
            || (|proof| == Depth(size - 1 + index) && Climb(h, size - 1 + index, value, proof) == root)
  {
    DeeperThanLeaves(size, size - 1 + index);
  }

  lemma {:induction false} DeeperThanLeaves(size: nat, pos: nat)
    requires IsPowerOfTwo(size) && pos >= 2 * size - 1
    ensures Depth(pos) > Log2(size)
  {
    var up := (pos - 1) / 2;
    if up < 2 * size - 1 {
      DepthOfLeaf(size, up - (size - 1));
    } else {
      DeeperThanLeaves(size, up);
    }
  }

  /** The first case: one leaf, its own hash as the root, and too few siblings. */
  ghost predicate ShortProof(root: Digest, proof: seq<Digest>, value: Digest, index: nat, size: nat) {
    size == 1 && value == root && |proof| < Depth(size - 1 + index)
  }

  /** The first case occurs: a tree with one leaf has proofs for the indices 1 and 3. */
  lemma ShortProofsExist(h: Hash, leaf: Digest, sibling: Digest)
    ensures Accepts(h, Root(h, [leaf]), [], leaf, 1, 1)
    ensures Accepts(h, Root(h, [leaf]), [sibling], leaf, 3, 1)
  {
    assert Depth(1) == 1 && Depth(3) == 2;
  }

  /** Where a climb from below the leaves enters the tree: the position, the hashed input, and what is left. */
  ghost function Entrance(h: Hash, size: nat, pos: nat, current: Digest, siblings: seq<Digest>)
    : (e: (nat, bytes, seq<Digest>))
    requires IsPowerOfTwo(size) && pos >= 2 * size - 1 && |siblings| == Depth(pos)
    ensures size - 1 <= e.0 < 2 * size - 1 && |e.1| == 65 && e.1[0] == 0x01
    ensures |e.2| == Depth(e.0) && Climb(h, e.0, h(e.1), e.2) == Climb(h, pos, current, siblings)
  {
    var up := (pos - 1) / 2;
    if up < 2 * size - 1 then (up, ParentInput(pos, current, siblings[0]), siblings[1..])
    else Entrance(h, size, up, Parent(h, pos, current, siblings[0]), siblings[1..])
  }

  /** The collision computed from a full climb to the root of known contents. */
  ghost function CollisionBelowLeaves(h: Hash, data: seq<bytes>, proof: seq<Digest>, value: Digest, index: nat)
    : (pair: (bytes, bytes))
    requires IsPowerOfTwo(|data|) && index >= |data|
    requires |proof| == Depth(|data| - 1 + index)
    requires Climb(h, |data| - 1 + index, value, proof) == Root(h, LeafHashes(h, data))
    ensures IsCollision(h, pair)
    ensures |pair.0| > 0 && |pair.1| == 65 && pair.1[0] == 0x01
    ensures (pair.0[0] == 0x00 && pair.0[1..] in data) || (pair.0[0] == 0x01 && |pair.0| == 65)
  {
    var leaves := LeafHashes(h, data);
    var (pos, input, rest) := Entrance(h, |data|, |data| - 1 + index, value, proof);
    var leaf := pos - (|data| - 1);
    if h(input) == leaves[leaf] then
      assert ([0x00] + data[leaf])[1..] == data[leaf];
      ([0x00] + data[leaf], input)
    else
      HonestProofAccepted(h, leaves, leaf);
      AcceptsExactLength(h, Root(h, leaves), rest, h(input), leaf, |data|);
      DepthOfLeaf(|data|, leaf);
      CollisionOfProofs(h, Root(h, leaves), |data|, leaf, leaves[leaf], LeafPath(h, leaves, leaf), h(input), rest)
  }

  /**
   A proof for an index out of range, accepted for the root of known contents: unless the tree has one
   leaf and the proof is too short, two inputs collide, an internal node and a leaf or another node.
   */
  lemma OutOfRangeCollides(h: Hash, data: seq<bytes>, proof: seq<Digest>, value: Digest, index: nat)
    requires IsPowerOfTwo(|data|) && index >= |data|
    requires Accepts(h, Root(h, LeafHashes(h, data)), proof, value, index, |data|)
    ensures || ShortProof(HashLeaf(h, data[0]), proof, value, index, |data|)
            || (&& |proof| == Depth(|data| - 1 + index)
                && Climb(h, |data| - 1 + index, value, proof) == Root(h, LeafHashes(h, data))
                && IsCollision(h, CollisionBelowLeaves(h, data, proof, value, index)))
  {
    OutOfRangeAccepted(h, Root(h, LeafHashes(h, data)), proof, value, index, |data|);
  }
}
