/** The prover's side of common/src/accumulator.rs: the vector and its Merkle tree in a heap array. */
module Accumulator {
  import opened MachineInts
  import opened MerkleTree
  import opened ProofVerifier

  datatype AccumulatorError = IndexOutOfBounds

  function LeafHashes(h: Hash, data: seq<bytes>): (leaves: seq<Digest>)
    ensures |leaves| == |data|
    ensures forall i :: 0 <= i < |data| ==> leaves[i] == HashLeaf(h, data[i])
  {
    seq(|data|, i requires 0 <= i < |data| => HashLeaf(h, data[i]))
  }

  lemma LeafHashesUpdate(h: Hash, data: seq<bytes>, index: nat, value: bytes)
    requires index < |data|
    ensures LeafHashes(h, data[index := value]) == LeafHashes(h, data)[index := HashLeaf(h, value)]
  {
  }

  /** In the heap array, a node above the leaves is the hash of its two children. */
  lemma HeapNode(h: Hash, leaves: seq<Digest>, i: nat)
    requires i < |leaves| - 1
    ensures Heap(h, leaves)[i] == HashNode(h, Heap(h, leaves)[2 * i + 1], Heap(h, leaves)[2 * i + 2])
  {
  }

  /** The last half of the heap array is the leaves. */
  lemma HeapLeaf(h: Hash, leaves: seq<Digest>, i: nat)
    requires |leaves| - 1 <= i < 2 * |leaves| - 1
    ensures Heap(h, leaves)[i] == leaves[i - (|leaves| - 1)]
  {
  }

  /**
   The array is the tree of the elements, in terms of the hash alone: leaves are hashed after a 0x00 byte,
   and the left and the right child after a 0x01 byte.
   */
  ghost predicate IsHashTree(h: Hash, data: seq<bytes>, nodes: seq<Digest>) {
    && |data| > 0 && |nodes| == 2 * |data| - 1
    && (forall i :: 0 <= i < |data| ==> nodes[|data| - 1 + i] == h([0x00] + data[i]))
    && (forall i :: 0 <= i < |data| - 1 ==> nodes[i] == h([0x01] + nodes[2 * i + 1] + nodes[2 * i + 2]))
  }

  lemma HeapIsHashTree(h: Hash, data: seq<bytes>)
    requires |data| > 0
    ensures IsHashTree(h, data, Heap(h, LeafHashes(h, data)))
  {
    var leaves := LeafHashes(h, data);
    var nodes := Heap(h, leaves);
    forall i | 0 <= i < |data| ensures nodes[|data| - 1 + i] == h([0x00] + data[i]) {
      HeapLeaf(h, leaves, |data| - 1 + i);
    }
    forall i | 0 <= i < |data| - 1 ensures nodes[i] == h([0x01] + nodes[2 * i + 1] + nodes[2 * i + 2]) {
      HeapNode(h, leaves, i);
    }
  }

  /** The tree of two elements. */
  lemma TwoElements(h: Hash, data: seq<bytes>, nodes: seq<Digest>)
    requires IsHashTree(h, data, nodes) && |data| == 2
    ensures nodes[0] == h([0x01] + h([0x00] + data[0]) + h([0x00] + data[1]))
  {
    assert nodes[|data| - 1 + 0] == h([0x00] + data[0]) && nodes[|data| - 1 + 1] == h([0x00] + data[1]);
    assert nodes[0] == h([0x01] + nodes[2 * 0 + 1] + nodes[2 * 0 + 2]);
  }

  /** Strictly between a path node and its parent there are no nodes of the path. */
  lemma BetweenOffPath(pos: nat, i: nat, p: nat)
    requires OnPath(pos, p) && pos > 0 && (pos - 1) / 2 < i < pos
    ensures !OnPath(i, p)
  {
    if OnPath(i, p) {
      OnPathOrdered(i, pos, p);
      OnPathBelow(i, (pos - 1) / 2);
    }
  }

  lemma ParentOnPath(pos: nat, p: nat)
    requires OnPath(pos, p) && pos > 0
    ensures OnPath((pos - 1) / 2, p)
  {
    assert OnPath((pos - 1) / 2, (pos - 1) / 2);
    OnPathTransitive((pos - 1) / 2, pos, p);
  }

  /** The honest path of an index: what `prove` returns. */
  ghost function LeafPath(h: Hash, leaves: seq<Digest>, index: nat): seq<Digest>
    requires IsPowerOfTwo(|leaves|) && index < |leaves|
  {
    PathFrom(h, leaves, |leaves| - 1 + index)
  }

  /** One step of the loop of `prove`. */
  lemma PathStepUp(h: Hash, leaves: seq<Digest>, pos: nat, proof: seq<Digest>)
    requires IsPowerOfTwo(|leaves|) && 0 < pos < 2 * |leaves| - 1
    ensures Sibling(pos) < 2 * |leaves| - 1
    ensures proof + PathFrom(h, leaves, pos)
         == (proof + [NodeAt(h, leaves, Sibling(pos))]) + PathFrom(h, leaves, (pos - 1) / 2)
  {
    PathFromUnfold(h, leaves, pos);
    ConcatAssociative(proof, [NodeAt(h, leaves, Sibling(pos))], PathFrom(h, leaves, (pos - 1) / 2));
  }

  lemma LeafNode(h: Hash, leaves: seq<Digest>, index: nat)
    requires index < |leaves|
    ensures NodeAt(h, leaves, |leaves| - 1 + index) == leaves[index]
  {
  }

  lemma AcceptedPath(h: Hash, root: Digest, path: seq<Digest>, value: Digest, index: nat, size: nat, pos: nat)
    requires IsPowerOfTwo(size) && index < size && pos == size - 1 + index
    requires |path| == Depth(pos) && Climb(h, pos, value, path) == root
    ensures Accepts(h, root, path, value, index, size)
  {
    AcceptsExactLength(h, root, path, value, index, size);
  }

  lemma NodePathAccepted(h: Hash, leaves: seq<Digest>, index: nat, pos: nat, value: Digest, path: seq<Digest>)
    requires IsPowerOfTwo(|leaves|) && index < |leaves| && pos == |leaves| - 1 + index
    requires value == NodeAt(h, leaves, pos) && path == PathFrom(h, leaves, pos)
    ensures Accepts(h, Root(h, leaves), path, value, index, |leaves|)
  {
    ClimbPath(h, leaves, pos);
    AcceptedPath(h, Root(h, leaves), path, value, index, |leaves|, pos);
  }

  /** The honest path is accepted, with the root of the leaves and the value at the index. */
  lemma HonestProofAccepted(h: Hash, leaves: seq<Digest>, index: nat)
    requires IsPowerOfTwo(|leaves|) && index < |leaves|
    ensures Accepts(h, Root(h, leaves), LeafPath(h, leaves, index), leaves[index], index, |leaves|)
  {
    var path := LeafPath(h, leaves, index);
    LeafNode(h, leaves, index);
    NodePathAccepted(h, leaves, index, |leaves| - 1 + index, leaves[index], path);
  }

  lemma SamePathAfterUpdate(h: Hash, leaves: seq<Digest>, index: nat, value: Digest)
    requires IsPowerOfTwo(|leaves|) && index < |leaves|
    ensures LeafPath(h, leaves[index := value], index) == LeafPath(h, leaves, index)
  {
    var p := |leaves| - 1 + index;
    assert OnPath(p, p);
    PathIgnoresOwnLeaf(h, leaves, index, value, p);
  }

  /** The path of an index serves before and after the value at that index is replaced. */
  lemma HonestUpdateAccepted(h: Hash, leaves: seq<Digest>, index: nat, value: Digest)
    requires IsPowerOfTwo(|leaves|) && index < |leaves|
    ensures LeafPath(h, leaves[index := value], index) == LeafPath(h, leaves, index)
    ensures AcceptsUpdate(h, Root(h, leaves), Root(h, leaves[index := value]), LeafPath(h, leaves, index),
                          leaves[index], value, index, |leaves|)
  {
    var after := leaves[index := value];
    assert Accepts(h, Root(h, leaves), LeafPath(h, leaves, index), leaves[index], index, |leaves|) by {
      HonestProofAccepted(h, leaves, index);
    }
    assert Accepts(h, Root(h, after), LeafPath(h, after, index), after[index], index, |after|) by {
      HonestProofAccepted(h, after, index);
    }
    SamePathAfterUpdate(h, leaves, index, value);
  }

  /** Two heap arrays are equal except at `p` and its ancestors. */
  ghost predicate ChangedOnPathOnly(before: seq<Digest>, after: seq<Digest>, p: nat) {
    && |before| == |after|
    && forall i :: 0 <= i < |before| && before[i] != after[i] ==> OnPath(i, p)
  }

  /**
   What `update` returns when it replaces `data[index]` by `value`: the proof that `prove` gives for
   the index, before as after, and the new root; the update verifier accepts them.
   */
  ghost predicate Updated(h: Hash, data: seq<bytes>, index: nat, value: bytes, proof: seq<Digest>, newRoot: Digest)
    requires IsPowerOfTwo(|data|) && index < |data|
  {
    var before, after := LeafHashes(h, data), LeafHashes(h, data[index := value]);
    && proof == LeafPath(h, before, index) == LeafPath(h, after, index)
    && newRoot == Root(h, after)
    && AcceptsUpdate(h, Root(h, before), newRoot, proof, HashLeaf(h, data[index]), HashLeaf(h, value), index, |data|)
  }

  lemma UpdatedHolds(h: Hash, data: seq<bytes>, index: nat, value: bytes)
    requires IsPowerOfTwo(|data|) && index < |data|
    ensures LeafHashes(h, data[index := value]) == LeafHashes(h, data)[index := HashLeaf(h, value)]
    ensures Updated(h, data, index, value, LeafPath(h, LeafHashes(h, data), index),
                    Root(h, LeafHashes(h, data[index := value])))
  {
    LeafHashesUpdate(h, data, index, value);
    HonestUpdateAccepted(h, LeafHashes(h, data), index, HashLeaf(h, value));
  }

  class MerkleAccumulator {
    const h: Hash
    var data: seq<bytes>
    var tree: array<Digest>

    ghost predicate Valid()
      reads this, tree
    {
      && IsPowerOfTwo(|data|)
      && tree[..] == Heap(h, LeafHashes(h, data))
    }

    /** `new`, which panics unless the number of leaves is a power of two. */
    constructor (h: Hash, data: seq<bytes>)
      requires IsPowerOfTwo(|data|)
      ensures Valid() && fresh(tree) && IsHashTree(h, data, tree[..])
      ensures this.h == h && this.data == data
    {
      this.h, this.data := h, data;
      this.tree := new Digest[0];
      new;
      BuildTree();
    }

    /** `build_tree`. */
    method BuildTree()
      requires IsPowerOfTwo(|data|)
      modifies this`tree
      ensures Valid() && fresh(tree) && IsHashTree(h, data, tree[..])
      ensures |data| == 2 ==> tree[0] == h([0x01] + h([0x00] + data[0]) + h([0x00] + data[1]))
    {
      var n := |data|;
      var leaves := LeafHashes(h, data);
      tree := new Digest[2 * n - 1](_ => Zeros(32));
      for i := 0 to n
        invariant fresh(tree) && tree.Length == 2 * n - 1
        invariant tree[n - 1..n - 1 + i] == leaves[..i]
      {
        tree[n - 1 + i] := leaves[i];
      }
      assert forall j :: n - 1 <= j < 2 * n - 1 ==> tree[j] == tree[n - 1..n - 1 + n][j - (n - 1)];
      HashUpwards(leaves);
      HeapIsHashTree(h, data);
      if n == 2 {
        TwoElements(h, data, tree[..]);
      }
    }

    /** The second loop of `build_tree`: every node above the leaves, from the last to the first. */
    method HashUpwards(ghost leaves: seq<Digest>)
      requires |leaves| > 0 && tree.Length == 2 * |leaves| - 1
      requires forall j :: |leaves| - 1 <= j < tree.Length ==> tree[j] == leaves[j - (|leaves| - 1)]
      modifies tree
      ensures tree[..] == Heap(h, leaves)
    {
      ghost var nodes := Heap(h, leaves);
      for i := tree.Length / 2 downto 0
        invariant forall j :: i <= j < tree.Length ==> tree[j] == nodes[j]
      {
        HeapNode(h, leaves, i);
        tree[i] := HashNode(h, tree[2 * i + 1], tree[2 * i + 2]);
      }
    }

    /** `get`. */
    function Get(index: nat): (r: Option<bytes>)
      reads this
      ensures r.Some? <==> index < |data|
      ensures r.Some? ==> r.value == data[index]
    {
      if index < |data| then Some(data[index]) else None
    }

    /** `root`: position 0 of the array is the root of the leaf hashes. */
    function GetRoot(): (root: Digest)
      requires Valid()
      reads this, tree
      ensures root == Root(h, LeafHashes(h, data))
    {
      NodeAtZero(h, LeafHashes(h, data));
      assert tree[..][0] == NodeAt(h, LeafHashes(h, data), 0);
      tree[0]
    }

    /** `prove`: the honest path, which verifies with the root and the hash of the element. */
    method Prove(index: nat) returns (r: Result<seq<Digest>, AccumulatorError>)
      requires Valid()
      ensures index >= |data| ==> r == Err(IndexOutOfBounds)
      ensures index < |data| ==>
                && r == Ok(LeafPath(h, LeafHashes(h, data), index))
                && Accepts(h, Root(h, LeafHashes(h, data)), r.value, HashLeaf(h, data[index]), index, |data|)
    {
      if index >= |data| {
        return Err(IndexOutOfBounds);
      }
      ghost var leaves := LeafHashes(h, data);
      var proof: seq<Digest> := [];
      var n := |data|;
      var pos: nat := n - 1 + index;
      assert proof + LeafPath(h, leaves, index) == LeafPath(h, leaves, index);
      while pos > 0
        invariant pos < tree.Length
        invariant proof + PathFrom(h, leaves, pos) == LeafPath(h, leaves, index)
      {
        PathStepUp(h, leaves, pos, proof);
        if pos % 2 == 0 {
          proof := proof + [tree[pos - 1]];
        } else {
          proof := proof + [tree[pos + 1]];
        }
        pos := (pos - 1) / 2;
      }
      assert proof + [] == proof;
      HonestProofAccepted(h, leaves, index);
      r := Ok(proof);
    }

    /**
     `update`. Only the nodes on the path of the index are written, and yet the whole array is the
     one `build_tree` makes for the new data.
     */
    method Update(index: nat, value: bytes) returns (r: Result<(seq<Digest>, Digest), AccumulatorError>)
      requires Valid()
      modifies this`data, tree
      ensures Valid() && tree == old(tree)
      ensures index >= |old(data)| ==>
                r == Err(IndexOutOfBounds) && data == old(data) && tree[..] == old(tree[..])
      ensures index < |old(data)| ==>
                && data == old(data)[index := value] && r.Ok?
                && Updated(h, old(data), index, value, r.value.0, r.value.1)
                && ChangedOnPathOnly(old(tree[..]), tree[..], |data| - 1 + index)
    {
      if index >= |data| {
        return Err(IndexOutOfBounds);
      }
      var proved := Prove(index);
      UpdatedHolds(h, data, index, value);
      StoreLeaf(index, value);
      r := Ok((proved.value, GetRoot()));
    }

    /** The writes of `update`: the element, its leaf, and the nodes above it. */
    method StoreLeaf(index: nat, value: bytes)
      requires Valid() && index < |data|
      modifies this`data, tree
      ensures Valid() && tree == old(tree) && data == old(data)[index := value]
      ensures ChangedOnPathOnly(old(tree[..]), tree[..], |data| - 1 + index)
    {
      ghost var before := LeafHashes(h, data);
      ghost var newNodes := Heap(h, before[index := HashLeaf(h, value)]);
      ReplacedLeaf(h, before, index, HashLeaf(h, value));
      LeafHashesUpdate(h, data, index, value);
      data := data[index := value];
      RehashPath(|data| - 1 + index, HashLeaf(h, data[index]), Heap(h, before), newNodes);
    }

    /** The loop of `update`: rehash from the changed leaf at position `p` to the root. */
    method RehashPath(p: nat, leaf: Digest, ghost oldNodes: seq<Digest>, ghost newNodes: seq<Digest>)
      requires tree[..] == oldNodes && LeafReplaced(h, oldNodes, newNodes, p, leaf)
      modifies tree
      ensures tree[..] == newNodes
      ensures ChangedOnPathOnly(old(tree[..]), tree[..], p)
    {
      var pos := p;
      tree[pos] := leaf;
      while pos > 0
        invariant Rehashed(oldNodes, newNodes, tree[..], pos, p)
      {
        assert PathStep(h, oldNodes, newNodes, pos);
        ghost var nodes := tree[..];
        var up := (pos - 1) / 2;
        tree[up] := HashNode(h, tree[2 * up + 1], tree[2 * up + 2]);
        RehashNext(h, oldNodes, newNodes, nodes, pos, p, tree[..]);
        pos := up;
      }
    }
  }

  /** At any time, so also after any updates, the array of an accumulator is the tree of its elements. */
  lemma ValidIsHashTree(accumulator: MerkleAccumulator)
    requires accumulator.Valid()
    ensures IsHashTree(accumulator.h, accumulator.data, accumulator.tree[..])
  {
    HeapIsHashTree(accumulator.h, accumulator.data);
  }

  /** The new nodes differ from the old ones at the leaf at position `p` and, step by step, above it. */
  ghost predicate LeafReplaced(h: Hash, oldNodes: seq<Digest>, newNodes: seq<Digest>, p: nat, leaf: Digest) {
    && p < |oldNodes| == |newNodes| && newNodes[p] == leaf
    && (forall i :: p < i < |newNodes| ==> newNodes[i] == oldNodes[i])
    && (forall pos :: pos > 0 && OnPath(pos, p) ==> PathStep(h, oldNodes, newNodes, pos))
  }

  /** In the loop of `update` the nodes from `pos` on are new, the ones before it are old. */
  ghost predicate Rehashed(oldNodes: seq<Digest>, newNodes: seq<Digest>, nodes: seq<Digest>, pos: nat, p: nat) {
    && |nodes| == |oldNodes| == |newNodes| && pos < |nodes| && OnPath(pos, p)
    && (forall i :: pos <= i < |nodes| ==> nodes[i] == newNodes[i])
    && (forall i :: 0 <= i < pos ==> nodes[i] == oldNodes[i])
    && ChangedOnPathOnly(oldNodes, nodes, p)
  }

  lemma RehashNext(h: Hash, oldNodes: seq<Digest>, newNodes: seq<Digest>, nodes: seq<Digest>, pos: nat, p: nat,
                   next: seq<Digest>)
    requires Rehashed(oldNodes, newNodes, nodes, pos, p) && pos > 0 && PathStep(h, oldNodes, newNodes, pos)
    requires var up := (pos - 1) / 2; next == nodes[up := HashNode(h, nodes[2 * up + 1], nodes[2 * up + 2])]
    ensures Rehashed(oldNodes, newNodes, next, (pos - 1) / 2, p)
  {
    ParentOnPath(pos, p);
  }

  /**
   What one step of `update` relies on: the parent of `pos` is the hash of its children, and the
   sibling of `pos` and the nodes between `pos` and its parent do not change.
   */
  ghost predicate PathStep(h: Hash, oldNodes: seq<Digest>, newNodes: seq<Digest>, pos: nat)
    requires pos > 0
  {
    var up := (pos - 1) / 2;
    && |oldNodes| == |newNodes|
    && 2 * up + 2 < |newNodes| && newNodes[up] == HashNode(h, newNodes[2 * up + 1], newNodes[2 * up + 2])
    && newNodes[Sibling(pos)] == oldNodes[Sibling(pos)]
    && forall i :: up < i < pos && i < |newNodes| ==> newNodes[i] == oldNodes[i]
  }

  /** Replacing one leaf meets these conditions on the whole path of the leaf. */
  lemma ReplacedLeaf(h: Hash, before: seq<Digest>, index: nat, value: Digest)
    requires IsPowerOfTwo(|before|) && index < |before|
    ensures LeafReplaced(h, Heap(h, before), Heap(h, before[index := value]), |before| - 1 + index, value)
  {
    var p, olds, news := |before| - 1 + index, Heap(h, before), Heap(h, before[index := value]);
    HeapLeaf(h, before[index := value], p);
    forall i | p < i < |news| ensures news[i] == olds[i] {
      HeapLeaf(h, before[index := value], i);
      HeapLeaf(h, before, i);
    }
    forall pos | pos > 0 && OnPath(pos, p) ensures PathStep(h, olds, news, pos) {
      OnPathBelow(pos, p);
      ReplacedLeafStep(h, before, index, value, pos);
    }
  }

  lemma ReplacedLeafStep(h: Hash, before: seq<Digest>, index: nat, value: Digest, pos: nat)
    requires IsPowerOfTwo(|before|) && index < |before|
    requires 0 < pos < 2 * |before| - 1 && OnPath(pos, |before| - 1 + index)
    ensures PathStep(h, Heap(h, before), Heap(h, before[index := value]), pos)
  {
    var p := |before| - 1 + index;
    SiblingInTree(|before|, pos);
    SiblingOffPath(pos, p);
    NodeAtOffPath(h, before, index, value, Sibling(pos));
    HeapNode(h, before[index := value], (pos - 1) / 2);
    forall i | (pos - 1) / 2 < i < pos
      ensures Heap(h, before[index := value])[i] == Heap(h, before)[i]
    {
      BetweenOffPath(pos, i, p);
      NodeAtOffPath(h, before, index, value, i);
    }
  }
}
