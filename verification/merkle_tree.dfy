/**
 The Merkle trees of common/src/accumulator.rs, as pure values: the hash with its two
 prefixes, the root of a vector of leaf hashes, the heap array that stores the tree,
 authentication paths, and hash collisions as concrete pairs of inputs.
 */
module MerkleTree {
  import opened MachineInts

  /** A hash output (`HashOutput<32>`). */
  type Digest = d: bytes | |d| == 32 witness seq(32, _ => 0)

  /** The hash is a parameter: nothing is known of it, in particular not that it is injective. */
  type Hash = bytes -> Digest

  /** `hash_leaf`: a 0x00 byte comes before the element. */
  function HashLeaf(h: Hash, data: bytes): Digest {
    h([0x00] + data)
  }

  /** What is hashed for an internal node: a 0x01 byte comes before the two children. */
  function NodeInput(left: Digest, right: Digest): bytes {
    [0x01] + left + right
  }

  /** `hash_internal_node`. */
  function HashNode(h: Hash, left: Digest, right: Digest): Digest {
    h(NodeInput(left, right))
  }

  /** The 65 bytes are the prefix, the left and the right child, so both children can be read off them. */
  lemma NodeInputInjective(l0: Digest, r0: Digest, l1: Digest, r1: Digest)
    ensures NodeInput(l0, r0) == NodeInput(l1, r1) <==> l0 == l1 && r0 == r1
    ensures var input := NodeInput(l0, r0);
            |input| == 65 && input[0] == 0x01 && input[1..33] == l0 && input[33..] == r0
  {
    if NodeInput(l0, r0) == NodeInput(l1, r1) {
      assert l0 == NodeInput(l0, r0)[1..33] == NodeInput(l1, r1)[1..33] == l1;
      assert r0 == NodeInput(l0, r0)[33..] == NodeInput(l1, r1)[33..] == r1;
    }
  }

  // ---------------------------------------------------------------------------------------
  // Roots
  // ---------------------------------------------------------------------------------------

  /** One level up: the hashes of the neighbouring pairs. */
  function LevelUp(h: Hash, level: seq<Digest>): (up: seq<Digest>)
    requires |level| % 2 == 0
    ensures |up| == |level| / 2
    ensures forall i :: 0 <= i < |up| ==> up[i] == HashNode(h, level[2 * i], level[2 * i + 1])
  {
    seq(|level| / 2, i requires 0 <= i < |level| / 2 => HashNode(h, level[2 * i], level[2 * i + 1]))
  }

  /** The root of a vector of leaf hashes: go one level up until one hash is left. */
  ghost function Root(h: Hash, leaves: seq<Digest>): Digest
    requires IsPowerOfTwo(|leaves|)
    decreases |leaves|
  {
    if |leaves| == 1 then leaves[0] else Root(h, LevelUp(h, leaves))
  }

  lemma LevelUpConcat(h: Hash, a: seq<Digest>, b: seq<Digest>)
    requires |a| % 2 == 0 && |b| % 2 == 0
    ensures LevelUp(h, a + b) == LevelUp(h, a) + LevelUp(h, b)
  {
    var whole, parts := LevelUp(h, a + b), LevelUp(h, a) + LevelUp(h, b);
    forall i | 0 <= i < |whole| ensures whole[i] == parts[i] {
      if i < |a| / 2 {
        assert (a + b)[2 * i] == a[2 * i] && (a + b)[2 * i + 1] == a[2 * i + 1];
      } else {
        var j := i - |a| / 2;
        assert (a + b)[2 * i] == b[2 * j] && (a + b)[2 * i + 1] == b[2 * j + 1];
      }
    }
  }

  /** The same root from the top: hash the roots of the two halves. */
  lemma {:induction false} RootOfHalves(h: Hash, a: seq<Digest>, b: seq<Digest>)
    requires |a| == |b| && IsPowerOfTwo(|a|)
    ensures IsPowerOfTwo(|a + b|)
    ensures Root(h, a + b) == HashNode(h, Root(h, a), Root(h, b))
    decreases |a|
  {
    if |a| == 1 {
      var up := LevelUp(h, a + b);
      assert |up| == 1 && up[0] == HashNode(h, a[0], b[0]);
    } else {
      LevelUpConcat(h, a, b);
      RootOfHalves(h, LevelUp(h, a), LevelUp(h, b));
    }
  }

  /** The root in terms of the hash alone: a single leaf, or the hash of 0x01 and the roots of the two halves. */
  lemma RootByHash(h: Hash, leaves: seq<Digest>)
    requires IsPowerOfTwo(|leaves|)
    ensures |leaves| == 1 ==> Root(h, leaves) == leaves[0]
    ensures |leaves| > 1 ==>
              var half := |leaves| / 2;
              && IsPowerOfTwo(half) && |leaves| == 2 * half
              && Root(h, leaves) == h([0x01] + Root(h, leaves[..half]) + Root(h, leaves[half..]))
  {
    if |leaves| > 1 {
      var half := |leaves| / 2;
      RootOfHalves(h, leaves[..half], leaves[half..]);
      assert leaves == leaves[..half] + leaves[half..];
    }
  }

  // ---------------------------------------------------------------------------------------
  // The heap array
  // ---------------------------------------------------------------------------------------

  /** The value that belongs at position `i` of the heap array over `leaves`. */
  ghost function NodeAt(h: Hash, leaves: seq<Digest>, i: nat): Digest
    requires i < 2 * |leaves| - 1
    decreases 2 * |leaves| - i
  {
    if i >= |leaves| - 1 then leaves[i - (|leaves| - 1)]
    else HashNode(h, NodeAt(h, leaves, 2 * i + 1), NodeAt(h, leaves, 2 * i + 2))
  }

  /** The whole heap array over `leaves`. */
  ghost function Heap(h: Hash, leaves: seq<Digest>): (nodes: seq<Digest>)
    requires |leaves| > 0
    ensures |nodes| == 2 * |leaves| - 1
    ensures forall i {:trigger nodes[i]} :: 0 <= i < |nodes| ==> nodes[i] == NodeAt(h, leaves, i)
  {
    seq(2 * |leaves| - 1, i requires 0 <= i < 2 * |leaves| - 1 => NodeAt(h, leaves, i))
  }

  /** Above the leaves, the heap array is the heap array of the level above. */
  lemma {:induction false} NodeAtLevelUp(h: Hash, leaves: seq<Digest>, i: nat)
    requires |leaves| > 1 && |leaves| % 2 == 0 && i < |leaves| - 1
    ensures NodeAt(h, leaves, i) == NodeAt(h, LevelUp(h, leaves), i)
    decreases |leaves| - i
  {
    var n := |leaves|;
    if i < n / 2 - 1 {
      NodeAtLevelUp(h, leaves, 2 * i + 1);
      NodeAtLevelUp(h, leaves, 2 * i + 2);
    }
  }

  /** Position 0 of the heap array is the root. */
  lemma {:induction false} NodeAtZero(h: Hash, leaves: seq<Digest>)
    requires IsPowerOfTwo(|leaves|)
    ensures NodeAt(h, leaves, 0) == Root(h, leaves)
    decreases |leaves|
  {
    if |leaves| > 1 {
      NodeAtLevelUp(h, leaves, 0);
      NodeAtZero(h, LevelUp(h, leaves));
    }
  }

  /** `i` is `p` or an ancestor of `p` in the heap array. */
  ghost predicate OnPath(i: nat, p: nat)
    decreases p
  {
    i == p || (p > 0 && OnPath(i, (p - 1) / 2))
  }

  /** Replacing one leaf changes no node off its path to the root. */
  lemma {:induction false} NodeAtOffPath(h: Hash, leaves: seq<Digest>, index: nat, value: Digest, i: nat)
    requires index < |leaves| && i < 2 * |leaves| - 1
    requires !OnPath(i, |leaves| - 1 + index)
    ensures NodeAt(h, leaves[index := value], i) == NodeAt(h, leaves, i)
    decreases 2 * |leaves| - i
  {
    var p := |leaves| - 1 + index;
    if i < |leaves| - 1 {
      ChildOffPath(i, 2 * i + 1, p);
      ChildOffPath(i, 2 * i + 2, p);
      NodeAtOffPath(h, leaves, index, value, 2 * i + 1);
      NodeAtOffPath(h, leaves, index, value, 2 * i + 2);
    }
  }

  lemma {:induction false} ChildOffPath(i: nat, child: nat, p: nat)
    requires child > 0 && (child - 1) / 2 == i && !OnPath(i, p)
    ensures !OnPath(child, p)
    decreases p
  {
    if child != p && p > 0 {
      ChildOffPath(i, child, (p - 1) / 2);
    }
  }

  // ---------------------------------------------------------------------------------------
  // Authentication paths
  // ---------------------------------------------------------------------------------------

  /** The sibling of heap position `pos`. */
  function Sibling(pos: nat): nat
    requires pos > 0
  {
    if pos % 2 == 0 then pos - 1 else pos + 1
  }

  /** Combine a node with its sibling; the parity of the position says which is left. */
  function Parent(h: Hash, pos: nat, current: Digest, sibling: Digest): Digest {
    if pos % 2 == 0 then HashNode(h, sibling, current) else HashNode(h, current, sibling)
  }

  /** What is hashed there: after the prefix, the left child, which is the sibling at even positions. */
  lemma ParentByHash(h: Hash, pos: nat, current: Digest, sibling: Digest)
    ensures Parent(h, pos, current, sibling)
         == if pos % 2 == 0 then h([0x01] + sibling + current) else h([0x01] + current + sibling)
  {
  }

  /** The siblings met from heap position `pos` to the root of the tree over `leaves`. */
  ghost function PathFrom(h: Hash, leaves: seq<Digest>, pos: nat): seq<Digest>
    requires IsPowerOfTwo(|leaves|) && pos < 2 * |leaves| - 1
    decreases pos
  {
    if pos == 0 then [] else
      SiblingInTree(|leaves|, pos);
      [NodeAt(h, leaves, Sibling(pos))] + PathFrom(h, leaves, (pos - 1) / 2)
  }

  lemma SiblingInTree(n: nat, pos: nat)
    requires IsPowerOfTwo(n) && 0 < pos < 2 * n - 1
    ensures Sibling(pos) < 2 * n - 1
  {
  }

  lemma PathFromUnfold(h: Hash, leaves: seq<Digest>, pos: nat)
    requires IsPowerOfTwo(|leaves|) && 0 < pos < 2 * |leaves| - 1
    ensures Sibling(pos) < 2 * |leaves| - 1
    ensures PathFrom(h, leaves, pos) == [NodeAt(h, leaves, Sibling(pos))] + PathFrom(h, leaves, (pos - 1) / 2)
  {
    SiblingInTree(|leaves|, pos);
  }

  /** The number of steps from heap position `pos` to the root. */
  ghost function Depth(pos: nat): nat
    decreases pos
  {
    if pos == 0 then 0 else 1 + Depth((pos - 1) / 2)
  }

  /** Hash upwards from heap position `pos` along `siblings`. */
  ghost function Climb(h: Hash, pos: nat, current: Digest, siblings: seq<Digest>): Digest
    requires |siblings| == Depth(pos)
    decreases pos
  {
    if pos == 0 then current
    else Climb(h, (pos - 1) / 2, Parent(h, pos, current, siblings[0]), siblings[1..])
  }

  /** A node and its sibling hash to the node above. */
  lemma NodeAtParent(h: Hash, leaves: seq<Digest>, pos: nat)
    requires IsPowerOfTwo(|leaves|) && 0 < pos < 2 * |leaves| - 1
    ensures Sibling(pos) < 2 * |leaves| - 1
    ensures Parent(h, pos, NodeAt(h, leaves, pos), NodeAt(h, leaves, Sibling(pos)))
         == NodeAt(h, leaves, (pos - 1) / 2)
  {
    var up := (pos - 1) / 2;
    assert up < |leaves| - 1;
    if pos % 2 == 0 {
      assert pos == 2 * up + 2 && Sibling(pos) == 2 * up + 1;
    } else {
      assert pos == 2 * up + 1 && Sibling(pos) == 2 * up + 2;
    }
  }

  /** Climbing from a node along its own path gives the root. */
  lemma {:induction false} ClimbPath(h: Hash, leaves: seq<Digest>, pos: nat)
    requires IsPowerOfTwo(|leaves|) && pos < 2 * |leaves| - 1
    ensures |PathFrom(h, leaves, pos)| == Depth(pos)
    ensures Climb(h, pos, NodeAt(h, leaves, pos), PathFrom(h, leaves, pos)) == Root(h, leaves)
    decreases pos
  {
    if pos == 0 {
      NodeAtZero(h, leaves);
    } else {
      var up := (pos - 1) / 2;
      NodeAtParent(h, leaves, pos);
      ClimbPath(h, leaves, up);
      ClimbUnfold(h, pos, NodeAt(h, leaves, pos), NodeAt(h, leaves, Sibling(pos)), PathFrom(h, leaves, up));
    }
  }

  lemma {:induction false} ClimbUnfold(h: Hash, pos: nat, current: Digest, sibling: Digest, rest: seq<Digest>)
    requires pos > 0 && |rest| == Depth((pos - 1) / 2)
    ensures Climb(h, pos, current, [sibling] + rest) == Climb(h, (pos - 1) / 2, Parent(h, pos, current, sibling), rest)
  {
    assert ([sibling] + rest)[1..] == rest;
  }

  lemma {:induction false} OnPathBelow(i: nat, p: nat)
    requires OnPath(i, p)
    ensures i <= p
    decreases p
  {
    if i != p {
      OnPathBelow(i, (p - 1) / 2);
    }
  }

  lemma {:induction false} OnPathTransitive(i: nat, j: nat, p: nat)
    requires OnPath(i, j) && OnPath(j, p)
    ensures OnPath(i, p)
    decreases p
  {
    if j != p {
      OnPathTransitive(i, j, (p - 1) / 2);
    }
  }

  /** On one path, the positions are ordered: each is the ancestor of the larger ones. */
  lemma {:induction false} OnPathOrdered(i: nat, j: nat, p: nat)
    requires OnPath(i, p) && OnPath(j, p) && i <= j
    ensures OnPath(i, j)
    decreases p
  {
    if j != p {
      if i == p {
        OnPathBelow(j, (p - 1) / 2);
      }
      OnPathOrdered(i, j, (p - 1) / 2);
    }
  }

  /** The siblings of the nodes on a path lie off the path. */
  lemma SiblingOffPath(pos: nat, p: nat)
    requires OnPath(pos, p) && pos > 0
    ensures !OnPath(Sibling(pos), p)
  {
    var s := Sibling(pos);
    if OnPath(s, p) {
      if s <= pos {
        OnPathOrdered(s, pos, p);
        OnPathBelow(s, (pos - 1) / 2);
      } else {
        OnPathOrdered(pos, s, p);
        OnPathBelow(pos, (s - 1) / 2);
      }
    }
  }

  /** The path of a leaf does not depend on that leaf's own value. */
  lemma {:induction false} PathIgnoresOwnLeaf(h: Hash, leaves: seq<Digest>, index: nat, value: Digest, pos: nat)
    requires IsPowerOfTwo(|leaves|) && index < |leaves| && OnPath(pos, |leaves| - 1 + index)
    requires pos < 2 * |leaves| - 1
    ensures PathFrom(h, leaves[index := value], pos) == PathFrom(h, leaves, pos)
    decreases pos
  {
    if pos > 0 {
      var p := |leaves| - 1 + index;
      SiblingOffPath(pos, p);
      SiblingInTree(|leaves|, pos);
      NodeAtOffPath(h, leaves, index, value, Sibling(pos));
      OnPathTransitive((pos - 1) / 2, pos, p) by {
        assert OnPath((pos - 1) / 2, (pos - 1) / 2);
      }
      PathIgnoresOwnLeaf(h, leaves, index, value, (pos - 1) / 2);
    }
  }
}
