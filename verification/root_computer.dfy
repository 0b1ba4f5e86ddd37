/**
 `MerkleAccumulatorRootComputer` of common/src/accumulator.rs: the root from a stream of leaf hashes,
 with a stack whose depth follows the binary digits of the number of leaves so far.
 */
module RootComputer {
  import opened MachineInts
  import opened MerkleTree
  import opened Accumulator

  // ---------------------------------------------------------------------------------------
  // Binary digits
  // ---------------------------------------------------------------------------------------

  /** `trailing_zeros`. */
  function TrailingZeros(k: nat): nat
    requires k > 0
  {
    if k % 2 == 1 then 0 else 1 + TrailingZeros(k / 2)
  }

  /** The number of ones in the binary representation of `k`. */
  ghost function PopCount(k: nat): nat {
    if k == 0 then 0 else k % 2 + PopCount(k / 2)
  }

  /** The value of the lowest one bit of `k`. */
  ghost function LowBit(k: nat): (b: nat)
    requires k > 0
    ensures 0 < b <= k && IsPowerOfTwo(b)
  {
    if k % 2 == 1 then 1 else 2 * LowBit(k / 2)
  }

  lemma {:induction false} LowBitIsPow2(k: nat)
    requires k > 0
    ensures LowBit(k) == Pow2(TrailingZeros(k))
  {
    if k % 2 == 0 {
      LowBitIsPow2(k / 2);
    }
  }

  /** Dropping the lowest one bit drops one from the count of ones. */
  lemma {:induction false} PopCountDropsLowBit(k: nat)
    requires k > 0
    ensures PopCount(k) == 1 + PopCount(k - LowBit(k))
  {
    if k % 2 == 0 {
      PopCountDropsLowBit(k / 2);
      assert (k - LowBit(k)) / 2 == k / 2 - LowBit(k / 2);
    } else {
      assert (k - 1) / 2 == k / 2;
    }
  }

  /** Counting up by one turns the trailing ones into zeros, and adds one. */
  lemma {:induction false} PopCountOfNext(k: nat)
    ensures PopCount(k + 1) + TrailingZeros(k + 1) == PopCount(k) + 1
  {
    if k % 2 == 1 {
      PopCountOfNext(k / 2);
      assert (k + 1) / 2 == k / 2 + 1;
    } else {
      assert (k + 1) / 2 == k / 2;
    }
  }

  /** Below the lowest one bit of `k`, each power of two is the lowest one bit of `k` minus it. */
  lemma {:induction false} LowBitBelow(k: nat, j: nat)
    requires k > 0 && j < TrailingZeros(k)
    ensures Pow2(j) < k && LowBit(k - Pow2(j)) == Pow2(j)
    ensures 2 * Pow2(j) <= k
  {
    if j > 0 {
      LowBitBelow(k / 2, j - 1);
      assert (k - Pow2(j)) / 2 == k / 2 - Pow2(j - 1);
    }
  }

  lemma {:induction false} LowBitOfPowerOfTwo(n: nat)
    requires IsPowerOfTwo(n)
    ensures LowBit(n) == n && PopCount(n) == 1
  {
    if n > 1 {
      LowBitOfPowerOfTwo(n / 2);
    }
  }

  // ---------------------------------------------------------------------------------------
  // The stack
  // ---------------------------------------------------------------------------------------

  /**
   The stack after `leaves`: one root per one bit of their number, largest block first. The last
   block has as many leaves as the lowest one bit says.
   */
  ghost function StackOf(h: Hash, leaves: seq<Digest>): seq<Digest>
    decreases |leaves|
  {
    if leaves == [] then []
    else
      var rest := |leaves| - LowBit(|leaves|);
      StackOf(h, leaves[..rest]) + [Root(h, leaves[rest..])]
  }

  lemma {:induction false} StackLength(h: Hash, leaves: seq<Digest>)
    ensures |StackOf(h, leaves)| == PopCount(|leaves|)
    decreases |leaves|
  {
    if leaves != [] {
      PopCountDropsLowBit(|leaves|);
      StackLength(h, leaves[..|leaves| - LowBit(|leaves|)]);
    }
  }

  lemma StackOfAll(h: Hash, leaves: seq<Digest>)
    requires IsPowerOfTwo(|leaves|)
    ensures StackOf(h, leaves) == [Root(h, leaves)]
  {
    LowBitOfPowerOfTwo(|leaves|);
    assert leaves[0..] == leaves && leaves[..0] == [];
  }

  /** The stack in the middle of `feed`: the last block of `2^j` leaves is combined, the rest is not. */
  ghost function Combining(h: Hash, leaves: seq<Digest>, j: nat): seq<Digest>
    requires Pow2(j) <= |leaves|
  {
    StackOf(h, leaves[..|leaves| - Pow2(j)]) + [Root(h, leaves[|leaves| - Pow2(j)..])]
  }

  lemma CombiningStart(h: Hash, leaves: seq<Digest>, leafHash: Digest)
    ensures Combining(h, leaves + [leafHash], 0) == StackOf(h, leaves) + [leafHash]
  {
    var next := leaves + [leafHash];
    assert next[..|next| - 1] == leaves && next[|next| - 1..] == [leafHash];
  }

  /** When all trailing zeros are used up, combining is done. */
  lemma CombiningDone(h: Hash, leaves: seq<Digest>)
    requires leaves != []
    ensures Pow2(TrailingZeros(|leaves|)) <= |leaves|
    ensures Combining(h, leaves, TrailingZeros(|leaves|)) == StackOf(h, leaves)
  {
    LowBitIsPow2(|leaves|);
    var rest := |leaves| - LowBit(|leaves|);
    assert StackOf(h, leaves) == StackOf(h, leaves[..rest]) + [Root(h, leaves[rest..])];
  }

  lemma StackOfSplit(h: Hash, leaves: seq<Digest>, base: seq<Digest>, block: seq<Digest>)
    requires leaves == base + block && block != [] && LowBit(|leaves|) == |block|
    ensures StackOf(h, leaves) == StackOf(h, base) + [Root(h, block)]
  {
    assert leaves[..|base|] == base && leaves[|base|..] == block;
  }

  lemma ThreeBlocks<T>(s: seq<T>, i: nat, j: nat)
    requires i <= j <= |s|
    ensures s == s[..j] + s[j..] && s[..j] == s[..i] + s[i..j]
    ensures s == s[..i] + s[i..] && s[i..] == s[i..j] + s[j..]
  {
  }

  lemma RootOfConcat(h: Hash, both: seq<Digest>, left: seq<Digest>, right: seq<Digest>)
    requires both == left + right && |left| == |right| && IsPowerOfTwo(|left|)
    ensures IsPowerOfTwo(|both|) && Root(h, both) == HashNode(h, Root(h, left), Root(h, right))
  {
    RootOfHalves(h, left, right);
  }

  /** One combination in `feed`: the two last blocks of `2^j` leaves become one of `2^(j+1)`. */
  lemma CombineStep(h: Hash, leaves: seq<Digest>, j: nat)
    requires leaves != [] && j < TrailingZeros(|leaves|)
    ensures Pow2(j) < |leaves| && Pow2(j + 1) <= |leaves|
    ensures |Combining(h, leaves, j)| >= 2
    ensures Combining(h, leaves, j + 1) == CombineLast(h, Combining(h, leaves, j))
  {
    LowBitBelow(|leaves|, j);
    CombineBlocks(h, leaves, Pow2(j), j);
  }

  lemma CombineBlocks(h: Hash, leaves: seq<Digest>, block: nat, j: nat)
    requires 0 < 2 * block <= |leaves| && block == Pow2(j) && LowBit(|leaves| - block) == block
    ensures |Combining(h, leaves, j)| >= 2
    ensures Combining(h, leaves, j + 1) == CombineLast(h, Combining(h, leaves, j))
  {
    var front, base := leaves[..|leaves| - block], leaves[..|leaves| - 2 * block];
    var left, right := leaves[|leaves| - 2 * block..|leaves| - block], leaves[|leaves| - block..];
    var both := leaves[|leaves| - 2 * block..];
    ThreeBlocks(leaves, |leaves| - 2 * block, |leaves| - block);
    StackOfSplit(h, front, base, left);
    RootOfConcat(h, both, left, right);
    CombineLastOf(h, StackOf(h, base), Root(h, left), Root(h, right));
  }

  /** Pop two hashes and push their parent. */
  function CombineLast(h: Hash, stack: seq<Digest>): seq<Digest>
    requires |stack| >= 2
  {
    stack[..|stack| - 2] + [HashNode(h, stack[|stack| - 2], stack[|stack| - 1])]
  }

  lemma CombineLastOf(h: Hash, below: seq<Digest>, left: Digest, right: Digest)
    ensures CombineLast(h, below + [left] + [right]) == below + [HashNode(h, left, right)]
  {
    assert (below + [left] + [right])[..|below|] == below;
  }

  lemma RootOfPair(h: Hash, leaves: seq<Digest>)
    ensures |leaves| == 2 ==> IsPowerOfTwo(|leaves|) && Root(h, leaves) == h([0x01] + leaves[0] + leaves[1])
  {
    if |leaves| == 2 {
      RootByHash(h, leaves);
      RootByHash(h, leaves[..1]);
      RootByHash(h, leaves[1..]);
    }
  }

  class MerkleAccumulatorRootComputer {
    const h: Hash
    const n: nat
    var curSize: nat
    var hashes: seq<Digest>

    ghost var leaves: seq<Digest> // all leaf hashes fed so far
    ghost var merges: nat // how many internal nodes were hashed so far

    ghost predicate Valid()
      reads this
    {
      && IsPowerOfTwo(n)
      && curSize == |leaves| <= n
      && hashes == StackOf(h, leaves)
      && merges == curSize - PopCount(curSize)
    }

    /** `new`, which panics unless `n` is a power of two. */
    constructor (h: Hash, n: nat)
      requires IsPowerOfTwo(n)
      ensures Valid() && leaves == [] && merges == 0
      ensures this.h == h && this.n == n
    {
      this.h, this.n := h, n;
      this.curSize, this.hashes := 0, [];
      this.leaves, this.merges := [], 0;
    }

    /** `feed`, which panics when all `n` leaves have been fed. */
    method Feed(leafHash: Digest)
      requires Valid() && curSize < n
      modifies this
      ensures Valid() && leaves == old(leaves) + [leafHash]
      ensures merges == old(merges) + TrailingZeros(curSize)
    {
      CombiningStart(h, leaves, leafHash);
      PopCountOfNext(curSize);
      hashes := hashes + [leafHash];
      curSize := curSize + 1;
      leaves := leaves + [leafHash];
      Combine(TrailingZeros(curSize));
      CombiningDone(h, leaves);
    }

    /** The loop of `feed`: combine the last hashes, `d` times. */
    method Combine(d: nat)
      requires leaves != [] && hashes == Combining(h, leaves, 0) && d == TrailingZeros(|leaves|)
      modifies this`hashes, this`merges
      ensures Pow2(d) <= |leaves| && hashes == Combining(h, leaves, d)
      ensures merges == old(merges) + d
    {
      ghost var all := leaves;
      for j := 0 to d
        invariant Pow2(j) <= |all| && hashes == Combining(h, all, j)
        invariant merges == old(merges) + j
      {
        CombineStep(h, all, j);
        var right := hashes[|hashes| - 1];
        var left := hashes[|hashes| - 2];
        hashes := hashes[..|hashes| - 2] + [HashNode(h, left, right)];
        merges := merges + 1;
      }
    }

    /** `root`, which panics before all leaves have been fed. */
    function GetRoot(): (root: Digest)
      requires Valid() && curSize == n
      reads this
      ensures root == Root(h, leaves)
      ensures n == 1 ==> root == leaves[0]
      ensures n == 2 ==> root == h([0x01] + leaves[0] + leaves[1])
    {
      StackOfAll(h, leaves);
      RootByHash(h, leaves);
      RootOfPair(h, leaves);
      hashes[0]
    }
  }

  /**
   After `k` leaves the stack has `PopCount(k)` hashes and `k - PopCount(k)` internal nodes were
   hashed; so all `n` leaves cost `n - 1` of them, fewer than `2n`.
   */
  lemma StackAndMerges(computer: MerkleAccumulatorRootComputer)
    requires computer.Valid()
    ensures |computer.hashes| == PopCount(computer.curSize)
    ensures computer.merges == computer.curSize - PopCount(computer.curSize) < 2 * computer.n
    ensures computer.curSize == computer.n ==> computer.merges == computer.n - 1
  {
    StackLength(computer.h, computer.leaves);
    LowBitOfPowerOfTwo(computer.n);
  }

  /** The streamed root of a whole vector is the root that its accumulator holds at `tree[0]`. */
  method StreamedRoot(accumulator: MerkleAccumulator) returns (root: Digest)
    requires accumulator.Valid()
    ensures root == accumulator.tree[0] && IsHashTree(accumulator.h, accumulator.data, accumulator.tree[..])
    ensures var (h, data) := (accumulator.h, accumulator.data);
            |data| == 2 ==> root == h([0x01] + h([0x00] + data[0]) + h([0x00] + data[1]))
  {
    var h, n := accumulator.h, |accumulator.data|;
    ghost var all := LeafHashes(h, accumulator.data);
    var computer := new MerkleAccumulatorRootComputer(h, n);
    for i := 0 to n
      invariant computer.Valid() && computer.leaves == all[..i]
      invariant computer.h == h && computer.n == n
    {
      assert all[..i] + [all[i]] == all[..i + 1];
      computer.Feed(HashLeaf(h, accumulator.data[i]));
    }
    assert all[..n] == all;
    root := computer.GetRoot();
    assert accumulator.GetRoot() == root;
    HeapIsHashTree(h, accumulator.data);
    if n == 2 {
      TwoElements(h, accumulator.data, accumulator.tree[..]);
    }
  }
}
