/**
 The incremental proof verifiers of common/src/accumulator.rs: they know a root, a value hash and
 a position, and are fed one sibling at a time by a prover that is not trusted.
 */
module ProofVerifier {
  import opened MachineInts
  import opened MerkleTree

  // ---------------------------------------------------------------------------------------
  // What a proof means
  // ---------------------------------------------------------------------------------------

  /**
   The whole verdict on a list of siblings. The first case is the starting value of `verified`, which
   looks at the size and not at the index, and which stays until the position reaches the root; for an
   index in range it is the empty proof of a tree with one leaf.
   */
  ghost predicate Accepts(h: Hash, root: Digest, proof: seq<Digest>, value: Digest, index: nat, size: nat)
    requires size > 0
  {
    var pos := size - 1 + index;
    || (size == 1 && value == root && (proof == [] || |proof| < Depth(pos)))
    || (proof != [] && |proof| == Depth(pos) && Climb(h, pos, value, proof) == root)
  }

  /** An update proof is one list of siblings that serves the old value and root, and the new ones. */
  ghost predicate AcceptsUpdate(h: Hash, oldRoot: Digest, newRoot: Digest, proof: seq<Digest>,
                                oldValue: Digest, newValue: Digest, index: nat, size: nat)
    requires size > 0
  {
    && Accepts(h, oldRoot, proof, oldValue, index, size)
    && Accepts(h, newRoot, proof, newValue, index, size)
  }

  ghost function Log2(n: nat): nat
    requires IsPowerOfTwo(n)
  {
    if n == 1 then 0 else 1 + Log2(n / 2)
  }

  /** All leaves of a tree lie at the same depth. */
  lemma {:induction false} DepthOfLeaf(n: nat, index: nat)
    requires IsPowerOfTwo(n) && index < n
    ensures Depth(n - 1 + index) == Log2(n)
    decreases n
  {
    if n > 1 {
      assert (n - 1 + index - 1) / 2 == n / 2 - 1 + index / 2;
      DepthOfLeaf(n / 2, index / 2);
    }
  }

  /**
   Neither a proof that is too short nor one that is too long is accepted: an accepted proof has
   one sibling per level, and these siblings climb to the root.
   */
  lemma AcceptsExactLength(h: Hash, root: Digest, proof: seq<Digest>, value: Digest, index: nat, size: nat)
    requires IsPowerOfTwo(size) && index < size
    ensures Depth(size - 1 + index) == Log2(size)
    ensures Accepts(h, root, proof, value, index, size)
       <==> |proof| == Log2(size) && Climb(h, size - 1 + index, value, proof) == root
  {
    DepthOfLeaf(size, index);
  }

  // ---------------------------------------------------------------------------------------
  // Feeding siblings one at a time
  // ---------------------------------------------------------------------------------------

  /** The hash and the position after `fed` siblings; once at the root, both stay. */
  ghost function After(h: Hash, pos: nat, value: Digest, fed: seq<Digest>): (r: (Digest, nat))
    decreases |fed|
  {
    if fed == [] then (value, pos)
    else
      var (c, p) := After(h, pos, value, fed[..|fed| - 1]);
      if p == 0 then (c, 0) else (Parent(h, p, c, fed[|fed| - 1]), (p - 1) / 2)
  }

  /** Below the root, one more sibling is hashed after 0x01: before the hash so far at even positions, else behind it. */
  lemma AfterByHash(h: Hash, pos: nat, value: Digest, fed: seq<Digest>, sibling: Digest)
    ensures var (c, p) := After(h, pos, value, fed);
            p > 0 ==> After(h, pos, value, fed + [sibling])
                      == (h(if p % 2 == 0 then [0x01] + sibling + c else [0x01] + c + sibling), (p - 1) / 2)
  {
    var (c, p) := After(h, pos, value, fed);
    assert (fed + [sibling])[..|fed|] == fed;
    ParentByHash(h, p, c, sibling);
  }

  lemma {:induction false} AfterFirst(h: Hash, pos: nat, value: Digest, fed: seq<Digest>)
    requires pos > 0 && fed != []
    ensures After(h, pos, value, fed) == After(h, (pos - 1) / 2, Parent(h, pos, value, fed[0]), fed[1..])
    decreases |fed|
  {
    var init := fed[..|fed| - 1];
    if init == [] {
      assert After(h, pos, value, init) == (value, pos);
    } else {
      AfterFirst(h, pos, value, init);
      assert init[1..] == fed[1..][..|fed[1..]| - 1];
    }
  }

  /** Feeding is climbing: the position reaches the root after exactly `Depth` siblings. */
  lemma {:induction false} AfterIsClimb(h: Hash, pos: nat, value: Digest, fed: seq<Digest>)
    ensures After(h, pos, value, fed).1 == 0 <==> |fed| >= Depth(pos)
    ensures |fed| == Depth(pos) ==> After(h, pos, value, fed).0 == Climb(h, pos, value, fed)
    decreases |fed|
  {
    if fed == [] {
    } else if pos == 0 {
      AfterIsClimb(h, pos, value, fed[..|fed| - 1]);
    } else {
      AfterFirst(h, pos, value, fed);
      AfterIsClimb(h, (pos - 1) / 2, Parent(h, pos, value, fed[0]), fed[1..]);
    }
  }

  /** What one more sibling does to the hash, the position and the verdict. */
  lemma OneMoreSibling(h: Hash, root: Digest, value: Digest, index: nat, size: nat, fed: seq<Digest>, sibling: Digest)
    requires size > 0
    ensures var ((c, p), next) := (After(h, size - 1 + index, value, fed), fed + [sibling]);
            if p == 0 then
              After(h, size - 1 + index, value, next) == (c, 0) && !Accepts(h, root, next, value, index, size)
            else
              var (c', p') := (Parent(h, p, c, sibling), (p - 1) / 2);
              && After(h, size - 1 + index, value, next) == (c', p')
              && Accepts(h, root, next, value, index, size)
                 == if p' == 0 then c' == root else Accepts(h, root, fed, value, index, size)
  {
    var start, next := size - 1 + index, fed + [sibling];
    assert next[..|next| - 1] == fed && |next| == |fed| + 1;
    AfterIsClimb(h, start, value, fed);
    AfterIsClimb(h, start, value, next);
  }

  class MerkleInclusionProofVerifier {
    var currentHash: Digest
    var pos: nat
    var root: Digest
    var verified: bool

    // what the verifier was started with, and what it was fed so far
    ghost const h: Hash
    ghost const value: Digest
    ghost const index: nat
    ghost const size: nat
    ghost var fed: seq<Digest>

    ghost predicate Valid()
      reads this
    {
      && size > 0
      && (currentHash, pos) == After(h, size - 1 + index, value, fed)
      && verified == Accepts(h, root, fed, value, index, size)
    }

    /** `begin_inclusion_proof`. */
    constructor (ghost h: Hash, root: Digest, value: Digest, index: nat, size: nat)
      requires size > 0
      ensures Valid() && fed == []
      ensures this.h == h && this.root == root && this.value == value && this.index == index && this.size == size
    {
      this.currentHash := value;
      this.pos := size - 1 + index;
      this.root := root;
      this.verified := size == 1 && value == root;
      this.h, this.value, this.index, this.size := h, value, index, size;
      this.fed := [];
    }

    /** `feed`. */
    method Feed(hash: Hash, sibling: Digest)
      requires Valid() && hash == h
      modifies this
      ensures Valid() && fed == old(fed) + [sibling] && root == old(root)
    {
      OneMoreSibling(h, root, value, index, size, fed, sibling);
      fed := fed + [sibling];
      if pos == 0 {
        verified := false;
        return;
      }
      var (left, right) := if pos % 2 == 0 then (sibling, currentHash) else (currentHash, sibling);
      currentHash := HashNode(hash, left, right);
      pos := (pos - 1) / 2;
      if pos == 0 {
        verified := currentHash == root;
      }
    }

    /** `verified`: the verdict on everything fed so far. */
    function Verified(): (ok: bool)
      requires Valid()
      reads this
      ensures ok == Accepts(h, root, fed, value, index, size)
    {
      verified
    }
  }

  /** `verify_inclusion_proof`. */
  method VerifyInclusionProof(h: Hash, root: Digest, proof: seq<Digest>, value: Digest, index: nat, size: nat)
    returns (ok: bool)
    requires size > 0
    ensures ok == Accepts(h, root, proof, value, index, size)
  {
    var verifier := new MerkleInclusionProofVerifier(h, root, value, index, size);
    for i := 0 to |proof|
      invariant verifier.Valid() && verifier.fed == proof[..i]
      invariant verifier.h == h && verifier.root == root
    {
      verifier.Feed(h, proof[i]);
    }
    assert proof[..|proof|] == proof;
    ok := verifier.Verified();
  }

  class MerkleUpdateProofVerifier {
    const oldVerifier: MerkleInclusionProofVerifier
    const newVerifier: MerkleInclusionProofVerifier

    ghost predicate Valid()
      reads this, oldVerifier, newVerifier
    {
      && oldVerifier != newVerifier && oldVerifier.Valid() && newVerifier.Valid()
      && oldVerifier.h == newVerifier.h && oldVerifier.fed == newVerifier.fed
      && oldVerifier.index == newVerifier.index && oldVerifier.size == newVerifier.size
    }

    /** `begin_update_proof`. */
    constructor (ghost h: Hash, oldRoot: Digest, newRoot: Digest, oldValue: Digest, newValue: Digest,
                 index: nat, size: nat)
      requires size > 0
      ensures Valid() && oldVerifier.fed == [] && oldVerifier.h == h
      ensures fresh(oldVerifier) && fresh(newVerifier)
      ensures oldVerifier.root == oldRoot && oldVerifier.value == oldValue
      ensures newVerifier.root == newRoot && newVerifier.value == newValue
      ensures oldVerifier.index == index && oldVerifier.size == size
    {
      oldVerifier := new MerkleInclusionProofVerifier(h, oldRoot, oldValue, index, size);
      newVerifier := new MerkleInclusionProofVerifier(h, newRoot, newValue, index, size);
    }

    /** `feed`: the same sibling goes to both verifiers. */
    method Feed(hash: Hash, sibling: Digest)
      requires Valid() && hash == oldVerifier.h
      modifies oldVerifier, newVerifier
      ensures Valid() && oldVerifier.fed == old(oldVerifier.fed) + [sibling]
      ensures oldVerifier.root == old(oldVerifier.root) && newVerifier.root == old(newVerifier.root)
    {
      oldVerifier.Feed(hash, sibling);
      newVerifier.Feed(hash, sibling);
    }

    /** `verified`. */
    function Verified(): (ok: bool)
      requires Valid()
      reads this, oldVerifier, newVerifier
      ensures ok == AcceptsUpdate(oldVerifier.h, oldVerifier.root, newVerifier.root, oldVerifier.fed,
                                  oldVerifier.value, newVerifier.value, oldVerifier.index, oldVerifier.size)
    {
      newVerifier.Verified() && oldVerifier.Verified()
    }
  }

  /** `verify_update_proof`. */
  method VerifyUpdateProof(h: Hash, oldRoot: Digest, newRoot: Digest, proof: seq<Digest>,
                           oldValue: Digest, newValue: Digest, index: nat, size: nat)
    returns (ok: bool)
    requires size > 0
    ensures ok == AcceptsUpdate(h, oldRoot, newRoot, proof, oldValue, newValue, index, size)
  {
    var verifier := new MerkleUpdateProofVerifier(h, oldRoot, newRoot, oldValue, newValue, index, size);
    for i := 0 to |proof|
      invariant verifier.Valid() && verifier.oldVerifier.fed == proof[..i]
      invariant verifier.oldVerifier.h == h
      invariant verifier.oldVerifier.root == oldRoot && verifier.newVerifier.root == newRoot
    {
      verifier.Feed(h, proof[i]);
    }
    assert proof[..|proof|] == proof;
    ok := verifier.Verified();
  }

  // ---------------------------------------------------------------------------------------
  // Binding
  // ---------------------------------------------------------------------------------------

  /** Two different inputs with the same hash. */
  ghost predicate IsCollision(h: Hash, pair: (bytes, bytes)) {
    pair.0 != pair.1 && h(pair.0) == h(pair.1)
  }

  /** The input hashed by `Parent`. */
  function ParentInput(pos: nat, current: Digest, sibling: Digest): bytes {
    if pos % 2 == 0 then NodeInput(sibling, current) else NodeInput(current, sibling)
  }

  /**
   Walk two climbs to the same root side by side, up to the last level at which they differ: the
   two inputs hashed there collide.
   */
  function CollisionOfClimbs(h: Hash, pos: nat, v0: Digest, p0: seq<Digest>, v1: Digest, p1: seq<Digest>)
    : (pair: (bytes, bytes))
    requires |p0| == |p1| == Depth(pos)
    requires Climb(h, pos, v0, p0) == Climb(h, pos, v1, p1)
    requires v0 != v1 || p0 != p1
    ensures IsCollision(h, pair)
    ensures |pair.0| == |pair.1| == 65 && pair.0[0] == pair.1[0] == 0x01
    decreases pos
  {
    NodeInputInjective(v0, p0[0], v1, p1[0]);
    NodeInputInjective(p0[0], v0, p1[0], v1);
    assert p0 == [p0[0]] + p0[1..] && p1 == [p1[0]] + p1[1..];
    var up0, up1 := Parent(h, pos, v0, p0[0]), Parent(h, pos, v1, p1[0]);
    if up0 == up1 && (v0 != v1 || p0[0] != p1[0]) then
      (ParentInput(pos, v0, p0[0]), ParentInput(pos, v1, p1[0]))
    else
      CollisionOfClimbs(h, (pos - 1) / 2, up0, p0[1..], up1, p1[1..])
  }

  /** The collision computed from two different proofs accepted for the same root, size and index. */
  function CollisionOfProofs(h: Hash, root: Digest, size: nat, index: nat,
                             v0: Digest, p0: seq<Digest>, v1: Digest, p1: seq<Digest>): (pair: (bytes, bytes))
    requires IsPowerOfTwo(size) && index < size
    requires Accepts(h, root, p0, v0, index, size) && Accepts(h, root, p1, v1, index, size)
    requires v0 != v1 || p0 != p1
    ensures IsCollision(h, pair)
    ensures |pair.0| == |pair.1| == 65 && pair.0[0] == pair.1[0] == 0x01
  {
    AcceptsExactLength(h, root, p0, v0, index, size);
    AcceptsExactLength(h, root, p1, v1, index, size);
    CollisionOfClimbs(h, size - 1 + index, v0, p0, v1, p1)
  }

  /**
   Binding: two proofs accepted for the same root, size and index agree in the value hash and in
   every sibling, or else the pair computed from them is a collision between internal nodes.
   */
  lemma Binding(h: Hash, root: Digest, size: nat, index: nat,
                v0: Digest, p0: seq<Digest>, v1: Digest, p1: seq<Digest>)
    requires IsPowerOfTwo(size) && index < size
    requires Accepts(h, root, p0, v0, index, size) && Accepts(h, root, p1, v1, index, size)
    ensures |p0| == |p1| == Log2(size)
    ensures (v0 == v1 && p0 == p1) || IsCollision(h, CollisionOfProofs(h, root, size, index, v0, p0, v1, p1))
  {
    AcceptsExactLength(h, root, p0, v0, index, size);
    AcceptsExactLength(h, root, p1, v1, index, size);
  }
}
