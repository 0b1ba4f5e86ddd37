/**
 What the page cache of vm/src/handlers/lib/outsourced_mem.rs stands for: the plaintext pages of a segment,
 some of them in the cache and the others behind the leaves that a Merkle root commits to.
 */
module PageCache {
  import opened MachineInts
  import opened BigEndian
  import opened FlatMemory
  import opened MerkleTree
  import opened ProofVerifier
  import opened Accumulator
  import opened AesCtrMode
  import HostMemory
  import MemoryChecking
  import OutOfRange

  type Page = p: bytes | |p| == PAGE_SIZE witness Zeros(PAGE_SIZE)

  type Nonce = n: bytes | |n| == 12 witness Zeros(12)

  /** A slot of the cache. `pageHash` is the leaf hash from when the page was loaded. */
  datatype CachedPage = CachedPage(idx: u32, page: Page, pageHash: Digest, valid: bool, modified: bool)

  // ---------------------------------------------------------------------------------------
  // Leaves
  // ---------------------------------------------------------------------------------------

  /** The page behind a leaf: after the header, as it is or encrypted with the nonce of the header. */
  function PageOf(cipher: Cipher, leaf: bytes): Result<bytes, AesError> {
    if |leaf| != HostMemory.HEADER_SIZE + PAGE_SIZE then Err(InvalidInputLength)
    else if leaf[0] == 1 then Processed(cipher, leaf[13..], FromBE(leaf[1..13]) * TWO_32)
    else Ok(leaf[13..])
  }

  lemma PlainLeaf(cipher: Cipher, page: Page)
    ensures PageOf(cipher, HostMemory.SerializedPage(page, None)) == Ok(page)
  {
    var leaf := HostMemory.SerializedPage(page, None);
    assert leaf[0] == 0 && leaf[13..] == page;
  }

  lemma EncryptedLeaf(cipher: Cipher, nonce: Nonce, payload: Page)
    ensures PageOf(cipher, HostMemory.SerializedPage(payload, Some(nonce)))
         == Processed(cipher, payload, FromBE(nonce) * TWO_32)
  {
    var leaf := HostMemory.SerializedPage(payload, Some(nonce));
    assert leaf[0] == 1 && leaf[1..13] == nonce && leaf[13..] == payload;
  }

  /** The leaf of a page that the device encrypts gives back the page. */
  lemma CommittedLeaf(cipher: Cipher, page: Page, nonce: Nonce, payload: Page)
    requires Processed(cipher, page, FromBE(nonce) * TWO_32) == Ok(payload)
    ensures PageOf(cipher, HostMemory.SerializedPage(payload, Some(nonce))) == Ok(page)
  {
    EncryptedLeaf(cipher, nonce, payload);
    ProcessedTwice(cipher, page, FromBE(nonce) * TWO_32);
  }

  // ---------------------------------------------------------------------------------------
  // The cache and the leaves together
  // ---------------------------------------------------------------------------------------

  /** A cached page is the current page; its hash, and its content if it is unmodified, are those of the leaf. */
  ghost predicate SlotAgrees(h: Hash, cipher: Cipher, c: CachedPage, leaves: seq<bytes>, pages: seq<bytes>)
    requires |leaves| == |pages|
  {
    && c.idx < |pages| && pages[c.idx] == c.page && c.pageHash == HashLeaf(h, leaves[c.idx])
    && (!c.modified ==> PageOf(cipher, leaves[c.idx]) == Ok(c.page))
  }

  ghost predicate Holds(slots: seq<CachedPage>, s: nat, i: nat) {
    s < |slots| && slots[s].valid && slots[s].idx == i
  }

  ghost predicate InCache(slots: seq<CachedPage>, i: nat) {
    exists s: nat :: Holds(slots, s, i)
  }

  ghost predicate NoDuplicates(slots: seq<CachedPage>) {
    forall s, t :: 0 <= s < t < |slots| && slots[s].valid && slots[t].valid ==> slots[s].idx != slots[t].idx
  }

  /** `pages` are what the cache and the committed leaves stand for. */
  ghost predicate Agrees(h: Hash, cipher: Cipher, slots: seq<CachedPage>, leaves: seq<bytes>, pages: seq<bytes>) {
    && |leaves| == |pages| && ArePages(pages) && NoDuplicates(slots)
    && (forall s :: 0 <= s < |slots| && slots[s].valid ==> SlotAgrees(h, cipher, slots[s], leaves, pages))
    && (forall i :: 0 <= i < |pages| ==> InCache(slots, i) || PageOf(cipher, leaves[i]) == Ok(pages[i]))
  }

  lemma EmptyAgrees(h: Hash, cipher: Cipher, slots: seq<CachedPage>, leaves: seq<bytes>, pages: seq<bytes>)
    requires |leaves| == |pages| && ArePages(pages)
    requires forall s :: 0 <= s < |slots| ==> !slots[s].valid
    requires forall i :: 0 <= i < |pages| ==> leaves[i] == HostMemory.SerializedPage(pages[i], None)
    ensures Agrees(h, cipher, slots, leaves, pages)
  {
    forall i | 0 <= i < |pages| ensures PageOf(cipher, leaves[i]) == Ok(pages[i]) {
      PlainLeaf(cipher, pages[i]);
    }
  }

  /** A page whose leaf is up to date can be dropped from the cache. */
  lemma Dropped(h: Hash, cipher: Cipher, slots: seq<CachedPage>, leaves: seq<bytes>, pages: seq<bytes>, s: nat)
    requires Agrees(h, cipher, slots, leaves, pages) && s < |slots|
    requires slots[s].valid ==> PageOf(cipher, leaves[slots[s].idx]) == Ok(slots[s].page)
    ensures Agrees(h, cipher, slots[s := slots[s].(valid := false)], leaves, pages)
  {
    var after := slots[s := slots[s].(valid := false)];
    forall i | 0 <= i < |pages| && PageOf(cipher, leaves[i]) != Ok(pages[i]) ensures InCache(after, i) {
      var t: nat :| Holds(slots, t, i);
      assert t != s;
      assert Holds(after, t, i);
    }
  }

  /** A modified page is dropped after its new leaf was committed. */
  lemma CommittedAndDropped(h: Hash, cipher: Cipher, slots: seq<CachedPage>, leaves: seq<bytes>, pages: seq<bytes>,
                            s: nat, leaf: bytes)
    requires Agrees(h, cipher, slots, leaves, pages) && s < |slots| && slots[s].valid
    requires PageOf(cipher, leaf) == Ok(slots[s].page)
    ensures slots[s].idx < |leaves|
    ensures Agrees(h, cipher, slots[s := slots[s].(valid := false)], leaves[slots[s].idx := leaf], pages)
  {
    var idx := slots[s].idx;
    var after, committed := slots[s := slots[s].(valid := false)], leaves[idx := leaf];
    forall t | 0 <= t < |after| && after[t].valid ensures SlotAgrees(h, cipher, after[t], committed, pages) {
      assert after[t] == slots[t] && after[t].idx != idx;
    }
    forall i | 0 <= i < |pages| && PageOf(cipher, committed[i]) != Ok(pages[i]) ensures InCache(after, i) {
      var t: nat :| Holds(slots, t, i);
      assert t != s;
      assert Holds(after, t, i);
    }
  }

  /** A page from its leaf is put into a free slot. */
  lemma Loaded(h: Hash, cipher: Cipher, slots: seq<CachedPage>, leaves: seq<bytes>, pages: seq<bytes>,
               s: nat, i: u32, page: Page)
    requires Agrees(h, cipher, slots, leaves, pages) && s < |slots| && !slots[s].valid
    requires i < |pages| && !InCache(slots, i) && PageOf(cipher, leaves[i]) == Ok(page)
    ensures page == pages[i]
    ensures Agrees(h, cipher, slots[s := CachedPage(i, page, HashLeaf(h, leaves[i]), true, false)], leaves, pages)
  {
    var after := slots[s := CachedPage(i, page, HashLeaf(h, leaves[i]), true, false)];
    forall t | 0 <= t < |slots| && slots[t].valid ensures slots[t].idx != i {
      assert Holds(slots, t, i) <==> slots[t].idx == i;
    }
    forall j | 0 <= j < |pages| && PageOf(cipher, leaves[j]) != Ok(pages[j]) ensures InCache(after, j) {
      var t: nat :| Holds(slots, t, j);
      assert Holds(after, t, j);
    }
  }

  /** A cached page is written. */
  lemma CachedWritten(h: Hash, cipher: Cipher, slots: seq<CachedPage>, leaves: seq<bytes>, pages: seq<bytes>,
                      s: nat, page: Page)
    requires Agrees(h, cipher, slots, leaves, pages) && s < |slots| && slots[s].valid
    ensures slots[s].idx < |pages|
    ensures Agrees(h, cipher, slots[s := slots[s].(page := page, modified := true)], leaves, pages[slots[s].idx := page])
  {
    var idx := slots[s].idx;
    var after, written := slots[s := slots[s].(page := page, modified := true)], pages[idx := page];
    forall t | 0 <= t < |after| && after[t].valid ensures SlotAgrees(h, cipher, after[t], leaves, written) {
      assert t != s ==> after[t] == slots[t] && after[t].idx != idx;
    }
    forall i | 0 <= i < |pages| && PageOf(cipher, leaves[i]) != Ok(written[i]) ensures InCache(after, i) {
      if i == idx {
        assert Holds(after, s, i);
      } else {
        var t: nat :| Holds(slots, t, i);
        assert t != s;
        assert Holds(after, t, i);
      }
    }
  }

  // ---------------------------------------------------------------------------------------
  // What an accepted proof says
  // ---------------------------------------------------------------------------------------

  /** An index out of range, accepted in a memory of one page because too few siblings came with it. */
  ghost predicate TooShort(leaves: seq<bytes>, index: nat, leaf: bytes, proof: seq<Digest>) {
    |leaves| == 1 && index > 0 && leaf == leaves[0] && |proof| < Depth(index)
  }

  /** A leaf that was accepted for a page index: the committed one, or a collision is computed. */
  ghost function LoadCollision(h: Hash, leaves: seq<bytes>, index: nat, leaf: bytes, proof: seq<Digest>)
    : (r: Option<(bytes, bytes)>)
    requires IsPowerOfTwo(|leaves|)
    requires Accepts(h, Root(h, LeafHashes(h, leaves)), proof, HashLeaf(h, leaf), index, |leaves|)
    ensures match r
            case Some(pair) => IsCollision(h, pair)
            case None => (index < |leaves| && leaf == leaves[index]) || TooShort(leaves, index, leaf, proof)
    ensures index < |leaves| && leaf == leaves[index] ==> r.None?
  {
    if index >= |leaves| then
      OutOfRange.OutOfRangeCollides(h, leaves, proof, HashLeaf(h, leaf), index);
      if OutOfRange.ShortProof(HashLeaf(h, leaves[0]), proof, HashLeaf(h, leaf), index, |leaves|) then
        LeafCollision(h, leaf, leaves[0])
      else Some(OutOfRange.CollisionBelowLeaves(h, leaves, proof, HashLeaf(h, leaf), index))
    else if HashLeaf(h, leaf) != HashLeaf(h, leaves[index]) then
      Some(NodeCollision(h, LeafHashes(h, leaves), index, HashLeaf(h, leaf), proof))
    else LeafCollision(h, leaf, leaves[index])
  }

  /** Two leaves with one hash. */
  ghost function LeafCollision(h: Hash, leaf: bytes, other: bytes): (r: Option<(bytes, bytes)>)
    requires HashLeaf(h, leaf) == HashLeaf(h, other)
    ensures if leaf == other then r.None? else r.Some? && IsCollision(h, r.value)
  {
    if leaf == other then None
    else
      MemoryChecking.LeafBinding(h, leaf, other);
      Some(([0x00] + leaf, [0x00] + other))
  }

  ghost function NodeCollision(h: Hash, hashes: seq<Digest>, index: nat, value: Digest, proof: seq<Digest>)
    : (pair: (bytes, bytes))
    requires IsPowerOfTwo(|hashes|) && index < |hashes| && value != hashes[index]
    requires Accepts(h, Root(h, hashes), proof, value, index, |hashes|)
    ensures IsCollision(h, pair)
  {
    HonestProofAccepted(h, hashes, index);
    CollisionOfProofs(h, Root(h, hashes), |hashes|, index, value, proof, hashes[index], LeafPath(h, hashes, index))
  }

  /** An accepted update: the new root commits to the leaves with that one replaced, or a collision is computed. */
  ghost function CommitCollision(h: Hash, leaves: seq<bytes>, index: nat, leaf: bytes, newRoot: Digest, proof: seq<Digest>)
    : (r: Option<(bytes, bytes)>)
    requires IsPowerOfTwo(|leaves|) && index < |leaves|
    requires AcceptsUpdate(h, Root(h, LeafHashes(h, leaves)), newRoot, proof,
                           HashLeaf(h, leaves[index]), HashLeaf(h, leaf), index, |leaves|)
    ensures match r
            case Some(pair) => IsCollision(h, pair)
            case None => newRoot == Root(h, LeafHashes(h, leaves[index := leaf]))
    ensures newRoot == Root(h, LeafHashes(h, leaves[index := leaf])) ==> r.None?
  {
    var hashes := LeafHashes(h, leaves);
    var e := MemoryChecking.Write(index, HashLeaf(h, leaves[index]), HashLeaf(h, leaf), newRoot, proof);
    MemoryChecking.AcceptedEventIsExact(h, hashes, e);
    LeafHashesUpdate(h, leaves, index, leaf);
    if newRoot == Root(h, LeafHashes(h, leaves[index := leaf])) then None
    else Some(MemoryChecking.CollisionOfEvent(h, hashes, e))
  }
}
