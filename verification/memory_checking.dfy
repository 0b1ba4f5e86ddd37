/**
 Memory checking over whole runs: a verifier that keeps one root, against a prover that may answer
 anything. Either every value it accepts is the last one committed at that index, or the run itself
 gives a hash collision.
 */
module MemoryChecking {
  import opened MachineInts
  import opened MerkleTree
  import opened ProofVerifier
  import opened Accumulator

  /** An answer of the prover that the verifier accepted; a `Write` makes `newRoot` the current root. */
  datatype Event =
    | Read(index: nat, value: Digest, proof: seq<Digest>)
    | Write(index: nat, value: Digest, newValue: Digest, newRoot: Digest, proof: seq<Digest>)

  ghost predicate AcceptedEvent(h: Hash, size: nat, root: Digest, e: Event)
    requires size > 0
  {
    && e.index < size
    && match e
       case Read(index, value, proof) => Accepts(h, root, proof, value, index, size)
       case Write(index, value, newValue, newRoot, proof) =>
         AcceptsUpdate(h, root, newRoot, proof, value, newValue, index, size)
  }

  /** The root that the verifier holds after the first `k` events. */
  ghost function RootAfter(root: Digest, events: seq<Event>, k: nat): Digest
    requires k <= |events|
  {
    if k == 0 then root
    else if events[k - 1].Write? then events[k - 1].newRoot
    else RootAfter(root, events, k - 1)
  }

  /** Every event was accepted with the root held at that time. */
  ghost predicate AcceptedRun(h: Hash, size: nat, root: Digest, events: seq<Event>)
    requires size > 0
  {
    forall k :: 0 <= k < |events| ==> AcceptedEvent(h, size, RootAfter(root, events, k), events[k])
  }

  /** The value last committed at `index` before event `k`, the initial one if none was. */
  ghost function LastCommitted(initial: seq<Digest>, events: seq<Event>, k: nat, index: nat): Digest
    requires k <= |events| && index < |initial|
  {
    if k == 0 then initial[index]
    else if events[k - 1].Write? && events[k - 1].index == index then events[k - 1].newValue
    else LastCommitted(initial, events, k - 1, index)
  }

  /** The whole vector last committed before event `k`. */
  ghost function Committed(initial: seq<Digest>, events: seq<Event>, k: nat): (vector: seq<Digest>)
    requires k <= |events|
    ensures |vector| == |initial|
    ensures forall i :: 0 <= i < |initial| ==> vector[i] == LastCommitted(initial, events, k, i)
  {
    seq(|initial|, i requires 0 <= i < |initial| => LastCommitted(initial, events, k, i))
  }

  lemma CommittedStep(initial: seq<Digest>, events: seq<Event>, k: nat)
    requires k < |events| && events[k].index < |initial|
    ensures Committed(initial, events, k + 1)
         == match events[k]
            case Read(_, _, _) => Committed(initial, events, k)
            case Write(index, _, newValue, _, _) => Committed(initial, events, k)[index := newValue]
  {
  }

  // ---------------------------------------------------------------------------------------
  // One event
  // ---------------------------------------------------------------------------------------

  /** The event shows what an honest prover would show for this vector. */
  ghost predicate Honest(h: Hash, leaves: seq<Digest>, e: Event)
    requires IsPowerOfTwo(|leaves|) && e.index < |leaves|
  {
    e.value == leaves[e.index] && e.proof == LeafPath(h, leaves, e.index)
  }

  /** The collision that an accepted event gives when it is not what an honest prover would show. */
  ghost function CollisionOfEvent(h: Hash, leaves: seq<Digest>, e: Event): (pair: (bytes, bytes))
    requires IsPowerOfTwo(|leaves|) && AcceptedEvent(h, |leaves|, Root(h, leaves), e)
    requires !Honest(h, leaves, e)
    ensures IsCollision(h, pair)
  {
    HonestProofAccepted(h, leaves, e.index);
    CollisionOfProofs(h, Root(h, leaves), |leaves|, e.index,
                      e.value, e.proof, leaves[e.index], LeafPath(h, leaves, e.index))
  }

  /** An honest update that is accepted commits to the vector with exactly that slot replaced. */
  lemma HonestWriteCommits(h: Hash, leaves: seq<Digest>, e: Event)
    requires IsPowerOfTwo(|leaves|) && AcceptedEvent(h, |leaves|, Root(h, leaves), e)
    requires e.Write? && Honest(h, leaves, e)
    ensures e.newRoot == Root(h, leaves[e.index := e.newValue])
  {
    var after := leaves[e.index := e.newValue];
    HonestUpdateAccepted(h, leaves, e.index, e.newValue);
    HonestProofAccepted(h, after, e.index);
    AcceptsExactLength(h, e.newRoot, e.proof, e.newValue, e.index, |leaves|);
  }

  /**
   An accepted event, from a prover that may do anything: the value is the one in the vector and the
   new root of an update is the root of the vector with exactly that slot replaced, or the event
   itself gives a hash collision.
   */
  lemma AcceptedEventIsExact(h: Hash, leaves: seq<Digest>, e: Event)
    requires IsPowerOfTwo(|leaves|) && AcceptedEvent(h, |leaves|, Root(h, leaves), e)
    ensures if Honest(h, leaves, e)
            then e.value == leaves[e.index] && (e.Write? ==> e.newRoot == Root(h, leaves[e.index := e.newValue]))
            else IsCollision(h, CollisionOfEvent(h, leaves, e))
  {
    if e.Write? && Honest(h, leaves, e) {
      HonestWriteCommits(h, leaves, e);
    }
  }

  // ---------------------------------------------------------------------------------------
  // Whole runs
  // ---------------------------------------------------------------------------------------

  /** Event `j` shows the value last committed at its index. */
  ghost predicate ShowsLastCommitted(initial: seq<Digest>, events: seq<Event>, j: nat)
    requires j < |events|
  {
    events[j].index < |initial| && events[j].value == LastCommitted(initial, events, j, events[j].index)
  }

  /** The first `k` events are a correct memory, and the verifier's root commits to it. */
  ghost predicate CorrectMemory(h: Hash, initial: seq<Digest>, events: seq<Event>, k: nat)
    requires k <= |events| && IsPowerOfTwo(|initial|)
  {
    && (forall j :: 0 <= j < k ==> ShowsLastCommitted(initial, events, j))
    && RootAfter(Root(h, initial), events, k) == Root(h, Committed(initial, events, k))
  }

  /**
   Look through the first `k` events for one that an honest prover would not have shown, and compute
   the collision it gives. If there is none, these events are a correct memory.
   */
  ghost function CollisionInRun(h: Hash, initial: seq<Digest>, events: seq<Event>, k: nat)
    : (r: Option<(bytes, bytes)>)
    requires IsPowerOfTwo(|initial|) && AcceptedRun(h, |initial|, Root(h, initial), events)
    requires k <= |events|
    ensures r.Some? ==> IsCollision(h, r.value)
    ensures r.None? ==> CorrectMemory(h, initial, events, k)
  {
    if k == 0 then
      assert Committed(initial, events, 0) == initial;
      None
    else
      var earlier := CollisionInRun(h, initial, events, k - 1);
      if earlier.Some? then earlier
      else
        var leaves, e := Committed(initial, events, k - 1), events[k - 1];
        assert AcceptedEvent(h, |leaves|, Root(h, leaves), e);
        if !Honest(h, leaves, e) then Some(CollisionOfEvent(h, leaves, e))
        else
          AcceptedEventIsExact(h, leaves, e);
          CorrectStep(h, initial, events, k);
          None
  }

  lemma CorrectStep(h: Hash, initial: seq<Digest>, events: seq<Event>, k: nat)
    requires 0 < k <= |events| && IsPowerOfTwo(|initial|) && CorrectMemory(h, initial, events, k - 1)
    requires events[k - 1].index < |initial|
    requires events[k - 1].value == LastCommitted(initial, events, k - 1, events[k - 1].index)
    requires var (vector, e) := (Committed(initial, events, k - 1), events[k - 1]);
             e.Write? ==> e.newRoot == Root(h, vector[e.index := e.newValue])
    ensures CorrectMemory(h, initial, events, k)
  {
    CommittedStep(initial, events, k - 1);
    assert ShowsLastCommitted(initial, events, k - 1);
  }

  /**
   The main theorem. A verifier that starts with the root of a known vector, and keeps only the
   current root, is shown any list of answers and accepts them all. Then every accepted value is the
   last one committed at its index, and the final root commits to the final vector; or else
   `CollisionInRun` computes two different inputs with the same hash.
   */
  lemma MemoryIsCorrectOrHashCollides(h: Hash, initial: seq<Digest>, events: seq<Event>)
    requires IsPowerOfTwo(|initial|) && AcceptedRun(h, |initial|, Root(h, initial), events)
    ensures match CollisionInRun(h, initial, events, |events|)
            case Some(pair) => pair.0 != pair.1 && h(pair.0) == h(pair.1)
            case None =>
              && (forall k :: 0 <= k < |events| ==> ShowsLastCommitted(initial, events, k))
              && RootAfter(Root(h, initial), events, |events|) == Root(h, Committed(initial, events, |events|))
  {
    var r := CollisionInRun(h, initial, events, |events|);
    if r.Some? {
      assert IsCollision(h, r.value);
    }
  }

  // ---------------------------------------------------------------------------------------
  // Pages instead of page hashes
  // ---------------------------------------------------------------------------------------

  /** Two pages with the same leaf hash are equal, or their leaf inputs collide. */
  lemma LeafBinding(h: Hash, a: bytes, b: bytes)
    requires HashLeaf(h, a) == HashLeaf(h, b)
    ensures a == b || IsCollision(h, ([0x00] + a, [0x00] + b))
  {
    if a != b {
      assert ([0x00] + a)[1..] == a && ([0x00] + b)[1..] == b;
    }
  }

  /** The contents written to `index` last before event `k`; `pages` are the contents behind the writes. */
  ghost function LastPage(initial: seq<bytes>, events: seq<Event>, pages: seq<bytes>, k: nat, index: nat): bytes
    requires k <= |events| == |pages| && index < |initial|
  {
    if k == 0 then initial[index]
    else if events[k - 1].Write? && events[k - 1].index == index then pages[k - 1]
    else LastPage(initial, events, pages, k - 1, index)
  }

  lemma {:induction false} LastPageHash(h: Hash, initial: seq<bytes>, events: seq<Event>, pages: seq<bytes>,
                                        k: nat, index: nat)
    requires k <= |events| == |pages| && index < |initial|
    requires forall j :: 0 <= j < |events| && events[j].Write? ==> events[j].newValue == HashLeaf(h, pages[j])
    ensures LastCommitted(LeafHashes(h, initial), events, k, index)
         == HashLeaf(h, LastPage(initial, events, pages, k, index))
  {
    if k > 0 {
      LastPageHash(h, initial, events, pages, k - 1, index);
    }
  }

  /**
   The same theorem for page contents: a page `shown` for read number `k`, whose leaf hash the
   verifier accepted, is the page last written to that index; or there is a collision, between
   internal nodes of the run or between the two pages as leaves.
   */
  lemma PageIsLastWrittenOrHashCollides(h: Hash, initial: seq<bytes>, events: seq<Event>, pages: seq<bytes>,
                                        k: nat, shown: bytes)
    requires IsPowerOfTwo(|initial|) && k < |events| == |pages|
    requires AcceptedRun(h, |initial|, Root(h, LeafHashes(h, initial)), events)
    requires forall j :: 0 <= j < |events| && events[j].Write? ==> events[j].newValue == HashLeaf(h, pages[j])
    requires events[k].value == HashLeaf(h, shown)
    ensures events[k].index < |initial|
    ensures var last := LastPage(initial, events, pages, k, events[k].index);
            match CollisionInRun(h, LeafHashes(h, initial), events, |events|)
            case Some(pair) => IsCollision(h, pair)
            case None => shown == last || IsCollision(h, ([0x00] + shown, [0x00] + last))
  {
    var leaves := LeafHashes(h, initial);
    assert AcceptedEvent(h, |initial|, RootAfter(Root(h, leaves), events, k), events[k]);
    MemoryIsCorrectOrHashCollides(h, leaves, events);
    if CollisionInRun(h, leaves, events, |events|).None? {
      assert ShowsLastCommitted(leaves, events, k);
      LastPageHash(h, initial, events, pages, k, events[k].index);
      LeafBinding(h, shown, LastPage(initial, events, pages, k, events[k].index));
    }
  }
}
