/**
 The host as client-sdk/src/vanadium_client.rs runs it: it serves the pages of its three segments with Merkle
 proofs, cut into parts that fit a message, or code pages with stored authentication codes. Its answers are
 those of an honest host, whatever the size of the parts.
 */
module HonestHosts {
  import opened MachineInts
  import opened FlatMemory
  import opened MerkleTree
  import opened ProofVerifier
  import opened Accumulator
  import opened PageCache
  import opened HostLinks
  import HostMemory

  // ---------------------------------------------------------------------------------------
  // Pages that can be served
  // ---------------------------------------------------------------------------------------

  /** A serialized page: only an encrypted one has a nonce. */
  predicate IsSerialized(leaf: bytes) {
    && |leaf| == HostMemory.HEADER_SIZE + PAGE_SIZE
    && (leaf[0] == 1 || leaf[..HostMemory.HEADER_SIZE] == Zeros(HostMemory.HEADER_SIZE))
  }

  ghost predicate AreServable(leaves: seq<bytes>) {
    && IsPowerOfTwo(|leaves|) && |leaves| <= TWO_32
    && forall i :: 0 <= i < |leaves| ==> IsSerialized(leaves[i])
  }

  /** The pages of the code are in clear. */
  ghost predicate Servable(s: HostState) {
    && AreServable(s.code) && AreServable(s.data) && AreServable(s.stack) && |s.pending| < TWO_8
    && forall i :: 0 <= i < |s.code| ==> s.code[i][0] == 0
  }

  lemma SerializedAgain(leaf: bytes)
    requires IsSerialized(leaf)
    ensures HostMemory.SerializedPage(leaf[HostMemory.HEADER_SIZE..], if leaf[0] != 0 then Some(leaf[1..13]) else None) == leaf
  {
    if leaf[0] != 0 {
      assert leaf == [1] + leaf[1..13] + leaf[13..];
    } else {
      assert leaf == leaf[..13] + leaf[13..];
    }
  }

  lemma {:induction false} Log2Bound(n: nat, k: nat)
    requires IsPowerOfTwo(n) && n <= Pow2(k)
    ensures Log2(n) <= k
  {
    if n > 1 {
      Log2Bound(n / 2, k - 1);
    }
  }

  /** The length of a proof fits in a byte. */
  lemma PathFits(s: HostState, kind: SectionKind, i: nat)
    requires AreServable(s.Leaves(kind)) && i < |s.Leaves(kind)|
    ensures |s.Path(kind, i)| < TWO_8
  {
    var hashes := LeafHashes(s.h, s.Leaves(kind));
    HonestProofAccepted(s.h, hashes, i);
    AcceptsExactLength(s.h, Root(s.h, hashes), s.Path(kind, i), hashes[i], i, |hashes|);
    Pow2Of32();
    Log2Bound(|hashes|, 32);
  }

  // ---------------------------------------------------------------------------------------
  // What the host answers
  // ---------------------------------------------------------------------------------------

  /** A page, with its authentication code or with the first `cut` siblings of its proof. */
  ghost function PageAnswer(s: HostState, hmacs: bool, cut: nat, kind: SectionKind, i: u32): Response
    requires Servable(s) && i < |s.Leaves(kind)|
  {
    var leaf := s.Leaves(kind)[i];
    var data := leaf[HostMemory.HEADER_SIZE..];
    if hmacs && kind.CodeSection? then
      PageResponse(data, false, leaf[1..13], 1, 1, Hmac, [s.hmac(i, PageHash(s.h, data, None))])
    else
      PathFits(s, kind, i);
      var (path, t) := (s.Path(kind, i), Min(|s.Path(kind, i)|, cut));
      PageResponse(data, leaf[0] != 0, leaf[1..13], |path|, t, Merkle, path[..t])
  }

  ghost function CommitAnswer(s: HostState, cut: nat, kind: SectionKind, i: u32, leaf: bytes): Response
    requires Servable(s) && i < |s.Leaves(kind)|
  {
    PathFits(s, kind, i);
    var (path, t) := (s.Path(kind, i), Min(|s.Path(kind, i)|, cut));
    CommitResponse(|path|, t, s.With(kind, s.Leaves(kind)[i := leaf]).RootOf(kind), path[..t])
  }

  ghost function PartAnswer(s: HostState, cut: nat): Response
    requires Servable(s)
  {
    var t := Min(|s.pending|, cut);
    ContinuedResponse(t, s.pending[..t])
  }

  /** The answer to a proper request, with at most `cut` siblings of a proof. */
  ghost function HonestAnswer(s: HostState, hmacs: bool, cut: nat, request: Request): Response
    requires Servable(s) && Proper(s, request)
  {
    match request
    case GetPage(kind, i) => PageAnswer(s, hmacs, cut, kind, i)
    case CommitPage(kind, i, nonce, data) => CommitAnswer(s, cut, kind, i, HostMemory.SerializedPage(data, Some(nonce)))
    case _ => PartAnswer(s, cut)
  }

  lemma PageIsHonest(s: HostState, hmacs: bool, cut: nat, kind: SectionKind, i: u32)
    requires Servable(s) && i < |s.Leaves(kind)|
    ensures AfterGet(s, kind, i, PageAnswer(s, hmacs, cut, kind, i)).Some?
    ensures Servable(AfterGet(s, kind, i, PageAnswer(s, hmacs, cut, kind, i)).value)
  {
    SerializedAgain(s.Leaves(kind)[i]);
    PathFits(s, kind, i);
  }

  lemma CommitIsHonest(s: HostState, cut: nat, kind: SectionKind, i: u32, leaf: bytes)
    requires Servable(s) && i < |s.Leaves(kind)| && !kind.CodeSection? && IsSerialized(leaf)
    ensures AfterCommit(s, kind, i, leaf, CommitAnswer(s, cut, kind, i, leaf)).Some?
    ensures Servable(AfterCommit(s, kind, i, leaf, CommitAnswer(s, cut, kind, i, leaf)).value)
  {
    PathFits(s, kind, i);
  }

  /** The answers are those of an honest host, and leave it with pages that can be served. */
  lemma AnswerIsHonest(s: HostState, hmacs: bool, cut: nat, request: Request)
    requires Servable(s) && Proper(s, request)
    ensures HonestNext(s, request, HonestAnswer(s, hmacs, cut, request)).Some?
    ensures Servable(HonestNext(s, request, HonestAnswer(s, hmacs, cut, request)).value)
  {
    match request
    case GetPage(kind, i) => PageIsHonest(s, hmacs, cut, kind, i);
    case CommitPage(kind, i, nonce, data) =>
      var leaf := HostMemory.SerializedPage(data, Some(nonce));
      assert IsSerialized(leaf);
      CommitIsHonest(s, cut, kind, i, leaf);
    case _ =>
  }

  // ---------------------------------------------------------------------------------------
  // A host for a whole run
  // ---------------------------------------------------------------------------------------

  /** The state after these requests; one that is not proper is not served, and nothing after it matters. */
  ghost function HostAfter(start: HostState, hmacs: bool, cut: nat -> nat, asked: seq<Request>): Option<HostState>
    requires Servable(start)
    ensures HostAfter(start, hmacs, cut, asked).Some? ==> Servable(HostAfter(start, hmacs, cut, asked).value)
    decreases |asked|
  {
    if asked == [] then Some(start)
    else
      var (before, request) := (HostAfter(start, hmacs, cut, asked[..|asked| - 1]), asked[|asked| - 1]);
      if before.None? || !Proper(before.value, request) then None
      else
        AnswerIsHonest(before.value, hmacs, cut(|asked|), request);
        HonestNext(before.value, request, HonestAnswer(before.value, hmacs, cut(|asked|), request))
  }

  /** Answers for whole runs; the `k`-th one has at most `cut(k)` siblings. */
  ghost function HonestStrategy(start: HostState, hmacs: bool, cut: nat -> nat): seq<Request> -> Response
    requires Servable(start)
  {
    (asked: seq<Request>) => StrategyAnswer(start, hmacs, cut, asked)
  }

  ghost function StrategyAnswer(start: HostState, hmacs: bool, cut: nat -> nat, asked: seq<Request>): Response
    requires Servable(start)
  {
    if asked == [] then Undecodable
    else
      var (before, request) := (HostAfter(start, hmacs, cut, asked[..|asked| - 1]), asked[|asked| - 1]);
      if before.None? || !Proper(before.value, request) then Undecodable
      else HonestAnswer(before.value, hmacs, cut(|asked|), request)
  }

  /** The state of the strategy is that of the honest host that is seen in its answers. */
  lemma {:induction false} StrategyIsHonest(start: HostState, hmacs: bool, cut: nat -> nat, horizon: nat, asked: seq<Request>)
    requires Servable(start)
    ensures var c := ConductAfter(start, HonestStrategy(start, hmacs, cut), horizon, asked);
            !c.Deviated? && (c.Honest? ==> HostAfter(start, hmacs, cut, asked) == Some(c.state))
    decreases |asked|
  {
    if asked != [] {
      StrategyIsHonest(start, hmacs, cut, horizon, asked[..|asked| - 1]);
      var before := HostAfter(start, hmacs, cut, asked[..|asked| - 1]);
      if before.Some? && Proper(before.value, asked[|asked| - 1]) {
        AnswerIsHonest(before.value, hmacs, cut(|asked|), asked[|asked| - 1]);
      }
    }
  }

  /** However the proofs are cut, the host never deviates from an honest one. */
  lemma StrategyNeverDeviates(start: HostState, hmacs: bool, cut: nat -> nat, horizon: nat)
    requires Servable(start)
    ensures NeverDeviates(HonestStrategy(start, hmacs, cut), start, horizon)
  {
    forall asked
      ensures !ConductAfter(start, HonestStrategy(start, hmacs, cut), horizon, asked).Deviated?
    {
      StrategyIsHonest(start, hmacs, cut, horizon, asked);
    }
  }

  // ---------------------------------------------------------------------------------------
  // The client
  // ---------------------------------------------------------------------------------------

  const MAX_APDU_DATA_SIZE: nat := 590

  /** `max_proof_size` of the three messages. */
  const MAX_PAGE_PROOF: nat := (MAX_APDU_DATA_SIZE - PAGE_SIZE - 1 - 1 - 1 - 12 - 1) / 32
  const MAX_COMMIT_PROOF: nat := (MAX_APDU_DATA_SIZE - 2 - 32) / 32
  const MAX_PART: nat := (MAX_APDU_DATA_SIZE - 1) / 32

  /**
   They are the most digests that fit beside the fixed part of each message: page, flag, nonce, two counts and
   kind for a page, two counts and the new root for a commit, one count for a further part.
   */
  lemma LargestParts()
    ensures (PAGE_SIZE + 1 + 12 + 2 + 1) + 32 * MAX_PAGE_PROOF <= 590 < (PAGE_SIZE + 1 + 12 + 2 + 1) + 32 * (MAX_PAGE_PROOF + 1)
    ensures (2 + 32) + 32 * MAX_COMMIT_PROOF <= 590 < (2 + 32) + 32 * (MAX_COMMIT_PROOF + 1)
    ensures 1 + 32 * MAX_PART <= 590 < 1 + 32 * (MAX_PART + 1)
  {
  }

  function MaxProofSize(request: Request): nat {
    match request
    case GetPage(_, _) => MAX_PAGE_PROOF
    case CommitPage(_, _, _, _) => MAX_COMMIT_PROOF
    case _ => MAX_PART
  }

  ghost predicate Separate(a: HostMemory.HostMemorySegment, b: HostMemory.HostMemorySegment)
    reads a.content, b.content
  {
    a.content != b.content && a.content.tree != b.content.tree
  }

  class VanadiumClient {
    const codeSeg: HostMemory.HostMemorySegment
    const dataSeg: HostMemory.HostMemorySegment
    const stackSeg: HostMemory.HostMemorySegment
    const codeHmacs: Option<seq<Digest>>
    ghost const hmac: CodeHmac
    var pending: seq<Digest> // the siblings that the loop over the parts of a proof still has to send

    ghost predicate Valid()
      reads this, codeSeg.content, codeSeg.content.tree, dataSeg.content, dataSeg.content.tree
      reads stackSeg.content, stackSeg.content.tree
    {
      && codeSeg.Valid() && dataSeg.Valid() && stackSeg.Valid()
      && Separate(codeSeg, dataSeg) && Separate(codeSeg, stackSeg) && Separate(dataSeg, stackSeg)
      && codeSeg.content.h == dataSeg.content.h == stackSeg.content.h
      && Servable(State())
      && (codeHmacs.Some? ==> AreCodes(State(), codeHmacs.value))
    }

    /** What the client holds. */
    ghost function State(): HostState
      reads this, codeSeg.content, dataSeg.content, stackSeg.content
    {
      HostState(codeSeg.content.h, hmac, codeSeg.content.data, dataSeg.content.data, stackSeg.content.data, pending)
    }

    /** The segments of an application that was just loaded, and the codes from when it was preloaded. */
    constructor (codeSeg: HostMemory.HostMemorySegment, dataSeg: HostMemory.HostMemorySegment,
                 stackSeg: HostMemory.HostMemorySegment, codeHmacs: Option<seq<Digest>>, ghost hmac: CodeHmac)
      requires codeSeg.Valid() && dataSeg.Valid() && stackSeg.Valid()
      requires Separate(codeSeg, dataSeg) && Separate(codeSeg, stackSeg) && Separate(dataSeg, stackSeg)
      requires codeSeg.content.h == dataSeg.content.h == stackSeg.content.h
      requires var s := HostState(codeSeg.content.h, hmac, codeSeg.content.data, dataSeg.content.data,
                                  stackSeg.content.data, []);
               Servable(s) && (codeHmacs.Some? ==> AreCodes(s, codeHmacs.value))
      ensures Valid() && pending == [] && this.codeSeg == codeSeg && this.dataSeg == dataSeg && this.stackSeg == stackSeg
      ensures this.codeHmacs == codeHmacs && this.hmac == hmac
    {
      this.codeSeg, this.dataSeg, this.stackSeg := codeSeg, dataSeg, stackSeg;
      this.codeHmacs, this.hmac, this.pending := codeHmacs, hmac, [];
    }

    function SegmentOf(kind: SectionKind): HostMemory.HostMemorySegment {
      match kind
      case CodeSection => codeSeg
      case DataSection => dataSeg
      case StackSection => stackSeg
    }

    /** `process_get_page`, up to the first part of the proof; `None` is an error. */
    method ProcessGetPage(kind: SectionKind, pageIndex: u32) returns (r: Option<Response>)
      requires Valid()
      modifies this`pending
      ensures Valid() && (r.Some? <==> pageIndex < |State().Leaves(kind)|)
      ensures r.Some? ==>
                && r.value == PageAnswer(old(State()), codeHmacs.Some?, MAX_PAGE_PROOF, kind, pageIndex)
                && AfterGet(old(State()), kind, pageIndex, r.value) == Some(State())
    {
      var message := PageMessage(kind, pageIndex);
      if message.None? {
        return None;
      }
      PageIsHonest(State(), codeHmacs.Some?, MAX_PAGE_PROOF, kind, pageIndex);
      pending := message.value.1;
      r := Some(message.value.0);
    }

    /** The first message, and the siblings that are left. */
    method PageMessage(kind: SectionKind, pageIndex: u32) returns (r: Option<(Response, seq<Digest>)>)
      requires Valid()
      ensures r.Some? <==> pageIndex < |State().Leaves(kind)|
      ensures r.Some? ==>
                && r.value.0 == PageAnswer(State(), codeHmacs.Some?, MAX_PAGE_PROOF, kind, pageIndex)
                && AfterGet(State(), kind, pageIndex, r.value.0) == Some(State().(pending := r.value.1))
    {
      var got := SegmentOf(kind).GetPage(pageIndex);
      if got.Err? {
        return None;
      }
      var (page, proof) := got.value;
      PageIsHonest(State(), codeHmacs.Some?, MAX_PAGE_PROOF, kind, pageIndex);
      var (data, nonce) := (page[HostMemory.HEADER_SIZE..], page[1..13]);
      if kind.CodeSection? && codeHmacs.Some? {
        return Some((PageResponse(data, false, nonce, 1, 1, Hmac, [codeHmacs.value[pageIndex]]), []));
      }
      PathFits(State(), kind, pageIndex);
      var t := Min(|proof|, MAX_PAGE_PROOF);
      r := Some((PageResponse(data, page[0] != 0, nonce, |proof|, t, Merkle, proof[..t]), proof[t..]));
    }

    /** `process_commit_page`, up to the first part of the proof. */
    method ProcessCommitPage(kind: SectionKind, pageIndex: u32, nonce: Nonce, data: Page) returns (r: Option<Response>)
      requires Valid()
      modifies this`pending, dataSeg.content`data, dataSeg.content.tree, stackSeg.content`data, stackSeg.content.tree
      ensures Valid() && (r.Some? <==> !kind.CodeSection? && pageIndex < |old(State()).Leaves(kind)|)
      ensures r.None? ==> State() == old(State())
      ensures r.Some? ==>
                var leaf := HostMemory.SerializedPage(data, Some(nonce));
                && r.value == CommitAnswer(old(State()), MAX_COMMIT_PROOF, kind, pageIndex, leaf)
                && AfterCommit(old(State()), kind, pageIndex, leaf, r.value) == Some(State())
    {
      if kind.CodeSection? {
        return None;
      }
      ghost var s := State();
      var serialized := HostMemory.SerializedPage(data, Some(nonce));
      var stored := SegmentOf(kind).StorePage(pageIndex, serialized);
      if stored.Err? {
        return None;
      }
      var (proof, newRoot) := stored.value;
      CommitIsHonest(s, MAX_COMMIT_PROOF, kind, pageIndex, serialized);
      PathFits(s, kind, pageIndex);
      var t := Min(|proof|, MAX_COMMIT_PROOF);
      pending := proof[t..];
      r := Some(CommitResponse(|proof|, t, newRoot, proof[..t]));
    }

    /** One round of the loop over the parts of a proof; there is none when all were sent. */
    method SendPart() returns (r: Option<Response>)
      requires Valid()
      modifies this`pending
      ensures Valid() && (r.Some? <==> old(pending) != []) && (r.None? ==> pending == old(pending))
      ensures r.Some? ==>
                && r.value == PartAnswer(old(State()), MAX_PART)
                && AfterContinued(old(State()), r.value) == Some(State())
    {
      if pending == [] {
        return None;
      }
      var t := Min(|pending|, MAX_PART);
      r := Some(ContinuedResponse(t, pending[..t]));
      pending := pending[t..];
    }

    /**
     One request. A proper one is answered as by the honest host that holds the pages of the three segments,
     which then hold the pages of that host afterwards.
     */
    method Serve(request: Request) returns (r: Option<Response>)
      requires Valid()
      modifies this`pending, dataSeg.content`data, dataSeg.content.tree, stackSeg.content`data, stackSeg.content.tree
      ensures Valid()
      ensures Proper(old(State()), request) ==>
                && r == Some(HonestAnswer(old(State()), codeHmacs.Some?, MaxProofSize(request), request))
                && HonestNext(old(State()), request, r.value) == Some(State())
    {
      match request
      case GetPage(kind, pageIndex) => r := ProcessGetPage(kind, pageIndex);
      case CommitPage(kind, pageIndex, nonce, data) => r := ProcessCommitPage(kind, pageIndex, nonce, data);
      case _ => r := SendPart();
    }
  }

  /** The stored authentication codes of the code pages. */
  ghost predicate AreCodes(s: HostState, hmacs: seq<Digest>)
    requires Servable(s)
  {
    && |hmacs| == |s.code|
    && forall i :: 0 <= i < |s.code| ==>
         hmacs[i] == s.hmac(i, PageHash(s.h, s.code[i][HostMemory.HEADER_SIZE..], None))
  }
}
