/**
 The messages between the device and its host, common/src/client_commands.rs, and the connection between
 them. The host may answer anything; an honest one holds the pages of the three sections and proves what it
 sends, in parts of any size.
 */
module HostLinks {
  import opened MachineInts
  import opened FlatMemory
  import opened MerkleTree
  import opened Accumulator
  import opened PageCache
  import HostMemory

  datatype SectionKind = CodeSection | DataSection | StackSection

  datatype ProofKind = Merkle | Hmac

  /** What the device asks of the host. */
  datatype Request =
    | GetPage(kind: SectionKind, pageIndex: u32)
    | GetPageProofContinued
    | CommitPage(kind: SectionKind, pageIndex: u32, nonce: Nonce, data: Page)
    | CommitPageProofContinued

  /** What the host answers: bytes that can be decoded as one of these, or not at all. */
  datatype Response =
    | PageResponse(data: Page, isEncrypted: bool, nonce: Nonce, n: u8, t: u8, proofKind: ProofKind, proof: seq<Digest>)
    | CommitResponse(n: u8, t: u8, newRoot: Digest, proof: seq<Digest>)
    | ContinuedResponse(t: u8, proof: seq<Digest>)
    | Undecodable

  /** `get_page_hash` */
  function PageHash(h: Hash, data: Page, nonce: Option<Nonce>): Digest {
    HashLeaf(h, HostMemory.SerializedPage(data, nonce))
  }

  /** The authentication code of a code page, for the key of the application. */
  type CodeHmac = (u32, Digest) -> Digest

  // ---------------------------------------------------------------------------------------
  // An honest host
  // ---------------------------------------------------------------------------------------

  /** The serialized pages of the sections, and the part of the last proof that was not sent yet. */
  datatype HostState = HostState(h: Hash, hmac: CodeHmac, code: seq<bytes>, data: seq<bytes>, stack: seq<bytes>,
                                 pending: seq<Digest>) {
    function Leaves(kind: SectionKind): seq<bytes> {
      match kind
      case CodeSection => code
      case DataSection => data
      case StackSection => stack
    }

    function With(kind: SectionKind, leaves: seq<bytes>): (s: HostState)
      ensures s.Leaves(kind) == leaves
    {
      match kind
      case CodeSection => this.(code := leaves)
      case DataSection => this.(data := leaves)
      case StackSection => this.(stack := leaves)
    }

    ghost function Path(kind: SectionKind, i: nat): seq<Digest>
      requires IsPowerOfTwo(|Leaves(kind)|) && i < |Leaves(kind)|
    {
      LeafPath(h, LeafHashes(h, Leaves(kind)), i)
    }

    ghost function RootOf(kind: SectionKind): Digest
      requires IsPowerOfTwo(|Leaves(kind)|)
    {
      Root(h, LeafHashes(h, Leaves(kind)))
    }
  }

  /**
   The requests that a host serves: for pages that exist, and for the rest of a proof while there is one; and
   no commits to the code, nor to a section of one page, whose empty proof the device refuses.
   */
  ghost predicate Proper(s: HostState, request: Request) {
    match request
    case GetPage(kind, i) => IsPowerOfTwo(|s.Leaves(kind)|) && i < |s.Leaves(kind)|
    case CommitPage(kind, i, _, _) =>
      !kind.CodeSection? && IsPowerOfTwo(|s.Leaves(kind)|) && i < |s.Leaves(kind)| && |s.Leaves(kind)| > 1
    case _ => s.pending != []
  }

  /** The first part of a proof. */
  predicate IsFirstPart(path: seq<Digest>, n: nat, t: nat, proof: seq<Digest>) {
    n == |path| && t == |proof| && proof <= path
  }

  function NonceOf(answer: Response): Option<Nonce>
    requires answer.PageResponse?
  {
    if answer.isEncrypted then Some(answer.nonce) else None
  }

  /** A code page may come with its authentication code instead of a proof. */
  predicate IsAuthenticated(s: HostState, kind: SectionKind, i: u32, answer: Response) {
    && answer.PageResponse? && answer.proofKind.Hmac? && kind.CodeSection? && !answer.isEncrypted
    && answer.n == 1 && answer.t == 1 && answer.proof == [s.hmac(i, PageHash(s.h, answer.data, None))]
  }

  /** `process_get_page`: the page with the first part of its proof. */
  ghost function AfterGet(s: HostState, kind: SectionKind, i: u32, answer: Response): Option<HostState>
    requires Proper(s, GetPage(kind, i))
  {
    if !answer.PageResponse? || HostMemory.SerializedPage(answer.data, NonceOf(answer)) != s.Leaves(kind)[i] then None
    else if IsAuthenticated(s, kind, i, answer) then Some(s.(pending := []))
    else if answer.proofKind.Merkle? && IsFirstPart(s.Path(kind, i), answer.n, answer.t, answer.proof) then
      Some(s.(pending := s.Path(kind, i)[|answer.proof|..]))
    else None
  }

  /** `process_commit_page`: the page is replaced, and the first part of the update proof is sent. */
  ghost function AfterCommit(s: HostState, kind: SectionKind, i: u32, leaf: bytes, answer: Response): Option<HostState>
    requires IsPowerOfTwo(|s.Leaves(kind)|) && i < |s.Leaves(kind)|
  {
    var after := s.With(kind, s.Leaves(kind)[i := leaf]);
    if answer.CommitResponse? && answer.newRoot == after.RootOf(kind)
       && IsFirstPart(s.Path(kind, i), answer.n, answer.t, answer.proof)
    then Some(after.(pending := s.Path(kind, i)[|answer.proof|..]))
    else None
  }

  /** More of the proof. */
  function AfterContinued(s: HostState, answer: Response): Option<HostState> {
    if answer.ContinuedResponse? && answer.t == |answer.proof| && answer.proof <= s.pending then
      Some(s.(pending := s.pending[|answer.proof|..]))
    else None
  }

  /** The state of an honest host after it gave this answer; `None` if no honest host gives it. */
  ghost function HonestNext(s: HostState, request: Request, answer: Response): Option<HostState>
    requires Proper(s, request)
  {
    match request
    case GetPage(kind, i) => AfterGet(s, kind, i, answer)
    case CommitPage(kind, i, nonce, data) => AfterCommit(s, kind, i, HostMemory.SerializedPage(data, Some(nonce)), answer)
    case _ => AfterContinued(s, answer)
  }

  // ---------------------------------------------------------------------------------------
  // How an exchange went
  // ---------------------------------------------------------------------------------------

  /**
   All answers so far were those of an honest host, which is now in this state; or the first thing to go
   wrong was that the connection was lost, that the device asked what no host serves, or that the host
   answered what no honest one does.
   */
  datatype Conduct = Honest(state: HostState) | Lost | Misused | Deviated

  ghost function Next(c: Conduct, request: Request, answer: Option<Response>): Conduct {
    if !c.Honest? then c
    else if answer.None? then Lost
    else if !Proper(c.state, request) then Misused
    else
      match HonestNext(c.state, request, answer.value)
      case Some(s) => Honest(s)
      case None => Deviated
  }

  /** The answer to the last of the requests, unless there were too many. */
  function Reply(strategy: seq<Request> -> Response, horizon: nat, asked: seq<Request>): Option<Response> {
    if |asked| <= horizon then Some(strategy(asked)) else None
  }

  ghost function ConductAfter(start: HostState, strategy: seq<Request> -> Response, horizon: nat, asked: seq<Request>)
    : Conduct
  {
    if asked == [] then Honest(start)
    else
      var before := asked[..|asked| - 1];
      Next(ConductAfter(start, strategy, horizon, before), asked[|asked| - 1], Reply(strategy, horizon, asked))
  }

  /** The other sections are as they were. */
  ghost predicate SameExcept(s: HostState, t: HostState, kinds: set<SectionKind>) {
    && s.h == t.h && s.hmac == t.hmac
    && (CodeSection in kinds || s.code == t.code) && (DataSection in kinds || s.data == t.data)
    && (StackSection in kinds || s.stack == t.stack)
  }

  /** A lost connection is one that was used too often. */
  lemma {:induction false} LostLate(start: HostState, strategy: seq<Request> -> Response, horizon: nat, asked: seq<Request>)
    ensures ConductAfter(start, strategy, horizon, asked).Lost? ==> |asked| > horizon
    decreases |asked|
  {
    if asked != [] {
      LostLate(start, strategy, horizon, asked[..|asked| - 1]);
    }
  }

  /** The answers are always those of an honest host that starts in this state. */
  ghost predicate NeverDeviates(strategy: seq<Request> -> Response, start: HostState, horizon: nat) {
    forall asked :: !ConductAfter(start, strategy, horizon, asked).Deviated?
  }

  lemma SameLeaves(s: HostState, t: HostState, kinds: set<SectionKind>, kind: SectionKind)
    requires SameExcept(s, t, kinds) && kind !in kinds
    ensures s.Leaves(kind) == t.Leaves(kind)
  {
  }

  /** What requests about these sections do to a conduct, if they are proper ones. */
  ghost predicate IsLater(before: Conduct, after: Conduct, kinds: set<SectionKind>, proper: bool) {
    && (!before.Honest? ==> after == before)
    && (proper && after.Misused? ==> before.Misused?)
    && (after.Honest? ==> before.Honest? && SameExcept(before.state, after.state, kinds))
  }

  /** The connection: what the host will answer to all that it was asked, and how often it answers at all. */
  class HostLink {
    const strategy: seq<Request> -> Response
    const horizon: nat
    ghost const start: HostState
    ghost const conduct: seq<Request> -> Conduct
    var asked: seq<Request>

    /** The conduct is that of the strategy. */
    ghost predicate Valid() {
      forall asked {:trigger ConductAfter(start, strategy, horizon, asked)} ::
        conduct(asked) == ConductAfter(start, strategy, horizon, asked)
    }

    constructor (strategy: seq<Request> -> Response, horizon: nat, ghost start: HostState)
      ensures Valid() && this.strategy == strategy && this.horizon == horizon && this.start == start && asked == []
      ensures SoFar() == Honest(start)
    {
      this.strategy, this.horizon, this.start, this.asked := strategy, horizon, start, [];
      this.conduct := (asked: seq<Request>) => ConductAfter(start, strategy, horizon, asked);
    }

    ghost function At(asked: seq<Request>): Conduct {
      conduct(asked)
    }

    /** How the exchange went so far. */
    ghost function SoFar(): Conduct
      reads this
    {
      At(asked)
    }

    /** The `k`-th answer. */
    ghost predicate Gave(k: nat, answer: Response, asked: seq<Request>) {
      0 < k <= |asked| && k <= horizon && answer == strategy(asked[..k])
    }

    ghost predicate Between(before: seq<Request>, after: seq<Request>, kinds: set<SectionKind>, proper: bool) {
      before <= after && IsLater(At(before), At(after), kinds, proper)
    }

    /** Since then, there were only proper requests about these sections. */
    ghost predicate Since(before: seq<Request>, kinds: set<SectionKind>, proper: bool)
      reads this
    {
      Between(before, asked, kinds, proper)
    }

    /** `interrupt`: one request, and one answer unless the connection fails. */
    method Interrupt(request: Request) returns (r: Result<Response, MemoryError>)
      requires Valid()
      modifies this
      ensures asked == old(asked) + [request]
      ensures SoFar() == Next(old(SoFar()), request, Reply(strategy, horizon, asked))
      ensures match r
              case Ok(answer) => |asked| <= horizon && answer == strategy(asked) && !SoFar().Lost?
              case Err(e) => |asked| > horizon && e.GenericError?
    {
      ghost var before := asked;
      asked := asked + [request];
      assert asked[..|asked| - 1] == before;
      assert conduct(before) == ConductAfter(start, strategy, horizon, before);
      assert conduct(asked) == ConductAfter(start, strategy, horizon, asked);
      LostLate(start, strategy, horizon, asked);
      r := if |asked| <= horizon then Ok(strategy(asked)) else Err(GenericError("Interrupted"));
    }
  }
}
