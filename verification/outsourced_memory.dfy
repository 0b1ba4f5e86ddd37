/**
 The device's memory over an untrusted host, vm/src/handlers/lib/outsourced_mem.rs: pages are loaded with
 inclusion proofs into a cache, and modified ones are encrypted and committed with update proofs when they
 are evicted. The host may answer anything; the object keeps only a root.
 */
module OutsourcedMemories {
  import opened MachineInts
  import opened BigEndian
  import opened Buffers
  import opened FlatMemory
  import opened MerkleTree
  import opened ProofVerifier
  import opened Accumulator
  import opened AesCtrMode
  import opened PageCache
  import opened HostLinks
  import HostMemory

  /**
   How the device came to accept a page that it did not commit to: two inputs with the same hash; an
   authentication code of a code page that is not the committed one, in the `k`-th answer; or it asked for
   a page that does not exist, of a memory of one page, and too few siblings came with it.
   */
  datatype Breach =
    | Collision(pair: (bytes, bytes))
    | Forgery(pageIndex: u32, k: nat, answer: Response)
    | ShortProof(pageIndex: u32, siblings: seq<Digest>)

  ghost predicate IsForgery(h: Hash, hmac: CodeHmac, leaves: seq<bytes>, pageIndex: u32, answer: Response) {
    && answer.PageResponse? && answer.proofKind.Hmac? && !answer.isEncrypted
    && answer.proof == [hmac(pageIndex, PageHash(h, answer.data, None))]
    && (pageIndex < |leaves| ==> leaves[pageIndex] != HostMemory.SerializedPage(answer.data, None))
  }

  class OutsourcedMemory {
    const h: Hash
    const host: HostLink
    const aesCtr: AesCtr
    const hmac: CodeHmac
    const nPages: u32
    const sectionKind: SectionKind
    const isReadonly: bool
    var cachedPages: seq<CachedPage>
    var merkleRoot: Digest
    var lastAccessedPage: Option<(u32, nat)>

    // what the root commits to, what the memory holds, and how the host got past the proofs, if it did
    ghost var leaves: seq<bytes>
    ghost var pages: seq<bytes>
    ghost var breach: Option<Breach>
    ghost var failed: bool // an operation reported an error; the machine then stops

    /** `n_pages_adjusted` */
    function NPagesAdjusted(): (n: nat)
      ensures IsPowerOfTwo(n) && n > 0
    {
      HostMemory.NextPowerOfTwo(nPages)
    }

    /** What a breach shows about the memory. */
    ghost predicate Breaks(b: Breach)
      reads this
    {
      match b
      case Collision(pair) => IsCollision(h, pair)
      case Forgery(i, _, answer) => sectionKind.CodeSection? && IsForgery(h, hmac, leaves, i, answer)
      case ShortProof(i, siblings) => |leaves| == 1 && i > 0 && |siblings| < Depth(i)
    }

    /** It also shows an answer of the host, if it is about a code page. */
    ghost predicate Shown(b: Breach, asked: seq<Request>) {
      b.Forgery? ==> host.Gave(b.k, b.answer, asked)
    }

    ghost predicate IsBreach(b: Breach)
      reads this, host
    {
      Breaks(b) && Shown(b, host.asked)
    }

    /** An honest host holds these leaves. */
    ghost predicate Serves(s: HostState, leaves: seq<bytes>) {
      s.h == h && s.hmac == hmac && s.Leaves(sectionKind) == leaves
    }

    /** The last accessed page is where it is said to be. */
    ghost predicate LastIsCached()
      reads this
    {
      lastAccessedPage.Some? ==>
        Holds(cachedPages, lastAccessedPage.value.1, lastAccessedPage.value.0)
    }

    /** The root commits to the leaves, and these and the cache stand for the pages. */
    ghost predicate Consistent()
      reads this
    {
      && |leaves| == NPagesAdjusted() && merkleRoot == Root(h, LeafHashes(h, leaves))
      && Agrees(h, aesCtr.cipher, cachedPages, leaves, pages)
    }

    /** What this memory knows by itself. */
    ghost predicate Own()
      reads this
    {
      && host.Valid() && |cachedPages| > 0 && |pages| == NPagesAdjusted() && ArePages(pages)
      && (isReadonly ==> forall s :: 0 <= s < |cachedPages| ==> !cachedPages[s].modified)
      && (if breach.None? then Consistent() else Breaks(breach.value))
    }

    /** What it knows about an exchange with the host: an honest one never gets past a proof. */
    ghost predicate AgreesWithHost(asked: seq<Request>)
      reads this
    {
      && (breach.Some? ==> Shown(breach.value, asked) && (host.At(asked).Misused? || host.At(asked).Deviated?))
      && (host.At(asked).Honest? ==> Serves(host.At(asked).state, leaves))
    }

    /** All that holds at any time, also after an error. */
    ghost predicate Sound()
      reads this, host, aesCtr, aesCtr.nonce
    {
      Own() && AgreesWithHost(host.asked) && aesCtr.Valid() && aesCtr.short
    }

    /** All answers were honest ones, and the block function works: no reason for an error. */
    ghost predicate Served()
      reads host
    {
      host.SoFar().Honest? && Total(aesCtr.cipher)
    }

    ghost predicate Valid()
      reads this, host, aesCtr, aesCtr.nonce
    {
      Sound() && (if failed then !Served() else LastIsCached())
    }

    /** No commits to the code. */
    predicate CodeIsFixed() {
      sectionKind.CodeSection? ==> isReadonly
    }

    /** A breach is kept, and none comes from asking for a page that exists. */
    ghost predicate KeepsBreach(before: Option<Breach>, inRange: bool)
      reads this
    {
      && (before.Some? ==> breach == before)
      && (inRange && breach.Some? && breach.value.ShortProof? ==> before.Some?)
    }

    /** What a request for a page does besides; `inRange` says that there is such a page. */
    ghost predicate Moved(asked: seq<Request>, before: Option<Breach>, inRange: bool)
      reads this, host
    {
      KeepsBreach(before, inRange) && host.Since(asked, {sectionKind}, inRange && CodeIsFixed())
    }

    /** One request after another. */
    lemma MovedFurther(asked: seq<Request>, before: Option<Breach>, midway: seq<Request>, between: Option<Breach>)
      requires host.Between(asked, midway, {sectionKind}, CodeIsFixed())
      requires before.Some? ==> between == before
      requires between.Some? && between.value.ShortProof? ==> before.Some?
      requires Moved(midway, between, true)
      ensures Moved(asked, before, true)
    {
    }

    /** The requests of other memories leave this one as it is. */
    lemma StillAgrees(before: seq<Request>, after: seq<Request>, kinds: set<SectionKind>, proper: bool)
      requires AgreesWithHost(before) && host.Between(before, after, kinds, proper) && sectionKind !in kinds
      ensures AgreesWithHost(after)
    {
      StillShown(breach, before, after);
      var (was, now) := (host.At(before), host.At(after));
      if now.Honest? {
        SameLeaves(was.state, now.state, kinds, sectionKind);
      }
    }

    /** `new`, with a root that commits to the pages in clear. */
    constructor (h: Hash, host: HostLink, aesCtr: AesCtr, hmac: CodeHmac, maxPagesInCache: nat, isReadonly: bool,
                 sectionKind: SectionKind, nPages: u32, merkleRoot: Digest, ghost pages: seq<bytes>)
      requires maxPagesInCache > 0 && host.Valid() && aesCtr.Valid() && aesCtr.short
      requires |pages| == HostMemory.NextPowerOfTwo(nPages) && ArePages(pages)
      requires merkleRoot == Root(h, LeafHashes(h, ClearLeaves(pages)))
      requires host.SoFar().Honest? ==> HoldsPages(host.SoFar().state, h, hmac, sectionKind, pages)
      ensures Valid() && !failed && breach.None? && this.pages == pages
      ensures this.h == h && this.host == host && this.aesCtr == aesCtr && this.hmac == hmac && this.nPages == nPages
      ensures this.sectionKind == sectionKind && this.isReadonly == isReadonly
    {
      this.h, this.host, this.aesCtr, this.hmac, this.nPages := h, host, aesCtr, hmac, nPages;
      this.sectionKind, this.isReadonly, this.merkleRoot := sectionKind, isReadonly, merkleRoot;
      this.cachedPages := seq(maxPagesInCache, _ => CachedPage(0, Zeros(PAGE_SIZE), Zeros(32), false, false));
      this.lastAccessedPage := None;
      this.leaves, this.pages, this.breach, this.failed := ClearLeaves(pages), pages, None, false;
      new;
      EmptyAgrees(h, aesCtr.cipher, cachedPages, leaves, pages);
    }

    // -------------------------------------------------------------------------------------
    // Loading
    // -------------------------------------------------------------------------------------

    /**
     The loop that asks for the rest of an inclusion proof, `t` of its `n` siblings having come. It ends
     without an error only after enough siblings; an honest host sends what was missing.
     */
    method FeedContinued(verifier: MerkleInclusionProofVerifier, n: nat, t: nat) returns (e: Option<MemoryError>)
      requires verifier.Valid() && verifier.h == h
      requires host.Valid() && !host.SoFar().Lost? && (host.SoFar().Honest? ==> t + |host.SoFar().state.pending| == n)
      modifies host, verifier
      ensures verifier.Valid() && verifier.root == old(verifier.root) && host.Since(old(host.asked), {}, true)
      ensures if e.None? then |verifier.fed| + t >= old(|verifier.fed|) + n && !host.SoFar().Lost?
              else e.value.GenericError? && !host.SoFar().Honest?
      ensures host.SoFar().Honest? ==> verifier.fed == old(verifier.fed) + old(host.SoFar()).state.pending
    {
      ghost var (asked, fed, conduct) := (host.asked, verifier.fed, host.SoFar());
      var processed := t;
      while processed < n
        invariant verifier.Valid() && verifier.root == old(verifier.root)
        invariant !host.SoFar().Lost? && host.Since(asked, {}, true) && |verifier.fed| + t == |fed| + processed
        invariant host.SoFar().Honest? ==> Remaining(conduct, host.SoFar(), fed, verifier.fed, n - processed)
        decreases host.horizon - |host.asked|
      {
        ghost var now := host.SoFar();
        var response := host.Interrupt(GetPageProofContinued);
        match response
        case Err(error) => return Some(error);
        case Ok(answer) =>
          if !answer.ContinuedResponse? {
            return Some(GenericError("Invalid continued proof data"));
          }
          if answer.t != |answer.proof| {
            return Some(GenericError("Continued proof size does not match the expected number of elements"));
          }
          RemainingLess(conduct, now, host.SoFar(), fed, verifier.fed, n - processed, GetPageProofContinued, answer);
          FeedAll(verifier, answer.proof);
          processed := processed + answer.t;
      }
      e := None;
    }

    method FeedAll(verifier: MerkleInclusionProofVerifier, siblings: seq<Digest>)
      requires verifier.Valid() && verifier.h == h
      modifies verifier
      ensures verifier.Valid() && verifier.root == old(verifier.root) && verifier.fed == old(verifier.fed) + siblings
    {
      for i := 0 to |siblings|
        invariant verifier.Valid() && verifier.root == old(verifier.root)
        invariant verifier.fed == old(verifier.fed) + siblings[..i]
      {
        verifier.Feed(h, siblings[i]);
      }
    }

    /**
     The branch of `load_page` for Merkle proofs: the page hash is accepted at this index, or an error;
     `path` is the proof that an honest host sends.
     */
    method CheckInclusion(pageHash: Digest, pageIndex: u32, n: u8, t: u8, proof: seq<Digest>, ghost path: seq<Digest>)
      returns (e: Option<MemoryError>, ghost whole: seq<Digest>)
      requires host.Valid() && !host.SoFar().Lost?
      requires host.SoFar().Honest? ==>
                 IsFirstPart(path, n, t, proof) && host.SoFar().state.pending == path[|proof|..]
      modifies host
      ensures host.Since(old(host.asked), {}, true) && (if e.None? then !host.SoFar().Lost? else e.value.GenericError?)
      ensures e.None? ==> Accepts(h, merkleRoot, whole, pageHash, pageIndex, NPagesAdjusted())
      ensures host.SoFar().Honest? && Accepts(h, merkleRoot, path, pageHash, pageIndex, NPagesAdjusted()) ==> e.None?
    {
      whole := [];
      if t != |proof| {
        return Some(GenericError("Proof fragment size does not match the expected number of elements")), [];
      }
      var verifier := new MerkleInclusionProofVerifier(h, merkleRoot, pageHash, pageIndex, NPagesAdjusted());
      e := FeedProof(verifier, n, proof, path);
      whole := verifier.fed;
      if e.None? && !verifier.Verified() {
        e := Some(GenericError("Merkle inclusion verification failed"));
      }
    }

    /** The first part of a proof, and the rest. */
    method FeedProof(verifier: MerkleInclusionProofVerifier, n: nat, proof: seq<Digest>, ghost path: seq<Digest>)
      returns (e: Option<MemoryError>)
      requires verifier.Valid() && verifier.h == h && verifier.fed == []
      requires host.Valid() && !host.SoFar().Lost?
      requires host.SoFar().Honest? ==>
                 IsFirstPart(path, n, |proof|, proof) && host.SoFar().state.pending == path[|proof|..]
      modifies host, verifier
      ensures verifier.Valid() && verifier.root == old(verifier.root) && host.Since(old(host.asked), {}, true)
      ensures if e.None? then !host.SoFar().Lost? else e.value.GenericError? && !host.SoFar().Honest?
      ensures host.SoFar().Honest? ==> verifier.fed == path
    {
      FeedAll(verifier, proof);
      assert verifier.fed == proof;
      assert proof <= path ==> path == proof + path[|proof|..];
      e := FeedContinued(verifier, n, |proof|);
    }

    /** The branch for code pages: one authentication code, of a page in clear. */
    method CheckHmac(pageHash: Digest, pageIndex: u32, isEncrypted: bool, n: u8, t: u8, proof: seq<Digest>)
      returns (e: Option<MemoryError>)
      ensures e.None? <==>
                n == t == 1 && sectionKind.CodeSection? && !isEncrypted && proof == [hmac(pageIndex, pageHash)]
      ensures e.Some? ==> e.value.GenericError?
    {
      if isEncrypted {
        return Some(GenericError("HMAC proof not allowed for encrypted pages"));
      }
      if n != 1 || t != 1 || |proof| != 1 {
        return Some(GenericError("HMAC proof must contain exactly one element"));
      }
      if sectionKind != CodeSection {
        return Some(GenericError("HMAC proof not allowed for non-code section"));
      }
      if proof[0] != hmac(pageIndex, pageHash) {
        return Some(GenericError("HMAC verification failed"));
      }
      e := None;
    }

    /** The plaintext of a page that was accepted. */
    method Open(data: Page, nonce: Option<Nonce>) returns (r: Result<Page, MemoryError>)
      ensures match PageOf(aesCtr.cipher, HostMemory.SerializedPage(data, nonce))
              case Ok(page) => r == Ok(page)
              case Err(_) => r.Err? && r.error.GenericError?
    {
      match nonce
      case None =>
        PlainLeaf(aesCtr.cipher, data);
        r := Ok(data);
      case Some(n) =>
        EncryptedLeaf(aesCtr.cipher, n, data);
        var decrypted := aesCtr.Decrypt(n, data);
        if decrypted.Err? {
          return Err(GenericError("AES decryption failed"));
        }
        ProcessedTwice(aesCtr.cipher, data, FromBE(n) * TWO_32);
        if |decrypted.value| != PAGE_SIZE {
          return Err(GenericError("Decrypted page size mismatch"));
        }
        r := Ok(decrypted.value);
    }

    /** The page of an answer was accepted, and the reason. */
    method CheckPage(pageIndex: u32, answer: Response, pageHash: Digest, ghost path: seq<Digest>, ghost k: nat)
      returns (e: Option<MemoryError>, ghost evidence: Evidence)
      requires answer.PageResponse? && pageHash == PageHash(h, answer.data, NonceOf(answer))
      requires host.Valid() && host.Gave(k, answer, host.asked) && !host.SoFar().Lost?
      requires host.SoFar().Honest? && answer.proofKind.Merkle? ==>
                 && IsFirstPart(path, answer.n, answer.t, answer.proof)
                 && host.SoFar().state.pending == path[|answer.proof|..]
      modifies host
      ensures host.Since(old(host.asked), {}, true) && (if e.None? then !host.SoFar().Lost? else e.value.GenericError?)
      ensures e.None? ==> Supported(pageIndex, HostMemory.SerializedPage(answer.data, NonceOf(answer)), evidence)
      ensures host.SoFar().Honest? && Convincing(pageIndex, answer, path) ==> e.None?
    {
      if answer.proofKind.Merkle? {
        ghost var whole;
        e, whole := CheckInclusion(pageHash, pageIndex, answer.n, answer.t, answer.proof, path);
        evidence := ByProof(whole);
      } else {
        e := CheckHmac(pageHash, pageIndex, answer.isEncrypted, answer.n, answer.t, answer.proof);
        evidence := ByHmac(answer, k);
      }
    }

    /** What an honest host sends for a page. */
    ghost predicate Convincing(pageIndex: u32, answer: Response, path: seq<Digest>)
      requires answer.PageResponse?
      reads this
    {
      var pageHash := PageHash(h, answer.data, NonceOf(answer));
      if answer.proofKind.Merkle? then Accepts(h, merkleRoot, path, pageHash, pageIndex, NPagesAdjusted())
      else
        && answer.n == answer.t == 1 && sectionKind.CodeSection? && !answer.isEncrypted
        && answer.proof == [hmac(pageIndex, pageHash)]
    }

    /** The page asked for as an honest host sends it. */
    lemma HonestPage(before: Conduct, pageIndex: u32, answer: Response) returns (path: seq<Digest>)
      requires breach.None? ==> Consistent()
      requires before.Honest? ==> breach.None? && Serves(before.state, leaves)
      ensures var after := Next(before, Request.GetPage(sectionKind, pageIndex), Some(answer));
              after.Honest? ==>
                && before.Honest? && SameExcept(before.state, after.state, {}) && pageIndex < |leaves|
                && answer.PageResponse? && HostMemory.SerializedPage(answer.data, NonceOf(answer)) == leaves[pageIndex]
                && Convincing(pageIndex, answer, path)
                && (answer.proofKind.Merkle? ==>
                      && IsFirstPart(path, answer.n, answer.t, answer.proof)
                      && after.state.pending == path[|answer.proof|..])
    {
      path := [];
      if before.Honest? && Proper(before.state, Request.GetPage(sectionKind, pageIndex)) {
        path := before.state.Path(sectionKind, pageIndex);
        HonestProofAccepted(h, LeafHashes(h, leaves), pageIndex);
      }
    }

    /**
     `load_page`: a page whose leaf was accepted, and the leaf hash. From an honest host it is the committed
     leaf, and there is no error if that can be decrypted.
     */
    method LoadPage(pageIndex: u32) returns (r: Result<(Page, Digest), MemoryError>, ghost leaf: bytes, ghost evidence: Evidence)
      requires Sound()
      modifies host
      ensures host.Since(old(host.asked), {}, pageIndex < NPagesAdjusted())
      ensures if r.Ok? then !host.SoFar().Lost? else r.error.GenericError?
      ensures r.Ok? ==> r.value.1 == HashLeaf(h, leaf) && PageOf(aesCtr.cipher, leaf) == Ok(r.value.0)
      ensures r.Ok? ==> Supported(pageIndex, leaf, evidence)
      ensures host.SoFar().Honest? ==>
                && pageIndex < |leaves| && leaf == leaves[pageIndex]
                && (PageOf(aesCtr.cipher, leaf).Ok? ==> r.Ok?)
    {
      leaf, evidence := [], ByProof([]);
      ghost var conduct := host.SoFar();
      var response := host.Interrupt(Request.GetPage(sectionKind, pageIndex));
      if response.Err? {
        return Err(response.error), leaf, evidence;
      }
      var answer := response.value;
      ghost var path := HonestPage(conduct, pageIndex, answer);
      if !answer.PageResponse? {
        return Err(GenericError("Invalid page data")), leaf, evidence;
      }
      assert host.Gave(|host.asked|, answer, host.asked) by { assert host.asked[..|host.asked|] == host.asked; }
      leaf := HostMemory.SerializedPage(answer.data, NonceOf(answer));
      r, evidence := TakePage(pageIndex, answer, path, |host.asked|);
    }

    /** The rest of `load_page`, after the page came. */
    method TakePage(pageIndex: u32, answer: Response, ghost path: seq<Digest>, ghost k: nat)
      returns (r: Result<(Page, Digest), MemoryError>, ghost evidence: Evidence)
      requires host.Valid() && answer.PageResponse? && host.Gave(k, answer, host.asked) && !host.SoFar().Lost?
      requires host.SoFar().Honest? && answer.proofKind.Merkle? ==>
                 && IsFirstPart(path, answer.n, answer.t, answer.proof)
                 && host.SoFar().state.pending == path[|answer.proof|..]
      modifies host
      ensures host.Since(old(host.asked), {}, true) && (if r.Ok? then !host.SoFar().Lost? else r.error.GenericError?)
      ensures var leaf := HostMemory.SerializedPage(answer.data, NonceOf(answer));
              && (r.Ok? ==> r.value.1 == HashLeaf(h, leaf) && PageOf(aesCtr.cipher, leaf) == Ok(r.value.0))
              && (r.Ok? ==> Supported(pageIndex, leaf, evidence))
              && (host.SoFar().Honest? && Convincing(pageIndex, answer, path) && PageOf(aesCtr.cipher, leaf).Ok? ==> r.Ok?)
    {
      var nonce := NonceOf(answer);
      var pageHash := PageHash(h, answer.data, nonce);
      var e;
      e, evidence := CheckPage(pageIndex, answer, pageHash, path, k);
      if e.Some? {
        return Err(e.value), evidence;
      }
      var page := Open(answer.data, nonce);
      r := if page.Ok? then Ok((page.value, pageHash)) else Err(page.error);
    }

    /** Why the device took a leaf for that of a page. */
    ghost predicate Supported(pageIndex: u32, leaf: bytes, evidence: Evidence)
      reads this, host
    {
      match evidence
      case ByProof(siblings) => Accepts(h, merkleRoot, siblings, HashLeaf(h, leaf), pageIndex, NPagesAdjusted())
      case ByHmac(answer, k) =>
        && sectionKind.CodeSection? && host.Gave(k, answer, host.asked)
        && answer.PageResponse? && answer.proofKind.Hmac? && !answer.isEncrypted
        && answer.proof == [hmac(pageIndex, PageHash(h, answer.data, None))]
        && leaf == HostMemory.SerializedPage(answer.data, None)
    }

    /** How a leaf that is not the committed one was accepted. */
    ghost function LoadBreach(pageIndex: u32, leaf: bytes, evidence: Evidence): (b: Option<Breach>)
      requires Consistent() && Supported(pageIndex, leaf, evidence)
      reads this, host
      ensures b.Some? ==> IsBreach(b.value) && (b.value.ShortProof? ==> pageIndex >= |leaves|)
      ensures b.None? <==> pageIndex < |leaves| && leaf == leaves[pageIndex]
    {
      match evidence
      case ByProof(siblings) =>
        (match LoadCollision(h, leaves, pageIndex, leaf, siblings)
         case Some(pair) => Some(Collision(pair))
         case None => if pageIndex < |leaves| then None else Some(ShortProof(pageIndex, siblings)))
      case ByHmac(answer, k) =>
        if pageIndex < |leaves| && leaf == leaves[pageIndex] then None else Some(Forgery(pageIndex, k, answer))
    }

    // -------------------------------------------------------------------------------------
    // Committing
    // -------------------------------------------------------------------------------------

    /** The loop that asks for the rest of an update proof. */
    method FeedUpdateContinued(verifier: MerkleUpdateProofVerifier, n: nat, t: nat) returns (e: Option<MemoryError>)
      requires verifier.Valid() && verifier.oldVerifier.h == h
      requires host.Valid() && !host.SoFar().Lost? && (host.SoFar().Honest? ==> t + |host.SoFar().state.pending| == n)
      modifies host, verifier.oldVerifier, verifier.newVerifier
      ensures verifier.Valid() && host.Since(old(host.asked), {}, true)
      ensures verifier.oldVerifier.root == old(verifier.oldVerifier.root)
      ensures verifier.newVerifier.root == old(verifier.newVerifier.root)
      ensures if e.None? then |verifier.oldVerifier.fed| + t >= old(|verifier.oldVerifier.fed|) + n && !host.SoFar().Lost?
              else e.value.GenericError? && !host.SoFar().Honest?
      ensures host.SoFar().Honest? ==>
                verifier.oldVerifier.fed == old(verifier.oldVerifier.fed) + old(host.SoFar()).state.pending
    {
      ghost var (asked, fed, conduct) := (host.asked, verifier.oldVerifier.fed, host.SoFar());
      var processed := t;
      while processed < n
        invariant verifier.Valid()
        invariant verifier.oldVerifier.root == old(verifier.oldVerifier.root)
        invariant verifier.newVerifier.root == old(verifier.newVerifier.root)
        invariant !host.SoFar().Lost? && host.Since(asked, {}, true) && |verifier.oldVerifier.fed| + t == |fed| + processed
        invariant host.SoFar().Honest? ==>
                    Remaining(conduct, host.SoFar(), fed, verifier.oldVerifier.fed, n - processed)
        decreases host.horizon - |host.asked|
      {
        ghost var (now, soFar) := (host.SoFar(), verifier.oldVerifier.fed);
        var response := host.Interrupt(CommitPageProofContinued);
        match response
        case Err(error) => return Some(error);
        case Ok(answer) =>
          if !answer.ContinuedResponse? {
            return Some(GenericError("Invalid continued proof data"));
          }
          if answer.t != |answer.proof| {
            return Some(GenericError("Continued proof size does not match the expected number of elements"));
          }
          RemainingLess(conduct, now, host.SoFar(), fed, soFar, n - processed, CommitPageProofContinued, answer);
          FeedAllUpdates(verifier, answer.proof);
          processed := processed + answer.t;
      }
      e := None;
    }

    method FeedAllUpdates(verifier: MerkleUpdateProofVerifier, siblings: seq<Digest>)
      requires verifier.Valid() && verifier.oldVerifier.h == h
      modifies verifier.oldVerifier, verifier.newVerifier
      ensures verifier.Valid() && verifier.oldVerifier.fed == old(verifier.oldVerifier.fed) + siblings
      ensures verifier.oldVerifier.root == old(verifier.oldVerifier.root)
      ensures verifier.newVerifier.root == old(verifier.newVerifier.root)
    {
      for i := 0 to |siblings|
        invariant verifier.Valid() && verifier.oldVerifier.fed == old(verifier.oldVerifier.fed) + siblings[..i]
        invariant verifier.oldVerifier.root == old(verifier.oldVerifier.root)
        invariant verifier.newVerifier.root == old(verifier.newVerifier.root)
      {
        verifier.Feed(h, siblings[i]);
      }
    }

    /**
     The update proof of a commit: accepted for the current root and the one that the host announces;
     `path` is the proof that an honest host sends.
     */
    method CheckUpdate(oldHash: Digest, newHash: Digest, pageIndex: u32, answer: Response, ghost path: seq<Digest>)
      returns (e: Option<MemoryError>, ghost whole: seq<Digest>)
      requires host.Valid() && answer.CommitResponse? && !host.SoFar().Lost?
      requires host.SoFar().Honest? ==>
                 && IsFirstPart(path, answer.n, answer.t, answer.proof)
                 && host.SoFar().state.pending == path[|answer.proof|..]
      modifies host
      ensures host.Since(old(host.asked), {}, true) && (if e.None? then !host.SoFar().Lost? else e.value.GenericError?)
      ensures e.None? ==>
                AcceptsUpdate(h, merkleRoot, answer.newRoot, whole, oldHash, newHash, pageIndex, NPagesAdjusted())
      ensures host.SoFar().Honest? && path != []
              && AcceptsUpdate(h, merkleRoot, answer.newRoot, path, oldHash, newHash, pageIndex, NPagesAdjusted()) ==>
                e.None?
    {
      whole := [];
      if answer.n == 0 {
        return Some(GenericError("Proof must contain at least one element")), [];
      }
      if answer.t != |answer.proof| {
        return Some(GenericError("Proof fragment size does not match the expected number of elements")), [];
      }
      var verifier := new MerkleUpdateProofVerifier(h, merkleRoot, answer.newRoot, oldHash, newHash,
                                                    pageIndex, NPagesAdjusted());
      e := FeedUpdateProof(verifier, answer.n, answer.proof, path);
      whole := verifier.oldVerifier.fed;
      if e.None? && !verifier.Verified() {
        e := Some(GenericError("Merkle update verification failed"));
      }
    }

    /** The first part of an update proof, and the rest. */
    method FeedUpdateProof(verifier: MerkleUpdateProofVerifier, n: nat, proof: seq<Digest>, ghost path: seq<Digest>)
      returns (e: Option<MemoryError>)
      requires verifier.Valid() && verifier.oldVerifier.h == h && verifier.oldVerifier.fed == []
      requires host.Valid() && !host.SoFar().Lost?
      requires host.SoFar().Honest? ==>
                 IsFirstPart(path, n, |proof|, proof) && host.SoFar().state.pending == path[|proof|..]
      modifies host, verifier.oldVerifier, verifier.newVerifier
      ensures verifier.Valid() && host.Since(old(host.asked), {}, true)
      ensures verifier.oldVerifier.root == old(verifier.oldVerifier.root)
      ensures verifier.newVerifier.root == old(verifier.newVerifier.root)
      ensures if e.None? then !host.SoFar().Lost? else e.value.GenericError? && !host.SoFar().Honest?
      ensures host.SoFar().Honest? ==> verifier.oldVerifier.fed == path
    {
      FeedAllUpdates(verifier, proof);
      assert verifier.oldVerifier.fed == proof;
      assert proof <= path ==> path == proof + path[|proof|..];
      e := FeedUpdateContinued(verifier, n, |proof|);
    }

    /** A commit as an honest host answers it. */
    lemma HonestCommit(before: Conduct, i: u32, nonce: Nonce, data: Page, answer: Response) returns (path: seq<Digest>)
      requires breach.None? ==> Consistent()
      requires before.Honest? ==> breach.None? && Serves(before.state, leaves)
      ensures var after := Next(before, CommitPage(sectionKind, i, nonce, data), Some(answer));
              var leaf := HostMemory.SerializedPage(data, Some(nonce));
              after.Honest? ==>
                && before.Honest? && SameExcept(before.state, after.state, {sectionKind}) && i < |leaves|
                && Serves(after.state, leaves[i := leaf])
                && answer.CommitResponse? && answer.newRoot == Root(h, LeafHashes(h, leaves[i := leaf])) && path != []
                && IsFirstPart(path, answer.n, answer.t, answer.proof)
                && after.state.pending == path[|answer.proof|..]
                && AcceptsUpdate(h, merkleRoot, answer.newRoot, path, HashLeaf(h, leaves[i]), HashLeaf(h, leaf), i, |leaves|)
    {
      path := [];
      if before.Honest? && Proper(before.state, CommitPage(sectionKind, i, nonce, data)) {
        path := before.state.Path(sectionKind, i);
        HonestReplacement(h, leaves, i, HostMemory.SerializedPage(data, Some(nonce)));
      }
    }

    /**
     `commit_page_at`: the page of a slot is encrypted with a new nonce and sent to the host, and the new
     root replaces the old one if the update from the old leaf to the new one is accepted. From an honest
     host it is.
     */
    method CommitPageAt(slot: nat)
      returns (e: Option<MemoryError>, ghost nonce: Nonce, ghost payload: Page, ghost proof: seq<Digest>)
      requires Sound() && slot < |cachedPages| && cachedPages[slot].valid
      modifies this`merkleRoot, host, aesCtr`messages, aesCtr`used, aesCtr`short, aesCtr.nonce
      ensures aesCtr.Valid() && aesCtr.messages == old(aesCtr.messages) + 1 && aesCtr.short == old(aesCtr.short)
      ensures nonce == ToBE(old(aesCtr.messages), 12)
      ensures || host.asked == old(host.asked)
              || old(host.asked) + [CommitPage(sectionKind, cachedPages[slot].idx, nonce, payload)] <= host.asked
      ensures host.Since(old(host.asked), {sectionKind}, CodeIsFixed() && !isReadonly && NPagesAdjusted() > 1)
      ensures e.Some? ==>
                && merkleRoot == old(merkleRoot) && e.value.GenericError? && !Served()
                && (host.SoFar().Honest? ==> host.asked == old(host.asked))
      ensures e.None? ==>
                var (c, leaf) := (cachedPages[slot], HostMemory.SerializedPage(payload, Some(nonce)));
                && PageOf(aesCtr.cipher, leaf) == Ok(c.page)
                && AcceptsUpdate(h, old(merkleRoot), merkleRoot, proof, c.pageHash, HashLeaf(h, leaf), c.idx, NPagesAdjusted())
                && !host.SoFar().Lost?
                && (host.SoFar().Honest? ==>
                      && c.idx < |leaves| && merkleRoot == Root(h, LeafHashes(h, leaves[c.idx := leaf]))
                      && Serves(host.SoFar().state, leaves[c.idx := leaf]))
    {
      nonce, payload, proof := ToBE(aesCtr.messages, 12), Zeros(PAGE_SIZE), [];
      var c := cachedPages[slot];
      var sealed := Seal(c.page);
      if sealed.Err? {
        return Some(sealed.error), nonce, payload, proof;
      }
      var (sentNonce, sent) := sealed.value;
      payload := sent;
      e, proof := SendCommit(slot, sentNonce, sent);
    }

    /** The rest of `commit_page_at`, after the page was encrypted. */
    method SendCommit(slot: nat, nonce: Nonce, payload: Page) returns (e: Option<MemoryError>, ghost proof: seq<Digest>)
      requires Own() && AgreesWithHost(host.asked) && slot < |cachedPages| && cachedPages[slot].valid
      modifies this`merkleRoot, host
      ensures old(host.asked) + [CommitPage(sectionKind, cachedPages[slot].idx, nonce, payload)] <= host.asked
      ensures host.Since(old(host.asked), {sectionKind}, CodeIsFixed() && !isReadonly && NPagesAdjusted() > 1)
      ensures e.Some? ==> merkleRoot == old(merkleRoot) && e.value.GenericError? && !host.SoFar().Honest?
      ensures e.None? ==>
                var (c, leaf) := (cachedPages[slot], HostMemory.SerializedPage(payload, Some(nonce)));
                && AcceptsUpdate(h, old(merkleRoot), merkleRoot, proof, c.pageHash, HashLeaf(h, leaf), c.idx, NPagesAdjusted())
                && !host.SoFar().Lost?
                && (host.SoFar().Honest? ==>
                      && c.idx < |leaves| && merkleRoot == Root(h, LeafHashes(h, leaves[c.idx := leaf]))
                      && Serves(host.SoFar().state, leaves[c.idx := leaf]))
    {
      proof := [];
      var c := cachedPages[slot];
      var newPageHash := PageHash(h, payload, Some(nonce));
      ghost var conduct := host.SoFar();
      var response := host.Interrupt(CommitPage(sectionKind, c.idx, nonce, payload));
      if response.Err? {
        return Some(response.error), proof;
      }
      var answer := response.value;
      ghost var path := HonestCommit(conduct, c.idx, nonce, payload, answer);
      ghost var sent := host.SoFar();
      e, proof := AcceptCommit(c, newPageHash, answer, path);
      if host.SoFar().Honest? {
        SameLeaves(sent.state, host.SoFar().state, {}, sectionKind);
      }
    }

    /** The end of `commit_page_at`: the root that the host announces, if its proof is accepted. */
    method AcceptCommit(c: CachedPage, newPageHash: Digest, answer: Response, ghost path: seq<Digest>)
      returns (e: Option<MemoryError>, ghost proof: seq<Digest>)
      requires host.Valid() && !host.SoFar().Lost?
      requires host.SoFar().Honest? ==>
                 && answer.CommitResponse? && IsFirstPart(path, answer.n, answer.t, answer.proof)
                 && host.SoFar().state.pending == path[|answer.proof|..]
      modifies this`merkleRoot, host
      ensures host.Since(old(host.asked), {}, true)
      ensures e.Some? ==> merkleRoot == old(merkleRoot) && e.value.GenericError?
      ensures e.None? ==>
                && answer.CommitResponse? && merkleRoot == answer.newRoot && !host.SoFar().Lost?
                && AcceptsUpdate(h, old(merkleRoot), merkleRoot, proof, c.pageHash, newPageHash, c.idx, NPagesAdjusted())
      ensures host.SoFar().Honest? && path != []
              && AcceptsUpdate(h, old(merkleRoot), answer.newRoot, path, c.pageHash, newPageHash, c.idx, NPagesAdjusted()) ==>
                e.None?
    {
      proof := [];
      if !answer.CommitResponse? {
        return Some(GenericError("Invalid proof data")), proof;
      }
      e, proof := CheckUpdate(c.pageHash, newPageHash, c.idx, answer, path);
      if e.None? {
        merkleRoot := answer.newRoot;
      }
    }

    /** Encrypt a page: a new nonce and the ciphertext, of which the leaf gives the page back. */
    method Seal(page: Page) returns (r: Result<(Nonce, Page), MemoryError>)
      requires aesCtr.Valid()
      modifies aesCtr`messages, aesCtr`used, aesCtr`short, aesCtr.nonce
      ensures aesCtr.Valid() && aesCtr.messages == old(aesCtr.messages) + 1 && aesCtr.short == old(aesCtr.short)
      ensures r.Ok? ==>
                && r.value.0 == ToBE(old(aesCtr.messages), 12)
                && PageOf(aesCtr.cipher, HostMemory.SerializedPage(r.value.1, Some(r.value.0))) == Ok(page)
                && Keystreamed(aesCtr.cipher, page, r.value.1, old(aesCtr.messages) * TWO_32)
      ensures r.Err? ==> r.error.GenericError? && !Total(aesCtr.cipher)
    {
      NonceValue(aesCtr.messages);
      ghost var value := FirstBlock(aesCtr.messages);
      var sealed;
      ghost var n;
      sealed, n := aesCtr.Encrypt(page);
      if sealed.Err? {
        if Total(aesCtr.cipher) {
          TotalProcesses(aesCtr.cipher, page, value);
        }
        return Err(GenericError("AES encryption failed"));
      }
      ProcessedTwice(aesCtr.cipher, page, value);
      CommittedLeaf(aesCtr.cipher, page, sealed.value.0, sealed.value.1);
      r := Ok(sealed.value);
    }

    // -------------------------------------------------------------------------------------
    // The cache
    // -------------------------------------------------------------------------------------

    /** The first loop of `get_page`: the slot of a page. */
    method FindCached(pageIndex: u32) returns (slot: Option<nat>)
      ensures slot.Some? ==> Holds(cachedPages, slot.value, pageIndex)
      ensures slot.None? ==> !InCache(cachedPages, pageIndex)
    {
      for i := 0 to |cachedPages|
        invariant forall s: nat :: s < i ==> !Holds(cachedPages, s, pageIndex)
      {
        if cachedPages[i].valid && cachedPages[i].idx == pageIndex {
          return Some(i);
        }
      }
      slot := None;
    }

    /** The second loop of `get_page`: a free slot. */
    method FindFree() returns (slot: Option<nat>)
      ensures slot.Some? ==> slot.value < |cachedPages| && !cachedPages[slot.value].valid
      ensures slot.None? ==> forall s :: 0 <= s < |cachedPages| ==> cachedPages[s].valid
    {
      for i := 0 to |cachedPages|
        invariant forall s :: 0 <= s < i ==> cachedPages[s].valid
      {
        if !cachedPages[i].valid {
          return Some(i);
        }
      }
      slot := None;
    }

    /**
     Eviction: a modified page is committed, and then the slot is free. A failed commit changes nothing. An
     honest host makes it fail only for a memory of one page.
     */
    method Evict(victim: nat) returns (e: Option<MemoryError>)
      requires Sound() && victim < |cachedPages| && cachedPages[victim].valid
      modifies this`merkleRoot, this`cachedPages, this`leaves, this`breach
      modifies host, aesCtr`messages, aesCtr`used, aesCtr`short, aesCtr.nonce
      ensures Sound() && KeepsBreach(old(breach), true)
      ensures host.Since(old(host.asked), {sectionKind}, CodeIsFixed() && NPagesAdjusted() > 1)
      ensures e.Some? ==> merkleRoot == old(merkleRoot) && leaves == old(leaves) && breach == old(breach)
      ensures e.Some? ==> e.value.GenericError? && !Served()
      ensures cachedPages == if e.None? then Freed(old(cachedPages), victim) else old(cachedPages)
    {
      if !isReadonly && cachedPages[victim].modified {
        e := EvictModified(victim);
      } else {
        if breach.None? {
          Dropped(h, aesCtr.cipher, cachedPages, leaves, pages, victim);
        }
        cachedPages := Freed(cachedPages, victim);
        e := None;
      }
    }

    method EvictModified(victim: nat) returns (e: Option<MemoryError>)
      requires Sound() && victim < |cachedPages| && cachedPages[victim].valid && !isReadonly
      modifies this`merkleRoot, this`cachedPages, this`leaves, this`breach
      modifies host, aesCtr`messages, aesCtr`used, aesCtr`short, aesCtr.nonce
      ensures Sound() && KeepsBreach(old(breach), true)
      ensures host.Since(old(host.asked), {sectionKind}, CodeIsFixed() && NPagesAdjusted() > 1)
      ensures e.Some? ==> merkleRoot == old(merkleRoot) && leaves == old(leaves) && breach == old(breach)
      ensures e.Some? ==> e.value.GenericError? && !Served()
      ensures cachedPages == if e.None? then Freed(old(cachedPages), victim) else old(cachedPages)
    {
      ghost var asked, root := host.asked, merkleRoot;
      ghost var nonce, payload, proof;
      e, nonce, payload, proof := CommitPageAt(victim);
      StillShown(breach, asked, host.asked);
      if e.None? {
        Record(victim, HostMemory.SerializedPage(payload, Some(nonce)), root, proof);
      }
    }

    /** The slot is freed, and the leaves are those of the new root; or a collision is noted. */
    method Record(victim: nat, ghost leaf: bytes, ghost root: Digest, ghost proof: seq<Digest>)
      requires host.Valid() && |cachedPages| > 0 && |pages| == NPagesAdjusted() && ArePages(pages)
      requires !isReadonly && victim < |cachedPages| && cachedPages[victim].valid
      requires breach.Some? ==> Breaks(breach.value)
      requires breach.None? ==>
                 && |leaves| == NPagesAdjusted() && root == Root(h, LeafHashes(h, leaves))
                 && Agrees(h, aesCtr.cipher, cachedPages, leaves, pages)
                 && PageOf(aesCtr.cipher, leaf) == Ok(cachedPages[victim].page)
                 && AcceptsUpdate(h, root, merkleRoot, proof, cachedPages[victim].pageHash, HashLeaf(h, leaf),
                                  cachedPages[victim].idx, NPagesAdjusted())
      modifies this`cachedPages, this`leaves, this`breach
      ensures Own() && cachedPages == Freed(old(cachedPages), victim)
      ensures if old(breach).Some? then breach == old(breach) else breach.Some? ==> breach.value.Collision?
      ensures old(breach).None? && old(cachedPages)[victim].idx < |old(leaves)| ==>
                var after := old(leaves)[old(cachedPages)[victim].idx := leaf];
                merkleRoot == Root(h, LeafHashes(h, after)) ==> breach.None? && leaves == after
    {
      var recorded := Recorded(h, aesCtr.cipher, cachedPages, leaves, pages, breach, victim, leaf, merkleRoot, proof);
      cachedPages, breach, leaves := Freed(cachedPages, victim), recorded.0, recorded.1;
    }

    /** An answer that was shown stays so. */
    lemma StillShown(b: Option<Breach>, before: seq<Request>, after: seq<Request>)
      requires before <= after && (b.Some? ==> Shown(b.value, before))
      ensures b.Some? ==> Shown(b.value, after)
    {
      if b.Some? && b.value.Forgery? {
        assert after[..b.value.k] == before[..b.value.k];
      }
    }

    /** A page that is not in the cache is loaded into a free slot. */
    method Fill(slot: nat, pageIndex: u32) returns (e: Option<MemoryError>)
      requires Sound() && slot < |cachedPages| && !cachedPages[slot].valid && !InCache(cachedPages, pageIndex)
      modifies this`cachedPages, this`breach, host
      ensures Sound() && Moved(old(host.asked), old(breach), pageIndex < NPagesAdjusted())
      ensures if e.None? then Holds(cachedPages, slot, pageIndex) else e.value.GenericError? && !Served()
    {
      ghost var asked := host.asked;
      var page;
      ghost var leaf, evidence;
      page, leaf, evidence := LoadPage(pageIndex);
      StillShown(breach, asked, host.asked);
      if page.Err? {
        return Some(page.error);
      }
      Place(slot, pageIndex, page.value.0, page.value.1, leaf, evidence);
      e := None;
    }

    /** A page that was taken for that of its index. */
    method Place(slot: nat, pageIndex: u32, page: Page, pageHash: Digest, ghost leaf: bytes, ghost evidence: Evidence)
      requires Own() && slot < |cachedPages| && !cachedPages[slot].valid && !InCache(cachedPages, pageIndex)
      requires breach.Some? ==> Shown(breach.value, host.asked)
      requires pageHash == HashLeaf(h, leaf) && PageOf(aesCtr.cipher, leaf) == Ok(page)
      requires Supported(pageIndex, leaf, evidence)
      modifies this`cachedPages, this`breach
      ensures Own() && KeepsBreach(old(breach), pageIndex < NPagesAdjusted()) && Holds(cachedPages, slot, pageIndex)
      ensures breach.Some? ==> Shown(breach.value, host.asked)
      ensures old(breach).None? && pageIndex < |leaves| && leaf == leaves[pageIndex] ==> breach.None?
    {
      if breach.None? {
        breach := LoadBreach(pageIndex, leaf, evidence);
      }
      if breach.None? {
        Loaded(h, aesCtr.cipher, cachedPages, leaves, pages, slot, pageIndex, page);
      }
      cachedPages := cachedPages[slot := CachedPage(pageIndex, page, pageHash, true, false)];
    }

    /** A full cache without a page that exists is that of a memory of several pages. */
    lemma SeveralPages(pageIndex: u32)
      requires Own() && breach.None? && pageIndex < |pages| && !InCache(cachedPages, pageIndex)
      requires forall s :: 0 <= s < |cachedPages| ==> cachedPages[s].valid
      ensures NPagesAdjusted() > 1
    {
      assert !Holds(cachedPages, 0, pageIndex);
      assert SlotAgrees(h, aesCtr.cipher, cachedPages[0], leaves, pages);
    }

    /** A free slot: one that is not used, or that of an evicted page. */
    method TakeSlot(ghost pageIndex: u32) returns (r: Result<nat, MemoryError>)
      requires Sound() && !InCache(cachedPages, pageIndex)
      modifies this`merkleRoot, this`cachedPages, this`leaves, this`breach
      modifies host, aesCtr`messages, aesCtr`used, aesCtr`short, aesCtr.nonce
      ensures Sound() && Moved(old(host.asked), old(breach), pageIndex < NPagesAdjusted())
      ensures r.Ok? ==> r.value < |cachedPages| && !cachedPages[r.value].valid && !InCache(cachedPages, pageIndex)
      ensures r.Err? ==> r.error.GenericError? && !Served()
    {
      var slot := FindFree();
      if slot.Some? {
        return Ok(slot.value);
      }
      ghost var slots := cachedPages;
      if breach.None? && pageIndex < |pages| {
        SeveralPages(pageIndex);
      }
      var victim: nat :| victim < |cachedPages|; // whatever slot the eviction strategy chooses
      var e := Evict(victim);
      if e.Some? {
        return Err(e.value);
      }
      FreedNotCached(slots, victim, pageIndex);
      r := Ok(victim);
    }

    /** The slot of a page in the cache, into which it is loaded if it is not there. */
    method Locate(pageIndex: u32) returns (r: Result<nat, MemoryError>)
      requires Sound()
      modifies this`merkleRoot, this`cachedPages, this`leaves, this`breach
      modifies host, aesCtr`messages, aesCtr`used, aesCtr`short, aesCtr.nonce
      ensures Sound() && Moved(old(host.asked), old(breach), pageIndex < NPagesAdjusted())
      ensures if r.Ok? then Holds(cachedPages, r.value, pageIndex) else r.error.GenericError? && !Served()
    {
      var slot := FindCached(pageIndex);
      if slot.Some? {
        return Ok(slot.value);
      }
      r := TakeSlot(pageIndex);
      if r.Ok? {
        var e := Fill(r.value, pageIndex);
        if e.Some? {
          return Err(e.value);
        }
      }
    }

    /**
     `get_page`: the slot of the page, which is then in the cache. What it holds is the current page, unless
     the host got past a proof. With an honest host there is no error.
     */
    method GetPage(pageIndex: u32) returns (r: Result<nat, MemoryError>)
      requires Valid() && !failed
      modifies this`merkleRoot, this`cachedPages, this`leaves, this`breach, this`failed, this`lastAccessedPage
      modifies host, aesCtr`messages, aesCtr`used, aesCtr`short, aesCtr.nonce
      ensures Valid() && failed == r.Err? && Moved(old(host.asked), old(breach), pageIndex < NPagesAdjusted())
      ensures r.Err? ==> r.error.GenericError?
      ensures r.Ok? ==> lastAccessedPage == Some((pageIndex, r.value)) && r.value < |cachedPages|
      ensures r.Ok? && breach.None? ==> pageIndex < |pages| && cachedPages[r.value].page == pages[pageIndex]
    {
      if lastAccessedPage.Some? && lastAccessedPage.value.0 == pageIndex {
        return Ok(lastAccessedPage.value.1);
      }
      r := Locate(pageIndex);
      if r.Ok? {
        lastAccessedPage := Some((pageIndex, r.value));
      } else {
        failed := true;
      }
    }

    /** Writing through the reference that `get_page` returned: the page is marked as modified. */
    method WritePage(offset: nat, data: bytes)
      requires Valid() && !failed && !isReadonly && lastAccessedPage.Some? && offset + |data| <= PAGE_SIZE
      modifies this`cachedPages, this`pages
      ensures Valid() && |pages| == |old(pages)|
      ensures breach.None? ==>
                var i := lastAccessedPage.value.0;
                i < |pages| && pages == old(pages)[i := Overwrite(old(pages)[i], offset, data)]
    {
      var slot := lastAccessedPage.value.1;
      var c := cachedPages[slot];
      var page: Page := Overwrite(c.page, offset, data);
      ghost var slots := cachedPages;
      cachedPages := cachedPages[slot := c.(page := page, modified := true)];
      if breach.None? {
        CachedWritten(h, aesCtr.cipher, slots, leaves, pages, slot, page);
        pages := pages[c.idx := page];
      }
    }
  }

  /** No error of the block function. */
  ghost predicate Total(cipher: Cipher) {
    forall b :: cipher(b).Ok?
  }

  lemma {:induction false} TotalProcesses(cipher: Cipher, input: bytes, value: nat)
    requires Total(cipher)
    ensures Processed(cipher, input, value).Ok?
    decreases |input|
  {
    if input != [] {
      assert cipher(CounterBlock(value)).Ok?;
      TotalProcesses(cipher, input[Min(16, |input|)..], value + 1);
    }
  }

  /** An honest host holds these pages, in clear. */
  ghost predicate HoldsPages(s: HostState, h: Hash, hmac: CodeHmac, kind: SectionKind, pages: seq<bytes>) {
    s.h == h && s.hmac == hmac && s.Leaves(kind) == ClearLeaves(pages)
  }

  /** What was fed since an honest host was in the first state, and what is left of the proof. */
  ghost predicate Remaining(before: Conduct, now: Conduct, fed: seq<Digest>, soFar: seq<Digest>, left: int) {
    && before.Honest? && now.Honest? && left == |now.state.pending|
    && soFar + now.state.pending == fed + before.state.pending
  }

  lemma RemainingLess(before: Conduct, now: Conduct, next: Conduct, fed: seq<Digest>, soFar: seq<Digest>, left: int,
                      request: Request, answer: Response)
    requires request.GetPageProofContinued? || request.CommitPageProofContinued?
    requires now.Honest? ==> Remaining(before, now, fed, soFar, left)
    requires next == Next(now, request, Some(answer)) && answer.ContinuedResponse?
    ensures next.Honest? ==> now.Honest? && Remaining(before, next, fed, soFar + answer.proof, left - |answer.proof|)
  {
    if next.Honest? {
      var pending := now.state.pending;
      assert pending == answer.proof + pending[|answer.proof|..];
      assert soFar + (answer.proof + next.state.pending) == (soFar + answer.proof) + next.state.pending;
    }
  }

  /** After an accepted commit the new root commits to the new leaves, and the slot can be freed; or a collision. */
  lemma Recorded(h: Hash, cipher: Cipher, slots: seq<CachedPage>, leaves: seq<bytes>, pages: seq<bytes>,
                 breach: Option<Breach>, s: nat, leaf: bytes, newRoot: Digest, proof: seq<Digest>)
    returns (r: (Option<Breach>, seq<bytes>))
    requires s < |slots| && slots[s].valid
    requires breach.None? ==>
               && Agrees(h, cipher, slots, leaves, pages) && IsPowerOfTwo(|leaves|)
               && PageOf(cipher, leaf) == Ok(slots[s].page)
               && AcceptsUpdate(h, Root(h, LeafHashes(h, leaves)), newRoot, proof, slots[s].pageHash,
                                HashLeaf(h, leaf), slots[s].idx, |leaves|)
    ensures breach.Some? ==> r == (breach, leaves)
    ensures breach.None? && r.0.Some? ==> r.0.value.Collision? && IsCollision(h, r.0.value.pair)
    ensures r.0.None? ==>
              && slots[s].idx < |leaves| && r.1 == leaves[slots[s].idx := leaf]
              && newRoot == Root(h, LeafHashes(h, r.1)) && Agrees(h, cipher, Freed(slots, s), r.1, pages)
    ensures breach.None? && slots[s].idx < |leaves| && newRoot == Root(h, LeafHashes(h, leaves[slots[s].idx := leaf])) ==>
              r.0.None?
  {
    if breach.Some? {
      return (breach, leaves);
    }
    CommittedAndDropped(h, cipher, slots, leaves, pages, s, leaf);
    var collision := CommitCollision(h, leaves, slots[s].idx, leaf, newRoot, proof);
    r := if collision.Some? then (Some(Collision(collision.value)), leaves) else (None, leaves[slots[s].idx := leaf]);
  }

  /** The proof of an honest commit: not empty, and accepted for the old and the new leaves. */
  lemma HonestReplacement(h: Hash, leaves: seq<bytes>, i: nat, leaf: bytes)
    requires IsPowerOfTwo(|leaves|) && i < |leaves| && |leaves| > 1
    ensures LeafPath(h, LeafHashes(h, leaves), i) != []
    ensures AcceptsUpdate(h, Root(h, LeafHashes(h, leaves)), Root(h, LeafHashes(h, leaves[i := leaf])),
                          LeafPath(h, LeafHashes(h, leaves), i), HashLeaf(h, leaves[i]), HashLeaf(h, leaf), i, |leaves|)
  {
    var hashes := LeafHashes(h, leaves);
    LeafHashesUpdate(h, leaves, i, leaf);
    HonestUpdateAccepted(h, hashes, i, HashLeaf(h, leaf));
    AcceptsExactLength(h, Root(h, hashes), LeafPath(h, hashes, i), hashes[i], i, |leaves|);
  }

  /** The cache after a slot was invalidated. */
  function Freed(slots: seq<CachedPage>, s: nat): seq<CachedPage>
    requires s < |slots|
  {
    slots[s := slots[s].(valid := false)]
  }

  lemma FreedNotCached(slots: seq<CachedPage>, s: nat, i: nat)
    requires s < |slots| && !InCache(slots, i)
    ensures !InCache(Freed(slots, s), i)
  {
    forall t: nat ensures !Holds(Freed(slots, s), t, i) {
      assert !Holds(slots, t, i);
    }
  }

  /** What came with a leaf: the siblings of a proof, or an answer with an authentication code. */
  datatype Evidence = ByProof(siblings: seq<Digest>) | ByHmac(answer: Response, k: nat)

  /** The leaves of pages that are not encrypted. */
  ghost function ClearLeaves(pages: seq<bytes>): (leaves: seq<bytes>)
    ensures |leaves| == |pages|
    ensures forall i :: 0 <= i < |pages| ==> leaves[i] == HostMemory.SerializedPage(pages[i], None)
  {
    seq(|pages|, i requires 0 <= i < |pages| => HostMemory.SerializedPage(pages[i], None))
  }
}
