/**
 The host's memory segments, client-sdk/src/memory.rs: how the bytes of a segment are laid out in
 serialized pages, and how these pages are served with Merkle proofs.
 */
module HostMemory {
  import opened MachineInts
  import opened FlatMemory
  import opened MerkleTree
  import opened ProofVerifier
  import opened Accumulator

  datatype MemorySegmentError = HostPageNotFound | InvalidPageSize | AccumulatorFailed(error: AccumulatorError)

  const HEADER_SIZE: int := 1 + 12

  /** `get_serialized_page`: a flag byte, twelve bytes of nonce or zeros, and the page. */
  function SerializedPage(data: bytes, nonce: Option<bytes>): (page: bytes)
    requires nonce.Some? ==> |nonce.value| == 12
    ensures |page| == HEADER_SIZE + |data| && page[HEADER_SIZE..] == data
  {
    match nonce
    case Some(n) => [1] + n + data
    case None => Zeros(HEADER_SIZE) + data
  }

  /** What is hashed for a page, byte by byte: the flag is one exactly if there is a nonce. */
  lemma SerializedPageBytes(data: bytes, nonce: Option<bytes>)
    requires nonce.Some? ==> |nonce.value| == 12
    ensures var page := SerializedPage(data, nonce);
            && |page| == 13 + |data| && page[0] == (if nonce.Some? then 1 else 0) && page[13..] == data
            && forall i :: 1 <= i < 13 ==> page[i] == if nonce.Some? then nonce.value[i - 1] else 0
  {
  }

  // ---------------------------------------------------------------------------------------
  // The layout
  // ---------------------------------------------------------------------------------------

  /** The byte that belongs at `address`: the segment's data, and zero around it. */
  function ByteAt(start: u32, data: bytes, address: nat): u8 {
    if start <= address < start + |data| then data[address - start] else 0
  }

  /** The content of page `p` of the segment. */
  function PageContent(start: u32, data: bytes, p: nat): (page: bytes)
    ensures |page| == PAGE_SIZE
    ensures forall o {:trigger page[o]} :: 0 <= o < PAGE_SIZE ==>
              page[o] == ByteAt(start, data, PageStart(start) + PAGE_SIZE * p + o)
  {
    seq<u8>(PAGE_SIZE, o requires 0 <= o < PAGE_SIZE => ByteAt(start, data, PageStart(start) + PAGE_SIZE * p + o))
  }

  /** `n_pages` of common/src/manifest.rs. */
  function NPages(start: u32, end: u32): (n: nat)
    requires start < end
    ensures n > 0
  {
    1 + (PageStart(end - 1) - PageStart(start)) / PAGE_SIZE
  }

  /** The number of pages that hold data; none for an empty segment. */
  function DataPages(start: u32, data: bytes): nat
    requires start + |data| < TWO_32
  {
    if data == [] then 0 else NPages(start, start + |data|)
  }

  /** `next_power_of_two`, counting up from the power of two `p`. */
  function NextPowerOfTwo(n: nat, p: nat := 1): (r: nat)
    requires IsPowerOfTwo(p)
    ensures IsPowerOfTwo(r) && r >= n && r >= p
    ensures r == p || r < 2 * n
    decreases n - p
  {
    if p >= n then p else NextPowerOfTwo(n, 2 * p)
  }

  lemma {:induction false} PowersOfTwoDouble(p: nat, q: nat)
    requires IsPowerOfTwo(p) && IsPowerOfTwo(q) && p < q
    ensures 2 * p <= q
    decreases q
  {
    if p > 1 {
      PowersOfTwoDouble(p / 2, q / 2);
    }
  }

  /** No power of two that is large enough is smaller. */
  lemma {:induction false} NextPowerOfTwoIsLeast(n: nat, p: nat, q: nat)
    requires IsPowerOfTwo(p) && IsPowerOfTwo(q) && p <= q && n <= q
    ensures NextPowerOfTwo(n, p) <= q
    decreases n - p
  {
    if p < n {
      PowersOfTwoDouble(p, q);
      NextPowerOfTwoIsLeast(n, 2 * p, q);
    }
  }

  /**
   The host's pages agree with the address translation of the VM: the page index and the offset that
   the VM computes for an address select exactly that byte of the data, in a page that exists.
   */
  lemma LayoutsAgree(start: u32, data: bytes, address: u32)
    requires start + |data| < TWO_32 && start <= address < start + |data|
    ensures var relative := address - PageStart(start);
            && relative / PAGE_SIZE < DataPages(start, data)
            && PageContent(start, data, relative / PAGE_SIZE)[relative % PAGE_SIZE] == data[address - start]
  {
    var relative := address - PageStart(start);
    var last := start + |data| - 1;
    assert PageStart(start) + PAGE_SIZE * (relative / PAGE_SIZE) + relative % PAGE_SIZE == address;
    assert relative <= last - PageStart(start);
    PagesUpTo(PageStart(start), last);
    assert relative / PAGE_SIZE <= (last - PageStart(start)) / PAGE_SIZE;
  }

  lemma PagesUpTo(base: u32, last: u32)
    requires base % PAGE_SIZE == 0 && base <= last
    ensures (PageStart(last) - base) / PAGE_SIZE == (last - base) / PAGE_SIZE
  {
  }

  /** After the data there are only zeros. */
  lemma PaddingPagesAreZero(start: u32, data: bytes, p: nat)
    requires start + |data| < TWO_32 && p >= DataPages(start, data)
    ensures PageContent(start, data, p) == Zeros(PAGE_SIZE)
  {
    var content := PageContent(start, data, p);
    if data != [] {
      var last := start + |data| - 1;
      PagesUpTo(PageStart(start), last);
      assert PageStart(start) + PAGE_SIZE * p > last;
    }
    assert forall o :: 0 <= o < PAGE_SIZE ==> content[o] == 0;
  }

  // ---------------------------------------------------------------------------------------
  // The segment
  // ---------------------------------------------------------------------------------------

  /** The serialized pages of a segment: the data pages, and empty pages up to a power of two. */
  ghost predicate IsLayout(start: u32, data: bytes, pages: seq<bytes>)
    requires start + |data| < TWO_32
  {
    && |pages| == NextPowerOfTwo(DataPages(start, data))
    && LaidOut(start, data, pages)
  }

  /** One round of the first loop of `new`: the page that starts or continues at `currentAddr`. */
  lemma PageAssembled(start: u32, data: bytes, p: nat, currentAddr: u32, contentEndAddr: u32)
    requires start + |data| < TWO_32
    requires var page := PageStart(start) + PAGE_SIZE * p;
             && currentAddr == (if p == 0 then start else page)
             && contentEndAddr == Min(page + PAGE_SIZE, start + |data|) && currentAddr < start + |data|
    ensures var page := PageStart(start) + PAGE_SIZE * p;
            && PageStart(currentAddr) == page
            && Zeros(currentAddr - page) + data[currentAddr - start..contentEndAddr - start]
               + Zeros(page + PAGE_SIZE - contentEndAddr) == PageContent(start, data, p)
  {
    var page, content := PageStart(start) + PAGE_SIZE * p, PageContent(start, data, p);
    assert page % PAGE_SIZE == 0;
    var assembled := Zeros(currentAddr - page) + data[currentAddr - start..contentEndAddr - start]
                     + Zeros(page + PAGE_SIZE - contentEndAddr);
    forall o | 0 <= o < PAGE_SIZE ensures assembled[o] == content[o] {
    }
  }

  class HostMemorySegment {
    const content: MerkleAccumulator

    ghost predicate Valid()
      reads content, content.tree
    {
      content.Valid()
    }

    /** The end of `new`: the accumulator of the pages. */
    constructor (h: Hash, pages: seq<bytes>)
      requires IsPowerOfTwo(|pages|)
      ensures Valid() && fresh(content) && fresh(content.tree) && content.h == h && content.data == pages
    {
      content := new MerkleAccumulator(h, pages);
    }

    /** `new`, which panics exactly when the data reach into the last page of the address space. */
    static method New(h: Hash, start: u32, data: bytes) returns (r: Option<HostMemorySegment>)
      requires start + |data| < TWO_32
      ensures r.None? <==> ReachesLastPage(start, data)
      ensures r.Some? ==>
                && r.value.Valid() && fresh(r.value) && fresh(r.value.content) && fresh(r.value.content.tree)
                && r.value.content.h == h && IsLayout(start, data, r.value.content.data)
    {
      var pages := LayOut(start, data);
      if pages.None? {
        return None;
      }
      var segment := new HostMemorySegment(h, pages.value);
      r := Some(segment);
    }

    /** `get_page`: the page and a proof that verifies against the current root. */
    method GetPage(pageIndex: u32) returns (r: Result<(bytes, seq<Digest>), MemorySegmentError>)
      requires Valid()
      ensures pageIndex >= |content.data| ==> r == Err(HostPageNotFound)
      ensures pageIndex < |content.data| ==>
                && r.Ok? && r.value.0 == content.data[pageIndex]
                && r.value.1 == LeafPath(content.h, LeafHashes(content.h, content.data), pageIndex)
                && Accepts(content.h, Root(content.h, LeafHashes(content.h, content.data)), r.value.1,
                           HashLeaf(content.h, r.value.0), pageIndex, |content.data|)
    {
      match content.Get(pageIndex)
      case None => r := Err(HostPageNotFound);
      case Some(page) =>
        var proof := content.Prove(pageIndex);
        r := match proof case Ok(p) => Ok((page, p)) case Err(e) => Err(AccumulatorFailed(e));
    }

    /** `store_page`: the page replaces the old one, and the update proof serves both roots. */
    method StorePage(pageIndex: u32, page: bytes) returns (r: Result<(seq<Digest>, Digest), MemorySegmentError>)
      requires Valid()
      modifies content`data, content.tree
      ensures Valid() && content.tree == old(content.tree)
      ensures |page| != HEADER_SIZE + PAGE_SIZE ==> r == Err(InvalidPageSize) && content.data == old(content.data)
      ensures |page| == HEADER_SIZE + PAGE_SIZE && pageIndex >= |old(content.data)| ==>
                r == Err(AccumulatorFailed(IndexOutOfBounds)) && content.data == old(content.data)
      ensures |page| == HEADER_SIZE + PAGE_SIZE && pageIndex < |old(content.data)| ==>
                && content.data == old(content.data)[pageIndex := page] && r.Ok?
                && Updated(content.h, old(content.data), pageIndex, page, r.value.0, r.value.1)
    {
      if |page| != HEADER_SIZE + PAGE_SIZE {
        return Err(InvalidPageSize);
      }
      var updated := content.Update(pageIndex, page);
      r := match updated case Ok(p) => Ok(p) case Err(e) => Err(AccumulatorFailed(e));
    }
  }

  /** Each page is the serialized page of its place in the segment. */
  ghost predicate LaidOut(start: u32, data: bytes, pages: seq<bytes>) {
    forall p :: 0 <= p < |pages| ==> pages[p] == SerializedPage(PageContent(start, data, p), None)
  }

  /** The end of the last data page is 2^32, which does not fit in 32 bits. */
  predicate ReachesLastPage(start: u32, data: bytes) {
    data != [] && start + |data| > TWO_32 - PAGE_SIZE
  }

  /** The loops of `new`: the pages with data, and empty pages up to a power of two; `None` is a panic. */
  method LayOut(start: u32, data: bytes) returns (r: Option<seq<bytes>>)
    requires start + |data| < TWO_32
    ensures r.None? <==> ReachesLastPage(start, data)
    ensures r.Some? ==> IsLayout(start, data, r.value)
  {
    var dataPages := LayOutData(start, data);
    if dataPages.None? {
      return None;
    }
    var pages := dataPages.value;
    var targetLen := NextPowerOfTwo(|pages|);
    while |pages| < targetLen
      invariant DataPages(start, data) <= |pages| <= targetLen
      invariant LaidOut(start, data, pages)
    {
      PaddingPagesAreZero(start, data, |pages|);
      pages := pages + [SerializedPage(Zeros(PAGE_SIZE), None)];
    }
    r := Some(pages);
  }

  /** No page before the last one ends at 2^32. */
  lemma PageEnds(start: u32, data: bytes, current: u32)
    requires start + |data| < TWO_32 && start <= current < start + |data|
    ensures PageStart(current) + PAGE_SIZE <= TWO_32
    ensures PageStart(current) + PAGE_SIZE == TWO_32 ==> ReachesLastPage(start, data)
    ensures PageStart(current) + PAGE_SIZE >= start + |data| && PageStart(current) + PAGE_SIZE < TWO_32 ==>
              !ReachesLastPage(start, data)
  {
    var q := PageStart(current) / PAGE_SIZE;
    assert PageStart(current) == PAGE_SIZE * q && TWO_32 == PAGE_SIZE * 0x100_0000;
    assert q < 0x100_0000;
  }

  /** The content of the page at the current address. */
  method AssemblePage(start: u32, data: bytes, ghost p: nat, currentAddr: u32) returns (pageContent: bytes)
    requires start + |data| < TWO_32 && currentAddr < start + |data|
    requires currentAddr == if p == 0 then start else PageStart(start) + PAGE_SIZE * p
    ensures pageContent == PageContent(start, data, p)
  {
    var end := start + |data|;
    PageAssembled(start, data, p, currentAddr, Min(PageStart(start) + PAGE_SIZE * p + PAGE_SIZE, end));
    var pageStartAddr := PageStart(currentAddr);
    var pageEndAddr := pageStartAddr + PAGE_SIZE;
    var contentEndAddr := Min(pageEndAddr, end);
    pageContent := Zeros(currentAddr - pageStartAddr);
    pageContent := pageContent + data[currentAddr - start..contentEndAddr - start];
    pageContent := pageContent + Zeros(pageEndAddr - contentEndAddr);
  }

  lemma PageOfMultiple(start: u32, p: nat)
    requires PageStart(start) + PAGE_SIZE * p < TWO_32
    ensures PageStart(PageStart(start) + PAGE_SIZE * p) == PageStart(start) + PAGE_SIZE * p
  {
  }

  method LayOutData(start: u32, data: bytes) returns (r: Option<seq<bytes>>)
    requires start + |data| < TWO_32
    ensures r.None? <==> ReachesLastPage(start, data)
    ensures r.Some? ==> |r.value| == DataPages(start, data) && LaidOut(start, data, r.value)
  {
    var end: u32 := start + |data|;
    var pages := [];
    var currentAddr: u32 := start;
    while currentAddr < end
      invariant currentAddr == if |pages| == 0 then start else PageStart(start) + PAGE_SIZE * |pages|
      invariant currentAddr < end ==> |pages| < DataPages(start, data)
      invariant currentAddr >= end ==> |pages| == DataPages(start, data) && !ReachesLastPage(start, data)
      invariant LaidOut(start, data, pages)
    {
      ghost var p := |pages|;
      LastPage(start, end, p);
      PageOfMultiple(start, p);
      PageEnds(start, data, currentAddr);
      var pageStartAddr := PageStart(currentAddr);
      if pageStartAddr + PAGE_SIZE >= TWO_32 {
        return None; // the end of the page overflows, or wraps around and ends before its start
      }
      var pageEndAddr: u32 := pageStartAddr + PAGE_SIZE;
      var pageContent := AssemblePage(start, data, p, currentAddr);
      currentAddr := pageEndAddr;
      pages := pages + [SerializedPage(pageContent, None)];
    }
    r := Some(pages);
  }

  /** A page is the last data page if and only if it reaches the end. */
  lemma LastPage(start: u32, end: u32, p: nat)
    requires start < end && PageStart(start) + PAGE_SIZE * p < end
    ensures p < NPages(start, end)
    ensures PageStart(start) + PAGE_SIZE * (p + 1) >= end <==> p + 1 == NPages(start, end)
  {
    PagesUpTo(PageStart(start), end - 1);
  }

  // ---------------------------------------------------------------------------------------
  // The VM's view
  // ---------------------------------------------------------------------------------------

  /** The pages as the VM stores them, without their headers. */
  ghost function Plain(pages: seq<bytes>): (plain: seq<bytes>)
    requires forall p :: 0 <= p < |pages| ==> |pages[p]| == HEADER_SIZE + PAGE_SIZE
    ensures |plain| == |pages| && ArePages(plain)
    ensures forall p :: 0 <= p < |pages| ==> plain[p] == pages[p][HEADER_SIZE..]
  {
    seq(|pages|, p requires 0 <= p < |pages| => pages[p][HEADER_SIZE..])
  }

  /** Every stored byte is the byte that belongs at its address. */
  lemma StoredByte(start: u32, data: bytes, pages: seq<bytes>, i: nat)
    requires start + |data| < TWO_32 && IsLayout(start, data, pages)
    requires i < PAGE_SIZE * |pages|
    ensures |Concat(Plain(pages))| == PAGE_SIZE * |pages|
    ensures Concat(Plain(pages))[i] == ByteAt(start, data, PageStart(start) + i)
  {
    var p, o, plain := i / PAGE_SIZE, i % PAGE_SIZE, Plain(pages);
    assert p < |pages| && i == PAGE_SIZE * p + o;
    ConcatLength(plain);
    ConcatPage(plain, p);
    var page := Concat(plain)[PAGE_SIZE * p..PAGE_SIZE * p + PAGE_SIZE];
    assert Concat(plain)[i] == page[o];
    assert page == plain[p] == pages[p][HEADER_SIZE..] == PageContent(start, data, p);
  }

  lemma EnoughPages(start: u32, data: bytes, pages: seq<bytes>)
    requires start + |data| < TWO_32 && data != [] && IsLayout(start, data, pages)
    ensures start + |data| <= PageStart(start) + PAGE_SIZE * |pages|
  {
    var relative := start + |data| - 1 - PageStart(start);
    LayoutsAgree(start, data, start + |data| - 1);
    assert relative / PAGE_SIZE + 1 <= |pages|;
    assert relative < PAGE_SIZE * (relative / PAGE_SIZE + 1);
  }

  /** The segment that the VM has over the host's pages. */
  ghost function HostSegment(start: u32, data: bytes, pages: seq<bytes>): Flat
    requires start + |data| < TWO_32 && IsLayout(start, data, pages)
  {
    Flat(start, |data|, Concat(Plain(pages)))
  }

  lemma StoredLength(start: u32, data: bytes, pages: seq<bytes>)
    requires start + |data| < TWO_32 && IsLayout(start, data, pages)
    ensures |HostSegment(start, data, pages).bytes| == PAGE_SIZE * |pages|
  {
    ConcatLength(Plain(pages));
  }

  lemma StoredBytes(start: u32, data: bytes, pages: seq<bytes>)
    requires start + |data| < TWO_32 && IsLayout(start, data, pages)
    ensures var m := HostSegment(start, data, pages);
            forall i :: 0 <= i < |m.bytes| ==> m.bytes[i] == ByteAt(start, data, PageStart(start) + i)
  {
    var stored := HostSegment(start, data, pages).bytes;
    StoredLength(start, data, pages);
    forall i | 0 <= i < |stored| ensures stored[i] == ByteAt(start, data, PageStart(start) + i) {
      StoredByte(start, data, pages, i);
    }
  }

  /**
   A VM segment over the host's pages is fully backed, its content is exactly the data, and every
   byte around the data is zero.
   */
  lemma HostPagesBackTheSegment(start: u32, data: bytes, pages: seq<bytes>)
    requires |data| < TWO_32 && Addressable(start, |data|) && IsLayout(start, data, pages)
    ensures var m := HostSegment(start, data, pages);
            && m.Valid() && m.Backed() && m.Content() == data
            && forall i :: 0 <= i < |m.bytes| ==> m.bytes[i] == ByteAt(start, data, m.Base() + i)
  {
    StoredLength(start, data, pages);
    EnoughPages(start, data, pages);
    StoredBytes(start, data, pages);
    ContentIsData(start, data, HostSegment(start, data, pages).bytes);
  }

  lemma ContentIsData(start: u32, data: bytes, stored: bytes)
    requires start + |data| <= PageStart(start) + |stored|
    requires forall i :: 0 <= i < |stored| ==> stored[i] == ByteAt(start, data, PageStart(start) + i)
    ensures stored[start - PageStart(start)..start - PageStart(start) + |data|] == data
  {
    var offset := start - PageStart(start);
    forall k | 0 <= k < |data| ensures stored[offset..offset + |data|][k] == data[k] {
      assert stored[offset + k] == ByteAt(start, data, PageStart(start) + (offset + k));
    }
  }
}
