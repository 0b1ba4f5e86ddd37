/**
 The segments of common/src/vm.rs over the outsourced memory of the device. Whatever the host answers, a
 run of accesses gives the answers of one flat byte array, until the host makes an access fail; or the
 run shows how the host got past a proof.
 */
module OutsourcedSegments {
  import opened MachineInts
  import opened Buffers
  import opened FlatMemory
  import opened MerkleTree
  import opened Accumulator
  import opened ProofVerifier
  import opened AesCtrMode
  import opened HostLinks
  import opened OutsourcedMemories
  import opened HonestHosts
  import HostMemory

  /** Pages that back a segment. */
  ghost predicate Backs(start: u32, size: u32, pages: seq<bytes>) {
    && Addressable(start, size) && ArePages(pages)
    && start + size <= PageStart(start) + PAGE_SIZE * |pages|
  }

  lemma BacksStill(start: u32, size: u32, pages: seq<bytes>, after: seq<bytes>)
    requires Backs(start, size, pages) && ArePages(after) && |after| == |pages|
    ensures Backs(start, size, after)
  {
  }

  /** The flat byte array that a segment over these pages stands for. */
  ghost function FlatOf(start: u32, size: u32, pages: seq<bytes>): (m: Flat)
    requires Backs(start, size, pages)
    ensures m.Valid() && m.Backed() && m.start == start && m.size == size && m.bytes == Concat(pages)
    ensures |m.bytes| == PAGE_SIZE * |pages|
  {
    ConcatLength(pages);
    Flat(start, size, Concat(pages))
  }

  class OutsourcedSegment {
    const startAddress: u32
    const size: u32
    const memory: OutsourcedMemory

    ghost predicate Valid()
      reads memory, memory.host, memory.aesCtr, memory.aesCtr.nonce
    {
      memory.Valid() && Backs(startAddress, size, memory.pages) && PagesExist()
    }

    /** All this but what others can change: the cipher, and what the host was asked. */
    ghost predicate ValidAt(asked: seq<Request>)
      reads memory
    {
      && memory.Own() && memory.AgreesWithHost(asked) && !memory.failed && memory.LastIsCached()
      && Backs(startAddress, size, memory.pages) && PagesExist()
    }

    /** The requests of other memories leave the segment valid. */
    lemma StillValid(before: seq<Request>, kinds: set<SectionKind>)
      requires ValidAt(before) && memory.host.Since(before, kinds, true) && memory.sectionKind !in kinds
      requires memory.aesCtr.Valid() && memory.aesCtr.short
      ensures Valid() && !memory.failed
    {
      memory.StillAgrees(before, memory.host.asked, kinds, true);
    }

    /** Only pages that exist were asked for. */
    ghost predicate PagesExist()
      reads memory
    {
      memory.breach.Some? ==> !memory.breach.value.ShortProof?
    }

    /** The flat byte array that this segment stands for. */
    ghost function AsFlat(): Flat
      requires Backs(startAddress, size, memory.pages)
      reads memory
    {
      FlatOf(startAddress, size, memory.pages)
    }

    /** `new` over the pages of the segment in the manifest. */
    constructor (startAddress: u32, size: u32, memory: OutsourcedMemory)
      requires memory.Valid() && (memory.breach.Some? ==> !memory.breach.value.ShortProof?)
      requires Addressable(startAddress, size)
      requires memory.nPages == HostMemory.NPages(startAddress, startAddress + size)
      ensures Valid()
      ensures this.startAddress == startAddress && this.size == size && this.memory == memory
    {
      this.startAddress, this.size, this.memory := startAddress, size, memory;
      new;
      PagesSuffice(startAddress, size);
    }

    /** Bytes inside one page are read. */
    method ReadInPage(pageIndex: u32, offset: nat, n: nat) returns (r: Result<bytes, MemoryError>)
      requires memory.Valid() && !memory.failed && pageIndex < |memory.pages| && offset + n <= PAGE_SIZE
      modifies memory, memory.host, memory.aesCtr, memory.aesCtr.nonce
      ensures memory.Valid() && memory.Moved(old(memory.host.asked), old(memory.breach), true)
      ensures memory.pages == old(memory.pages) && memory.failed == r.Err? && (r.Err? ==> r.error.GenericError?)
      ensures r.Ok? ==> |r.value| == n
      ensures r.Ok? && memory.breach.None? ==> IsPart(memory.pages[pageIndex], offset, r.value)
    {
      var slot := memory.GetPage(pageIndex);
      if slot.Err? {
        return Err(slot.error);
      }
      r := Ok(memory.cachedPages[slot.value].page[offset..offset + n]);
    }

    /** Bytes inside one page are written. */
    method WriteInPage(pageIndex: u32, offset: nat, data: bytes) returns (r: Option<MemoryError>)
      requires memory.Valid() && !memory.failed && !memory.isReadonly
      requires pageIndex < |memory.pages| && offset + |data| <= PAGE_SIZE
      modifies memory, memory.host, memory.aesCtr, memory.aesCtr.nonce
      ensures memory.Valid() && memory.Moved(old(memory.host.asked), old(memory.breach), true)
      ensures memory.failed == r.Some? && (r.Some? ==> r.value.GenericError?) && |memory.pages| == |old(memory.pages)|
      ensures r.None? && memory.breach.None? ==> OnePageChanged(old(memory.pages), memory.pages, pageIndex, offset, data)
    {
      var slot := memory.GetPage(pageIndex);
      if slot.Err? {
        return Some(slot.error);
      }
      memory.WritePage(offset, data);
      r := None;
    }

    /** The translation of an address into a page and an offset, and the read there. */
    method ReadAt(relative: u32, n: nat) returns (r: Result<bytes, MemoryError>)
      requires memory.Valid() && !memory.failed && InOnePage(|memory.pages|, relative, n)
      modifies memory, memory.host, memory.aesCtr, memory.aesCtr.nonce
      ensures memory.Valid() && memory.Moved(old(memory.host.asked), old(memory.breach), true)
      ensures memory.pages == old(memory.pages) && memory.failed == r.Err? && (r.Err? ==> r.error.GenericError?)
      ensures r.Ok? ==> |r.value| == n
      ensures r.Ok? && memory.breach.None? ==> IsPiece(memory.pages, relative, r.value)
    {
      var pageIndex, offset := relative / PAGE_SIZE, relative % PAGE_SIZE;
      r := ReadInPage(pageIndex, offset, n);
      if r.Ok? && memory.breach.None? {
        PageIsPiece(memory.pages, relative, r.value);
      }
    }

    /** The same for a write. */
    method WriteAt(relative: u32, data: bytes) returns (r: Option<MemoryError>)
      requires memory.Valid() && !memory.failed && !memory.isReadonly && InOnePage(|memory.pages|, relative, |data|)
      modifies memory, memory.host, memory.aesCtr, memory.aesCtr.nonce
      ensures memory.Valid() && memory.Moved(old(memory.host.asked), old(memory.breach), true)
      ensures memory.failed == r.Some? && (r.Some? ==> r.value.GenericError?) && |memory.pages| == |old(memory.pages)|
      ensures r.None? && memory.breach.None? ==> ChangedBy(old(memory.pages), memory.pages, relative, data)
    {
      ghost var pages := memory.pages;
      var pageIndex, offset := relative / PAGE_SIZE, relative % PAGE_SIZE;
      r := WriteInPage(pageIndex, offset, data);
      if r.None? && memory.breach.None? {
        PageChanges(pages, memory.pages, relative, data);
      }
    }

    /** The checks of an aligned access. */
    function Check(address: u32, width: nat): Option<MemoryError>
      requires width == 1 || width == 2 || width == 4
    {
      if address < startAddress || address > startAddress + size - width then Some(AddressOutOfBounds)
      else if address % width != 0 then Some(UnalignedAddress)
      else None
    }

    /** `read_u8`, `read_u16` and `read_u32` by width. */
    method ReadWord(address: u32, width: nat) returns (r: Result<nat, MemoryError>)
      requires Valid() && !memory.failed && (width == 1 || width == 2 || width == 4)
      modifies memory, memory.host, memory.aesCtr, memory.aesCtr.nonce
      ensures Valid() && memory.Moved(old(memory.host.asked), old(memory.breach), true)
      ensures memory.pages == old(memory.pages) && (memory.failed <==> r.Err? && r.error.GenericError?)
      ensures r.Ok? ==> r.value < Pow256(width)
      ensures memory.breach.None? ==> memory.failed || r == AsFlat().Read(address, width)
    {
      Checked(startAddress, size, memory.pages, address, width);
      match Check(address, width)
      case Some(e) => r := Err(e);
      case None =>
        var word := ReadAt(address - PageStart(startAddress), width);
        if word.Err? {
          return Err(word.error);
        }
        if memory.breach.None? {
          WordRead(startAddress, size, memory.pages, address, word.value);
        }
        LittleEndianFits(word.value);
        r := Ok(FromLE(word.value));
    }

    /** `write_u8`, `write_u16` and `write_u32` by width. */
    method WriteWord(address: u32, width: nat, value: nat) returns (r: Option<MemoryError>)
      requires Valid() && !memory.failed && !memory.isReadonly && (width == 1 || width == 2 || width == 4)
      modifies memory, memory.host, memory.aesCtr, memory.aesCtr.nonce
      ensures Valid() && memory.Moved(old(memory.host.asked), old(memory.breach), true)
      ensures memory.failed <==> r.Some? && r.value.GenericError?
      ensures memory.breach.None? ==> memory.failed || (AsFlat(), r) == old(AsFlat()).Write(address, width, value)
    {
      ghost var pages := memory.pages;
      var data := ToLE(value, width);
      r := StoreBytes(address, data);
      ghost var after := memory.pages;
      if memory.breach.None? && !memory.failed {
        assert r == FlatOf(startAddress, size, pages).Refusal(address, |data|);
        WordWritten(startAddress, size, pages, after, address, width, value, data, r);
      }
    }

    /** The checks, and the bytes into their page. */
    method StoreBytes(address: u32, data: bytes) returns (r: Option<MemoryError>)
      requires Valid() && !memory.failed && !memory.isReadonly && (|data| == 1 || |data| == 2 || |data| == 4)
      modifies memory, memory.host, memory.aesCtr, memory.aesCtr.nonce
      ensures Valid() && memory.Moved(old(memory.host.asked), old(memory.breach), true)
      ensures memory.failed <==> r.Some? && r.value.GenericError?
      ensures memory.failed || r == FlatOf(startAddress, size, old(memory.pages)).Refusal(address, |data|)
      ensures r.Some? && !memory.failed ==> memory.pages == old(memory.pages)
      ensures r.None? && memory.breach.None? ==>
                && PageStart(startAddress) <= address
                && ChangedBy(old(memory.pages), memory.pages, address - PageStart(startAddress), data)
    {
      ghost var pages := memory.pages;
      Checked(startAddress, size, pages, address, |data|);
      r := Check(address, |data|);
      if r.None? {
        var relative := address - PageStart(startAddress);
        r := StoreChecked(relative, data);
        ghost var after := memory.pages;
        assert r.None? && memory.breach.None? ==> ChangedBy(pages, after, relative, data);
      }
    }

    /** After the checks. */
    method StoreChecked(relative: u32, data: bytes) returns (r: Option<MemoryError>)
      requires Valid() && !memory.failed && !memory.isReadonly && InOnePage(|memory.pages|, relative, |data|)
      modifies memory, memory.host, memory.aesCtr, memory.aesCtr.nonce
      ensures Valid() && memory.Moved(old(memory.host.asked), old(memory.breach), true)
      ensures memory.failed == r.Some? && (r.Some? ==> r.value.GenericError?)
      ensures r.None? && memory.breach.None? ==> ChangedBy(old(memory.pages), memory.pages, relative, data)
    {
      ghost var pages := memory.pages;
      r := WriteAt(relative, data);
      BacksStill(startAddress, size, pages, memory.pages);
    }

    /** The checks are those of the flat array, which never misses a page. */
    lemma Checked(start: u32, size: u32, pages: seq<bytes>, address: u32, width: nat)
      requires Backs(start, size, pages) && (width == 1 || width == 2 || width == 4)
      requires start == startAddress && size == this.size
      ensures FlatOf(start, size, pages).Refusal(address, width) == Check(address, width)
      ensures Check(address, width).Some? ==> !Check(address, width).value.GenericError?
      ensures Check(address, width).None? ==>
                PageStart(start) <= address && InOnePage(|pages|, address - PageStart(start), width)
    {
      if Check(address, width).None? {
        AlignedInPage(PageStart(start), address, width);
      }
    }

    /** `read_buffer`, page by page. */
    method ReadBuffer(address: u32, length: u32) returns (r: Result<bytes, MemoryError>)
      requires Valid() && !memory.failed
      modifies memory, memory.host, memory.aesCtr, memory.aesCtr.nonce
      ensures Valid() && memory.Moved(old(memory.host.asked), old(memory.breach), true)
      ensures memory.pages == old(memory.pages) && (memory.failed <==> r.Err? && r.error.GenericError?)
      ensures memory.breach.None? ==> memory.failed || r == BufferOf(AsFlat(), address, length)
    {
      ghost var pages := memory.pages;
      if address + length >= TWO_32 {
        return Err(Overflow);
      }
      if address < startAddress || address + length > startAddress + size {
        return Err(AddressOutOfBounds);
      }
      r := ReadPages(address - PageStart(startAddress), length);
      if r.Ok? && memory.breach.None? {
        BufferIsPiece(startAddress, size, pages, address, r.value);
      }
    }

    /** The loop of `read_buffer`. */
    method ReadPages(relative: nat, length: nat) returns (r: Result<bytes, MemoryError>)
      requires memory.Valid() && !memory.failed
      requires relative + length <= PAGE_SIZE * |memory.pages| && relative + length < TWO_32
      modifies memory, memory.host, memory.aesCtr, memory.aesCtr.nonce
      ensures memory.Valid() && memory.Moved(old(memory.host.asked), old(memory.breach), true)
      ensures memory.pages == old(memory.pages) && memory.failed == r.Err? && (r.Err? ==> r.error.GenericError?)
      ensures r.Ok? ==> |r.value| == length
      ensures r.Ok? && memory.breach.None? ==> IsPiece(memory.pages, relative, r.value)
    {
      ghost var asked, breach := memory.host.asked, memory.breach;
      var buffer := [];
      PieceStart(memory.pages, relative);
      while |buffer| < length
        invariant memory.Valid() && !memory.failed && memory.pages == old(memory.pages) && |buffer| <= length
        invariant memory.Moved(asked, breach, true)
        invariant memory.breach.None? ==> IsPiece(memory.pages, relative, buffer)
      {
        var longer := ReadNext(relative, buffer, length - |buffer|, asked, breach);
        if longer.Err? {
          return Err(longer.error);
        }
        buffer := longer.value;
      }
      r := Ok(buffer);
    }

    /** The body of the loop: the buffer, and what follows it. */
    method ReadNext(relative: nat, buffer: bytes, remaining: nat, ghost asked: seq<Request>, ghost breach: Option<Breach>)
      returns (r: Result<bytes, MemoryError>)
      requires memory.Valid() && !memory.failed && remaining > 0 && memory.Moved(asked, breach, true)
      requires relative + |buffer| + remaining <= PAGE_SIZE * |memory.pages| && relative + |buffer| + remaining < TWO_32
      requires memory.breach.None? ==> IsPiece(memory.pages, relative, buffer)
      modifies memory, memory.host, memory.aesCtr, memory.aesCtr.nonce
      ensures memory.Valid() && memory.Moved(asked, breach, true)
      ensures memory.pages == old(memory.pages) && memory.failed == r.Err? && (r.Err? ==> r.error.GenericError?)
      ensures r.Ok? ==> |buffer| < |r.value| <= |buffer| + remaining
      ensures r.Ok? && memory.breach.None? ==> IsPiece(memory.pages, relative, r.value)
    {
      ghost var pages := memory.pages;
      var at := relative + |buffer|;
      r := ReadRest(at, remaining, asked, breach);
      if r.Ok? {
        var piece := r.value;
        if memory.breach.None? {
          PieceLonger(pages, relative, at, buffer, piece);
        }
        r := Ok(buffer + piece);
      }
    }

    /** Up to the end of the page or of the buffer. */
    method ReadRest(current: u32, remaining: nat, ghost asked: seq<Request>, ghost breach: Option<Breach>)
      returns (r: Result<bytes, MemoryError>)
      requires memory.Moved(asked, breach, true)
      requires memory.Valid() && !memory.failed && remaining > 0 && current < PAGE_SIZE * |memory.pages|
      modifies memory, memory.host, memory.aesCtr, memory.aesCtr.nonce
      ensures memory.Valid() && memory.Moved(asked, breach, true) && (memory.breach.None? ==> old(memory.breach).None?)
      ensures memory.pages == old(memory.pages) && memory.failed == r.Err? && (r.Err? ==> r.error.GenericError?)
      ensures r.Ok? ==> 0 < |r.value| <= remaining
      ensures r.Ok? && memory.breach.None? ==> IsPiece(memory.pages, current, r.value)
    {
      var n := InThisPage(current, remaining);
      PageExists(|memory.pages|, current, n);
      ghost var askedNow, breachNow := memory.host.asked, memory.breach;
      r := ReadAt(current, n);
      memory.MovedFurther(asked, breach, askedNow, breachNow);
    }

    /** `write_buffer`, page by page. */
    method WriteBuffer(address: u32, buffer: bytes) returns (r: Option<MemoryError>)
      requires Valid() && !memory.failed && !memory.isReadonly && |buffer| < TWO_32
      modifies memory, memory.host, memory.aesCtr, memory.aesCtr.nonce
      ensures Valid() && memory.Moved(old(memory.host.asked), old(memory.breach), true)
      ensures memory.failed <==> r.Some? && r.value.GenericError?
      ensures memory.breach.None? ==> memory.failed || (AsFlat(), r) == old(AsFlat()).WriteBuffer(address, buffer)
    {
      if address + |buffer| >= TWO_32 {
        return Some(Overflow);
      }
      if address < startAddress || address + |buffer| > startAddress + size {
        return Some(AddressOutOfBounds);
      }
      r := WriteInside(address, buffer);
    }

    /** After the checks. */
    method WriteInside(address: u32, buffer: bytes) returns (r: Option<MemoryError>)
      requires Valid() && !memory.failed && !memory.isReadonly
      requires startAddress <= address && address + |buffer| <= startAddress + size && address + |buffer| < TWO_32
      modifies memory, memory.host, memory.aesCtr, memory.aesCtr.nonce
      ensures Valid() && memory.Moved(old(memory.host.asked), old(memory.breach), true)
      ensures memory.failed == r.Some? && (r.Some? ==> r.value.GenericError?)
      ensures memory.breach.None? ==> memory.failed || (AsFlat(), r) == old(AsFlat()).WriteBuffer(address, buffer)
    {
      ghost var pages := memory.pages;
      r := WritePages(address - PageStart(startAddress), buffer);
      BacksStill(startAddress, size, pages, memory.pages);
      if r.None? && memory.breach.None? {
        BufferWritten(startAddress, size, pages, memory.pages, address, buffer);
      }
    }

    /** The loop of `write_buffer`. */
    method WritePages(relative: nat, buffer: bytes) returns (r: Option<MemoryError>)
      requires memory.Valid() && !memory.failed && !memory.isReadonly
      requires relative + |buffer| <= PAGE_SIZE * |memory.pages| && relative + |buffer| < TWO_32
      modifies memory, memory.host, memory.aesCtr, memory.aesCtr.nonce
      ensures memory.Valid() && memory.Moved(old(memory.host.asked), old(memory.breach), true)
      ensures memory.failed == r.Some? && (r.Some? ==> r.value.GenericError?) && |memory.pages| == |old(memory.pages)|
      ensures r.None? && memory.breach.None? ==> ChangedBy(old(memory.pages), memory.pages, relative, buffer)
    {
      ghost var pages, asked, breach := memory.pages, memory.host.asked, memory.breach;
      var written := 0;
      ChangeStart(pages, relative, buffer);
      while written < |buffer|
        invariant memory.Valid() && !memory.failed && 0 <= written <= |buffer| && |memory.pages| == |pages|
        invariant memory.Moved(asked, breach, true)
        invariant memory.breach.None? ==> ChangedBy(pages, memory.pages, relative, buffer[..written])
      {
        var n := WriteNext(relative, buffer, written, pages, asked, breach);
        if n.Err? {
          return Some(n.error);
        }
        written := written + n.value;
      }
      assert buffer[..written] == buffer;
      r := None;
    }

    /** The body of the loop; `pages`, `asked` and `breach` are those at its start. */
    method WriteNext(relative: nat, buffer: bytes, written: nat, ghost pages: seq<bytes>, ghost asked: seq<Request>,
                     ghost breach: Option<Breach>) returns (r: Result<nat, MemoryError>)
      requires memory.Valid() && !memory.failed && !memory.isReadonly && written < |buffer|
      requires memory.Moved(asked, breach, true)
      requires relative + |buffer| <= PAGE_SIZE * |memory.pages| && relative + |buffer| < TWO_32
      requires memory.breach.None? ==> ChangedBy(pages, memory.pages, relative, buffer[..written])
      modifies memory, memory.host, memory.aesCtr, memory.aesCtr.nonce
      ensures memory.Valid() && memory.Moved(asked, breach, true)
      ensures memory.failed == r.Err? && (r.Err? ==> r.error.GenericError?) && |memory.pages| == |old(memory.pages)|
      ensures r.Ok? ==> 0 < r.value <= |buffer| - written
      ensures r.Ok? && memory.breach.None? ==> ChangedBy(pages, memory.pages, relative, buffer[..written + r.value])
    {
      ghost var now := memory.pages;
      var at := relative + written;
      r := WriteRest(at, buffer, written, asked, breach);
      if r.Ok? && memory.breach.None? {
        ghost var (done, piece, all) := (buffer[..written], buffer[written..written + r.value], buffer[..written + r.value]);
        assert all == done + piece;
        ChangeMore(pages, now, memory.pages, relative, at, done, piece, all);
      }
    }

    /** Up to the end of the page or of the buffer. */
    method WriteRest(current: u32, buffer: bytes, written: nat, ghost asked: seq<Request>, ghost breach: Option<Breach>)
      returns (r: Result<nat, MemoryError>)
      requires memory.Moved(asked, breach, true)
      requires memory.Valid() && !memory.failed && !memory.isReadonly && written < |buffer|
      requires current < PAGE_SIZE * |memory.pages|
      modifies memory, memory.host, memory.aesCtr, memory.aesCtr.nonce
      ensures memory.Valid() && memory.Moved(asked, breach, true) && (memory.breach.None? ==> old(memory.breach).None?)
      ensures memory.failed == r.Err? && (r.Err? ==> r.error.GenericError?) && |memory.pages| == |old(memory.pages)|
      ensures r.Ok? ==> 0 < r.value <= |buffer| - written
      ensures r.Ok? && memory.breach.None? ==>
                ChangedBy(old(memory.pages), memory.pages, current, buffer[written..written + r.value])
    {
      var n := InThisPage(current, |buffer| - written);
      PageExists(|memory.pages|, current, n);
      ghost var askedNow, breachNow := memory.host.asked, memory.breach;
      var e := WriteAt(current, buffer[written..written + n]);
      memory.MovedFurther(asked, breach, askedNow, breachNow);
      r := if e.Some? then Err(e.value) else Ok(n);
    }

    /** One access; a failure of the host is answered by a `GenericError`. */
    method Perform(access: Access) returns (answer: Answer)
      requires Valid() && !memory.failed && access.Valid() && (memory.isReadonly ==> IsRead(access))
      modifies memory, memory.host, memory.aesCtr, memory.aesCtr.nonce
      ensures Valid() && memory.Moved(old(memory.host.asked), old(memory.breach), true)
      ensures memory.failed <==> HostFailed(answer)
      ensures memory.breach.None? && !memory.failed ==> (AsFlat(), answer) == Step(old(AsFlat()), access)
    {
      match access {
        case ReadWord(address, width) =>
          var r := ReadWord(address, width);
          answer := if r.Ok? then Word(r.value) else Failed(r.error);
        case WriteWord(address, width, value) =>
          var e := WriteWord(address, width, value);
          answer := if e.Some? then Failed(e.value) else Written;
        case ReadBytes(address, length) =>
          var r := ReadBuffer(address, length);
          answer := if r.Ok? then Bytes(r.value) else Failed(r.error);
        case WriteBytes(address, data) =>
          var e := WriteBuffer(address, data);
          answer := if e.Some? then Failed(e.value) else Written;
      }
    }
  }

  // ---------------------------------------------------------------------------------------
  // Bytes of pages
  // ---------------------------------------------------------------------------------------

  /** How many of the remaining bytes lie in the current page. */
  function InThisPage(current: nat, remaining: nat): (n: nat)
    requires remaining > 0
    ensures 0 < n <= remaining && current % PAGE_SIZE + n <= PAGE_SIZE
  {
    Min(PAGE_SIZE - current % PAGE_SIZE, remaining)
  }

  /** `n` bytes from `relative` on lie in one of `count` pages. */
  ghost predicate InOnePage(count: nat, relative: nat, n: nat) {
    relative / PAGE_SIZE < count && relative % PAGE_SIZE + n <= PAGE_SIZE
  }

  lemma PageExists(count: nat, current: nat, n: nat)
    requires current < PAGE_SIZE * count && current % PAGE_SIZE + n <= PAGE_SIZE
    ensures InOnePage(count, current, n)
  {
  }

  /** `data` is what a page holds from `offset` on. */
  ghost predicate IsPart(page: bytes, offset: nat, data: bytes) {
    offset + |data| <= |page| && data == page[offset..offset + |data|]
  }

  lemma PageIsPiece(pages: seq<bytes>, relative: nat, data: bytes)
    requires ArePages(pages) && relative / PAGE_SIZE < |pages|
    requires IsPart(pages[relative / PAGE_SIZE], relative % PAGE_SIZE, data)
    ensures IsPiece(pages, relative, data)
  {
    ConcatRange(pages, relative / PAGE_SIZE, relative % PAGE_SIZE, |data|);
  }

  /** One page was written from `offset` on. */
  ghost predicate OnePageChanged(before: seq<bytes>, after: seq<bytes>, p: nat, offset: nat, data: bytes) {
    && p < |before| && offset + |data| <= |before[p]|
    && after == before[p := Overwrite(before[p], offset, data)]
  }

  lemma PageChanges(before: seq<bytes>, after: seq<bytes>, relative: nat, data: bytes)
    requires ArePages(before) && OnePageChanged(before, after, relative / PAGE_SIZE, relative % PAGE_SIZE, data)
    ensures ChangedBy(before, after, relative, data)
  {
    ConcatOverwrite(before, relative / PAGE_SIZE, relative % PAGE_SIZE, data);
  }

  /** `data` is what the pages hold from `relative` on. */
  ghost predicate IsPiece(pages: seq<bytes>, relative: nat, data: bytes) {
    relative + |data| <= |Concat(pages)| && data == Concat(pages)[relative..relative + |data|]
  }

  lemma PieceStart(pages: seq<bytes>, relative: nat)
    requires ArePages(pages) && relative <= PAGE_SIZE * |pages|
    ensures IsPiece(pages, relative, [])
  {
    ConcatLength(pages);
  }

  lemma PieceLonger(pages: seq<bytes>, relative: nat, at: nat, data: bytes, more: bytes)
    requires IsPiece(pages, relative, data) && IsPiece(pages, at, more) && at == relative + |data|
    ensures IsPiece(pages, relative, data + more)
  {
    var all := Concat(pages);
    assert all[relative..at + |more|] == all[relative..at] + all[at..at + |more|];
  }

  /** The pages hold what they held before, with `data` written from `relative` on. */
  ghost predicate ChangedBy(before: seq<bytes>, after: seq<bytes>, relative: nat, data: bytes) {
    relative + |data| <= |Concat(before)| && Concat(after) == Overwrite(Concat(before), relative, data)
  }

  lemma ChangeStart(pages: seq<bytes>, relative: nat, buffer: bytes)
    requires ArePages(pages) && relative <= PAGE_SIZE * |pages|
    ensures ChangedBy(pages, pages, relative, buffer[..0])
  {
    ConcatLength(pages);
    OverwriteNothing(Concat(pages), relative);
  }

  lemma ChangeMore(before: seq<bytes>, now: seq<bytes>, after: seq<bytes>, relative: nat, at: nat, data: bytes, piece: bytes,
                   all: bytes)
    requires ChangedBy(before, now, relative, data) && ChangedBy(now, after, at, piece) && at == relative + |data|
    requires all == data + piece
    ensures ChangedBy(before, after, relative, all)
  {
    OverwriteAppend(Concat(before), relative, data, piece);
  }

  // ---------------------------------------------------------------------------------------
  // Accesses, as the flat array has them
  // ---------------------------------------------------------------------------------------

  lemma WordRead(start: u32, size: u32, pages: seq<bytes>, address: u32, word: bytes)
    requires Backs(start, size, pages) && (|word| == 1 || |word| == 2 || |word| == 4)
    requires FlatOf(start, size, pages).Refusal(address, |word|).None?
    requires PageStart(start) <= address && IsPiece(pages, address - PageStart(start), word)
    ensures FlatOf(start, size, pages).Read(address, |word|) == Ok(FromLE(word))
  {
  }

  lemma WordWritten(start: u32, size: u32, pages: seq<bytes>, after: seq<bytes>, address: u32, width: nat, value: nat,
                    data: bytes, r: Option<MemoryError>)
    requires Backs(start, size, pages) && Backs(start, size, after) && (width == 1 || width == 2 || width == 4)
    requires data == ToLE(value, width)
    requires FlatOf(start, size, pages).Refusal(address, |data|) == r
    requires r.Some? ==> after == pages
    requires r.None? ==>
               PageStart(start) <= address && ChangedBy(pages, after, address - PageStart(start), data)
    ensures FlatOf(start, size, pages).Write(address, width, value) == (FlatOf(start, size, after), r)
  {
    if r.None? {
      WriteAllowed(FlatOf(start, size, pages), address, width, value);
    }
  }

  /** `read_buffer`, as the bytes or the error. */
  ghost function BufferOf(m: Flat, address: u32, length: u32): Result<bytes, MemoryError>
    requires m.Valid()
  {
    match m.ReadBuffer(address, length)
    case (data, None) => Ok(data)
    case (_, Some(e)) => Err(e)
  }

  lemma BufferIsPiece(start: u32, size: u32, pages: seq<bytes>, address: u32, data: bytes)
    requires Backs(start, size, pages) && start <= address && address + |data| <= start + size
    requires IsPiece(pages, address - PageStart(start), data)
    ensures BufferOf(FlatOf(start, size, pages), address, |data|) == Ok(data)
  {
    var m := FlatOf(start, size, pages);
    assert m.Available(address, |data|) == |data|;
  }

  lemma BufferWritten(start: u32, size: u32, pages: seq<bytes>, after: seq<bytes>, address: u32, data: bytes)
    requires Backs(start, size, pages) && Backs(start, size, after)
    requires start <= address && address + |data| <= start + size
    requires ChangedBy(pages, after, address - PageStart(start), data)
    ensures FlatOf(start, size, pages).WriteBuffer(address, data) == (FlatOf(start, size, after), None)
  {
    var m := FlatOf(start, size, pages);
    assert m.Available(address, |data|) == |data| && data[..|data|] == data;
    if data == [] {
      OverwriteNothing(m.bytes, address - PageStart(start));
    }
  }

  predicate IsRead(access: Access) {
    access.ReadWord? || access.ReadBytes?
  }

  predicate HostFailed(answer: Answer) {
    answer.Failed? && answer.error.GenericError?
  }

  /** The pages of the manifest, rounded up to a power of two, hold the whole segment. */
  lemma PagesSuffice(start: u32, size: u32)
    requires size > 0 && start + size < TWO_32
    ensures start + size <= PageStart(start) + PAGE_SIZE * HostMemory.NextPowerOfTwo(HostMemory.NPages(start, start + size))
  {
    var last := start + size - 1;
    HostMemory.PagesUpTo(PageStart(start), last);
    var n := HostMemory.NPages(start, start + size);
    assert last - PageStart(start) < PAGE_SIZE * n;
  }

  predicate AllValid(accesses: seq<Access>) {
    forall i :: 0 <= i < |accesses| ==> accesses[i].Valid()
  }

  /** The answers so far are those of the flat array `m`, which is `now` after them. */
  ghost predicate Follows(m: Flat, accesses: seq<Access>, answers: seq<Answer>, now: Flat)
    requires m.Valid() && AllValid(accesses) && |answers| <= |accesses|
  {
    answers == Answers(m, accesses, |answers|) && now == StateAfter(m, accesses, |answers|)
  }

  lemma FollowsNext(m: Flat, accesses: seq<Access>, answers: seq<Answer>, now: Flat, next: Flat, answer: Answer)
    requires m.Valid() && AllValid(accesses) && |answers| < |accesses| && Follows(m, accesses, answers, now)
    requires now.Valid() && (next, answer) == Step(now, accesses[|answers|])
    ensures Follows(m, accesses, answers + [answer], next)
  {
  }

  /**
   The whole-run theorem. A segment starts over a root that commits to known pages and performs any accesses
   against a host that may answer anything, until the host makes one fail; only reads if the memory is
   read-only, as that of the code. Then every answer is that of the
   flat byte array that holds these pages, and so every byte read is the one written there last; or `breach`
   shows two inputs with the same hash, or an authentication code for another code page. An access fails only
   if not all answers were those of an honest host, or the block function fails; and no counter block is used
   twice for the first 2^96 committed pages.
   */
  method Replay(segment: OutsourcedSegment, accesses: seq<Access>) returns (answers: seq<Answer>)
    requires segment.Valid() && !segment.memory.failed && segment.memory.breach.None? && AllValid(accesses)
    requires segment.memory.isReadonly ==> forall i :: 0 <= i < |accesses| ==> IsRead(accesses[i])
    modifies segment.memory, segment.memory.host, segment.memory.aesCtr, segment.memory.aesCtr.nonce
    ensures segment.Valid() && |answers| <= |accesses| && (|answers| < |accesses| <==> segment.memory.failed)
    ensures segment.memory.breach.None? ==> answers == Answers(old(segment.AsFlat()), accesses, |answers|)
    ensures segment.memory.breach.None? && !segment.memory.failed ==>
              Follows(old(segment.AsFlat()), accesses, answers, segment.AsFlat())
    ensures segment.memory.breach.Some? ==>
              segment.memory.IsBreach(segment.memory.breach.value) && !segment.memory.breach.value.ShortProof?
    ensures segment.memory.Moved(old(segment.memory.host.asked), None, true)
    ensures segment.memory.Served() ==> |answers| == |accesses| && segment.memory.breach.None?
    ensures segment.memory.aesCtr.messages <= MESSAGES ==>
              NeverRepeats(segment.memory.aesCtr.used, segment.memory.aesCtr.messages)
  {
    ghost var m := segment.AsFlat();
    answers := [];
    while |answers| < |accesses|
      invariant segment.Valid() && !segment.memory.failed && |answers| <= |accesses|
      invariant segment.memory.Moved(old(segment.memory.host.asked), None, true)
      invariant segment.memory.breach.None? ==> Follows(m, accesses, answers, segment.AsFlat())
    {
      ghost var now := segment.AsFlat();
      var answer := segment.Perform(accesses[|answers|]);
      if HostFailed(answer) {
        return;
      }
      if segment.memory.breach.None? {
        FollowsNext(m, accesses, answers, now, segment.AsFlat(), answer);
      }
      answers := answers + [answer];
    }
  }

  // ---------------------------------------------------------------------------------------
  // A segment as it is packaged
  // ---------------------------------------------------------------------------------------

  /** The pages that the packager lays out are in clear, and the flat array over them holds the data. */
  lemma LayoutIsClear(start: u32, data: bytes, layout: seq<bytes>)
    requires |data| < TWO_32 && Addressable(start, |data|) && HostMemory.IsLayout(start, data, layout)
    ensures |layout| == HostMemory.NextPowerOfTwo(HostMemory.NPages(start, start + |data|))
    ensures layout == ClearLeaves(HostMemory.Plain(layout)) && Backs(start, |data|, HostMemory.Plain(layout))
    ensures FlatOf(start, |data|, HostMemory.Plain(layout)) == HostMemory.HostSegment(start, data, layout)
  {
    var pages := HostMemory.Plain(layout);
    HostMemory.EnoughPages(start, data, layout);
    forall p | 0 <= p < |layout| ensures layout[p] == ClearLeaves(pages)[p] {
      assert pages[p] == HostMemory.PageContent(start, data, p);
    }
  }

  /** The root that the packager puts into the manifest. */
  method PackageRoot(h: Hash, start: u32, data: bytes) returns (root: Digest, ghost layout: seq<bytes>)
    requires start + |data| < TWO_32 && !HostMemory.ReachesLastPage(start, data)
    ensures HostMemory.IsLayout(start, data, layout) && IsPowerOfTwo(|layout|)
    ensures root == Root(h, LeafHashes(h, layout))
  {
    var packaged := HostMemory.HostMemorySegment.New(h, start, data);
    layout := packaged.value.content.data;
    root := packaged.value.content.GetRoot();
  }

  /** The root commits to these pages, in clear. */
  ghost predicate CommitsTo(h: Hash, root: Digest, pages: seq<bytes>) {
    IsPowerOfTwo(|pages|) && root == Root(h, LeafHashes(h, ClearLeaves(pages)))
  }

  /** A segment for the device: its pages are those that the root commits to, and back its data. */
  method Package(h: Hash, start: u32, data: bytes)
    returns (root: Digest, nPages: u32, ghost layout: seq<bytes>, ghost pages: seq<bytes>)
    requires |data| < TWO_32 && Addressable(start, |data|) && !HostMemory.ReachesLastPage(start, data)
    ensures HostMemory.IsLayout(start, data, layout) && layout == ClearLeaves(pages) && CommitsTo(h, root, pages)
    ensures nPages == HostMemory.NPages(start, start + |data|) && |pages| == HostMemory.NextPowerOfTwo(nPages)
    ensures Backs(start, |data|, pages) && FlatOf(start, |data|, pages) == HostMemory.HostSegment(start, data, layout)
    ensures var m := HostMemory.HostSegment(start, data, layout); m.Valid() && m.Backed() && m.Content() == data
  {
    root, layout := PackageRoot(h, start, data);
    HostMemory.HostPagesBackTheSegment(start, data, layout);
    pages := HostMemory.Plain(layout);
    LayoutIsClear(start, data, layout);
    nPages := HostMemory.NPages(start, start + |data|);
  }

  /** An honest host with these pages of the data section, and any of the others. */
  ghost function PackagedHost(h: Hash, hmac: CodeHmac, layout: seq<bytes>, others: (seq<bytes>, seq<bytes>)): HostState {
    HostState(h, hmac, others.0, layout, others.1, [])
  }

  lemma ClearIsServable(pages: seq<bytes>)
    requires IsPowerOfTwo(|pages|) && |pages| <= TWO_32 && ArePages(pages)
    ensures AreServable(ClearLeaves(pages)) && forall i :: 0 <= i < |pages| ==> ClearLeaves(pages)[i][0] == 0
  {
    var leaves := ClearLeaves(pages);
    forall i | 0 <= i < |leaves| ensures IsSerialized(leaves[i]) && leaves[i][0] == 0 {
      assert leaves[i][..HostMemory.HEADER_SIZE] == Zeros(HostMemory.HEADER_SIZE);
    }
  }

  /** There is such a host, for all parts into which it may cut its proofs. */
  lemma PackagedHostExists(h: Hash, hmac: CodeHmac, start: u32, data: bytes, layout: seq<bytes>,
                           others: (seq<bytes>, seq<bytes>), hmacs: bool, cut: nat -> nat, horizon: nat)
    requires |data| < TWO_32 && Addressable(start, |data|) && HostMemory.IsLayout(start, data, layout)
    requires AreServable(others.0) && AreServable(others.1)
    requires forall i :: 0 <= i < |others.0| ==> others.0[i][0] == 0
    ensures var s := PackagedHost(h, hmac, layout, others);
            Servable(s) && NeverDeviates(HonestStrategy(s, hmacs, cut), s, horizon)
  {
    LayoutIsClear(start, data, layout);
    ClearIsServable(HostMemory.Plain(layout));
    StrategyNeverDeviates(PackagedHost(h, hmac, layout, others), hmacs, cut, horizon);
  }

  /** An empty cache over the root of the manifest. */
  method NewMemory(h: Hash, nPages: u32, root: Digest, ghost pages: seq<bytes>, cipher: Cipher, hmac: CodeHmac,
                   maxPagesInCache: nat, strategy: seq<Request> -> Response, horizon: nat,
                   ghost others: (seq<bytes>, seq<bytes>))
    returns (memory: OutsourcedMemory)
    requires |pages| == HostMemory.NextPowerOfTwo(nPages) && ArePages(pages) && maxPagesInCache > 0
    requires CommitsTo(h, root, pages)
    ensures fresh(memory) && fresh(memory.host) && fresh(memory.aesCtr) && fresh(memory.aesCtr.nonce)
    ensures memory.Valid() && !memory.failed && memory.breach.None? && !memory.isReadonly
    ensures memory.pages == pages && memory.nPages == nPages && memory.h == h && memory.sectionKind.DataSection?
    ensures StartedWith(memory, strategy, horizon, PackagedHost(h, hmac, ClearLeaves(pages), others), cipher)
  {
    var host := new HostLink(strategy, horizon, PackagedHost(h, hmac, ClearLeaves(pages), others));
    var aesCtr := new AesCtr(cipher);
    memory := new OutsourcedMemory(h, host, aesCtr, hmac, maxPagesInCache, false, DataSection, nPages, root, pages);
  }

  /** Nothing was asked yet. */
  ghost predicate StartedWith(memory: OutsourcedMemory, strategy: seq<Request> -> Response, horizon: nat,
                              start: HostState, cipher: Cipher)
    reads memory.host
  {
    && memory.host.strategy == strategy && memory.host.horizon == horizon && memory.host.start == start
    && memory.host.asked == [] && memory.aesCtr.cipher == cipher
  }

  /** The segment over it. */
  method Load(h: Hash, start: u32, size: u32, nPages: u32, root: Digest, ghost pages: seq<bytes>, cipher: Cipher,
              hmac: CodeHmac, maxPagesInCache: nat, strategy: seq<Request> -> Response, horizon: nat,
                   ghost others: (seq<bytes>, seq<bytes>))
    returns (segment: OutsourcedSegment)
    requires |pages| == HostMemory.NextPowerOfTwo(nPages) && Backs(start, size, pages) && maxPagesInCache > 0
    requires nPages == HostMemory.NPages(start, start + size) && CommitsTo(h, root, pages)
    ensures fresh(segment.memory) && fresh(segment.memory.host) && fresh(segment.memory.aesCtr)
    ensures fresh(segment.memory.aesCtr.nonce)
    ensures segment.Valid() && segment.startAddress == start && segment.size == size && segment.memory.pages == pages
    ensures !segment.memory.failed && segment.memory.breach.None? && !segment.memory.isReadonly
    ensures segment.memory.h == h && segment.memory.sectionKind.DataSection?
    ensures StartedWith(segment.memory, strategy, horizon, PackagedHost(h, hmac, ClearLeaves(pages), others), cipher)
  {
    var memory := NewMemory(h, nPages, root, pages, cipher, hmac, maxPagesInCache, strategy, horizon, others);
    segment := new OutsourcedSegment(start, size, memory);
  }

  /** An honest host is the reason for an error only by being asked too often. */
  lemma FailsOnlyWhenLost(memory: OutsourcedMemory, kinds: set<SectionKind>)
    requires memory.Valid() && memory.host.Since([], kinds, true)
    ensures NeverDeviates(memory.host.strategy, memory.host.start, memory.host.horizon) ==>
              && memory.breach.None?
              && (memory.failed && Total(memory.aesCtr.cipher) ==> |memory.host.asked| > memory.host.horizon)
  {
    var host := memory.host;
    if NeverDeviates(host.strategy, host.start, host.horizon) {
      assert host.At([]) == ConductAfter(host.start, host.strategy, host.horizon, []);
      assert !ConductAfter(host.start, host.strategy, host.horizon, host.asked).Deviated?;
      LostLate(host.start, host.strategy, host.horizon, host.asked);
    }
  }

  /** The segment over a root is loaded and run. */
  method RunLoaded(h: Hash, start: u32, size: u32, nPages: u32, root: Digest, ghost pages: seq<bytes>, cipher: Cipher,
                   hmac: CodeHmac, maxPagesInCache: nat, strategy: seq<Request> -> Response, horizon: nat,
                   accesses: seq<Access>, ghost others: (seq<bytes>, seq<bytes>))
    returns (answers: seq<Answer>, ghost segment: OutsourcedSegment)
    requires |pages| == HostMemory.NextPowerOfTwo(nPages) && Backs(start, size, pages) && maxPagesInCache > 0
    requires nPages == HostMemory.NPages(start, start + size) && CommitsTo(h, root, pages) && AllValid(accesses)
    ensures segment.memory.breach.None? ==>
              |answers| <= |accesses| && answers == Answers(FlatOf(start, size, pages), accesses, |answers|)
    ensures segment.memory.breach.Some? ==>
              segment.memory.breach.value.Collision? && IsCollision(h, segment.memory.breach.value.pair)
    ensures |answers| == |accesses| || segment.memory.failed
    ensures NeverDeviates(strategy, PackagedHost(h, hmac, ClearLeaves(pages), others), horizon) ==>
              && segment.memory.breach.None?
              && (Total(cipher) ==> |answers| == |accesses| || |segment.memory.host.asked| > horizon)
    ensures segment.memory.aesCtr.messages <= MESSAGES ==>
              NeverRepeats(segment.memory.aesCtr.used, segment.memory.aesCtr.messages)
  {
    var running := Load(h, start, size, nPages, root, pages, cipher, hmac, maxPagesInCache, strategy, horizon, others);
    segment := running;
    answers := Replay(running, accesses);
    FailsOnlyWhenLost(running.memory, {DataSection});
  }

  /**
   From the packager's root to the last access: a segment with these data, run with its root alone against
   any host and any eviction strategy, gives the answers of the flat array that holds the data; or `breach`
   holds two different inputs with the same hash. An honest host that holds the packaged pages, and cuts its
   proofs in any way, gets past no proof, and no access fails before the connection does.
   */
  method RunPackaged(h: Hash, start: u32, data: bytes, cipher: Cipher, hmac: CodeHmac, maxPagesInCache: nat,
                     strategy: seq<Request> -> Response, horizon: nat, accesses: seq<Access>,
                     ghost others: (seq<bytes>, seq<bytes>))
    returns (answers: seq<Answer>, ghost segment: OutsourcedSegment, ghost layout: seq<bytes>)
    requires |data| < TWO_32 && Addressable(start, |data|) && !HostMemory.ReachesLastPage(start, data)
    requires maxPagesInCache > 0 && AllValid(accesses)
    ensures HostMemory.IsLayout(start, data, layout)
    ensures var m := HostMemory.HostSegment(start, data, layout);
            && m.Valid() && m.Backed() && m.Content() == data
            && (segment.memory.breach.None? ==> |answers| <= |accesses| && answers == Answers(m, accesses, |answers|))
    ensures segment.memory.breach.Some? ==>
              segment.memory.breach.value.Collision? && IsCollision(h, segment.memory.breach.value.pair)
    ensures |answers| == |accesses| || segment.memory.failed
    ensures NeverDeviates(strategy, PackagedHost(h, hmac, layout, others), horizon) ==>
              && segment.memory.breach.None?
              && (Total(cipher) ==> |answers| == |accesses| || |segment.memory.host.asked| > horizon)
    ensures segment.memory.aesCtr.messages <= MESSAGES ==>
              NeverRepeats(segment.memory.aesCtr.used, segment.memory.aesCtr.messages)
  {
    var root, nPages;
    ghost var pages;
    root, nPages, layout, pages := Package(h, start, data);
    answers, segment :=
      RunLoaded(h, start, |data|, nPages, root, pages, cipher, hmac, maxPagesInCache, strategy, horizon, accesses, others);
  }
}
