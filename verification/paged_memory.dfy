/**
 Memory segments over pages, as in common/src/vm.rs: fixed-size pages that are written in place.
 Every method is proved to do what the flat byte array of `FlatMemory` does.
 */
module PagedMemory {
  import opened MachineInts
  import opened Buffers
  import opened FlatMemory

  class MemorySegment {
    const startAddress: u32
    const size: u32
    const pages: seq<array<u8>> // the pages of `VecMemory`

    ghost var contents: seq<bytes> // what the pages hold

    /** Every page is a buffer of its own, of the size of a page, and holds its part of `contents`. */
    ghost predicate PagesOk()
      reads this, pages
    {
      && ArePages(contents) && |contents| == |pages|
      && (forall i, j :: 0 <= i < j < |pages| ==> pages[i] != pages[j])
      && (forall i :: 0 <= i < |pages| ==> pages[i][..] == contents[i])
    }

    ghost predicate Valid()
      reads this, pages
    {
      PagesOk() && Addressable(startAddress, size)
    }

    /** The flat byte array that this segment stands for: all stored bytes, page after page. */
    ghost function AsFlat(): (m: Flat)
      requires Valid()
      reads this, pages
      ensures m.Valid() && m.start == startAddress && m.size == size && |m.bytes| == PAGE_SIZE * |pages|
    {
      ConcatLength(contents);
      Flat(startAddress, size, Concat(contents))
    }

    /** `new`, for a segment whose bounds are computed without wrapping around. */
    constructor (startAddress: u32, size: u32, pages: seq<array<u8>>)
      requires Addressable(startAddress, size)
      requires forall i :: 0 <= i < |pages| ==> pages[i].Length == PAGE_SIZE
      requires forall i, j :: 0 <= i < j < |pages| ==> pages[i] != pages[j]
      ensures Valid()
      ensures this.startAddress == startAddress && this.size == size && this.pages == pages
      ensures forall i :: 0 <= i < |pages| ==> contents[i] == pages[i][..]
    {
      this.startAddress, this.size, this.pages := startAddress, size, pages;
      this.contents := seq(|pages|, i requires 0 <= i < |pages| reads pages => pages[i][..]);
    }

    /** The checks of `new`. */
    static function Check(startAddress: u32, size: u32): (r: Option<MemoryError>)
      ensures r.None? <==> size > 0 && startAddress % 2 == 0 && startAddress + size <= TWO_32
    {
      if size == 0 then Some(ZeroSize)
      else if startAddress % 2 != 0 then Some(StartAddressNotAligned)
      else if startAddress + (size - 1) >= TWO_32 then Some(Overflow)
      else None
    }

    /** `contains`. */
    function Contains(address: u32): (b: bool)
      requires Valid()
      reads this, pages
      ensures b == AsFlat().Contains(address)
    {
      address >= startAddress && address < startAddress + size
    }

    /** `get_page`. */
    function GetPage(pageIndex: nat): (r: Result<array<u8>, MemoryError>)
      ensures pageIndex < |pages| ==> r == Ok(pages[pageIndex])
      ensures pageIndex >= |pages| ==> r == Err(PageNotFound)
    {
      if pageIndex < |pages| then Ok(pages[pageIndex]) else Err(PageNotFound)
    }

    /** A page is missing exactly when the bytes end before it. */
    lemma PageMissing(relative: nat)
      requires PagesOk()
      ensures relative / PAGE_SIZE >= |pages| <==> relative >= |Concat(contents)|
    {
      ConcatLength(contents);
      assert relative == PAGE_SIZE * (relative / PAGE_SIZE) + relative % PAGE_SIZE;
    }

    /** Where the page translation puts `width` bytes. */
    lemma PageRange(relative: nat, width: nat)
      requires PagesOk() && relative % PAGE_SIZE + width <= PAGE_SIZE && relative / PAGE_SIZE < |pages|
      ensures relative + width <= |Concat(contents)|
      ensures Concat(contents)[relative..relative + width]
           == pages[relative / PAGE_SIZE][relative % PAGE_SIZE..relative % PAGE_SIZE + width]
    {
      ConcatRange(contents, relative / PAGE_SIZE, relative % PAGE_SIZE, width);
    }

    /** Record that `data` was written into the page of `relative`: the flat array has changed by `data`. */
    ghost method Record(relative: nat, data: bytes)
      requires ArePages(contents) && |contents| == |pages|
      requires relative % PAGE_SIZE + |data| <= PAGE_SIZE && relative / PAGE_SIZE < |pages|
      modifies this`contents
      ensures ArePages(contents) && relative + |data| <= |Concat(contents)|
      ensures var p := relative / PAGE_SIZE;
              contents == old(contents)[p := Overwrite(old(contents)[p], relative % PAGE_SIZE, data)]
      ensures Concat(contents) == Overwrite(old(Concat(contents)), relative, data)
    {
      var p := relative / PAGE_SIZE;
      ConcatOverwrite(contents, p, relative % PAGE_SIZE, data);
      ConcatLength(contents);
      contents := contents[p := Overwrite(contents[p], relative % PAGE_SIZE, data)];
    }

    /** `read_u8`. */
    method ReadU8(address: u32) returns (r: Result<nat, MemoryError>)
      requires Valid()
      ensures r == AsFlat().Read(address, 1)
    {
      if address < startAddress || address > startAddress + size - 1 {
        return Err(AddressOutOfBounds);
      }
      var relativeAddress := address - PageStart(startAddress);
      var pageIndex, offset := relativeAddress / PAGE_SIZE, relativeAddress % PAGE_SIZE;
      match GetPage(pageIndex)
      case Err(e) => r := Err(e);
      case Ok(page) =>
        PageRange(relativeAddress, 1);
        LE1(page[offset..offset + 1]);
        r := Ok(page[offset]);
    }

    /** `read_u16`. */
    method ReadU16(address: u32) returns (r: Result<nat, MemoryError>)
      requires Valid()
      ensures r == AsFlat().Read(address, 2)
    {
      if address < startAddress || address > startAddress + size - 2 {
        return Err(AddressOutOfBounds);
      }
      if address % 2 != 0 {
        return Err(UnalignedAddress);
      }
      var relativeAddress := address - PageStart(startAddress);
      var pageIndex, offset := relativeAddress / PAGE_SIZE, relativeAddress % PAGE_SIZE;
      PageMissing(relativeAddress);
      AlignedInPage(PageStart(startAddress), address, 2);
      match GetPage(pageIndex)
      case Err(e) => r := Err(e);
      case Ok(page) =>
        PageRange(relativeAddress, 2);
        LE2(page[offset..offset + 2]);
        r := Ok(page[offset] as int + 256 * page[offset + 1] as int);
    }

    /** `read_u32`. */
    method ReadU32(address: u32) returns (r: Result<nat, MemoryError>)
      requires Valid()
      ensures r == AsFlat().Read(address, 4)
    {
      if address < startAddress || address > startAddress + size - 4 {
        return Err(AddressOutOfBounds);
      }
      if address % 4 != 0 {
        return Err(UnalignedAddress);
      }
      var relativeAddress := address - PageStart(startAddress);
      var pageIndex, offset := relativeAddress / PAGE_SIZE, relativeAddress % PAGE_SIZE;
      PageMissing(relativeAddress);
      AlignedInPage(PageStart(startAddress), address, 4);
      match GetPage(pageIndex)
      case Err(e) => r := Err(e);
      case Ok(page) =>
        PageRange(relativeAddress, 4);
        LE4(page[offset..offset + 4]);
        r := Ok(page[offset] as int + 256 * page[offset + 1] as int
                + 65536 * page[offset + 2] as int + 16777216 * page[offset + 3] as int);
    }

    /** `write_u8`. */
    method WriteU8(address: u32, value: u8) returns (r: Option<MemoryError>)
      requires Valid()
      modifies this`contents, pages
      ensures Valid() && (AsFlat(), r) == old(AsFlat()).Write(address, 1, value)
    {
      if address < startAddress || address > startAddress + size - 1 {
        return Some(AddressOutOfBounds);
      }
      var relativeAddress := address - PageStart(startAddress);
      var pageIndex, offset := relativeAddress / PAGE_SIZE, relativeAddress % PAGE_SIZE;
      match GetPage(pageIndex)
      case Err(e) => r := Some(e);
      case Ok(page) =>
        WriteAllowed(AsFlat(), address, 1, value);
        page[offset] := value;
        ToLE1(value);
        OverwriteOne(contents[pageIndex], offset, value);
        assert page[..] == contents[pageIndex][offset := value];
        Record(relativeAddress, ToLE(value, 1));
        r := None;
    }

    /** `write_u16`. */
    method WriteU16(address: u32, value: u16) returns (r: Option<MemoryError>)
      requires Valid()
      modifies this`contents, pages
      ensures Valid() && (AsFlat(), r) == old(AsFlat()).Write(address, 2, value)
    {
      if address < startAddress || address > startAddress + size - 2 {
        return Some(AddressOutOfBounds);
      }
      if address % 2 != 0 {
        return Some(UnalignedAddress);
      }
      var relativeAddress := address - PageStart(startAddress);
      var pageIndex, offset := relativeAddress / PAGE_SIZE, relativeAddress % PAGE_SIZE;
      AlignedInPage(PageStart(startAddress), address, 2);
      match GetPage(pageIndex)
      case Err(e) => r := Some(e);
      case Ok(page) =>
        WriteAllowed(AsFlat(), address, 2, value);
        page[offset] := value % 256;
        page[offset + 1] := value / 256 % 256;
        ToLE2(value);
        assert page[..] == contents[pageIndex][offset := value % 256][offset + 1 := value / 256 % 256];
        OverwriteTwo(contents[pageIndex], offset, value % 256, value / 256 % 256);
        Record(relativeAddress, ToLE(value, 2));
        r := None;
    }

    /** `write_u32`. */
    method WriteU32(address: u32, value: u32) returns (r: Option<MemoryError>)
      requires Valid()
      modifies this`contents, pages
      ensures Valid() && (AsFlat(), r) == old(AsFlat()).Write(address, 4, value)
    {
      if address < startAddress || address > startAddress + size - 4 {
        return Some(AddressOutOfBounds);
      }
      if address % 4 != 0 {
        return Some(UnalignedAddress);
      }
      var relativeAddress := address - PageStart(startAddress);
      var pageIndex, offset := relativeAddress / PAGE_SIZE, relativeAddress % PAGE_SIZE;
      AlignedInPage(PageStart(startAddress), address, 4);
      match GetPage(pageIndex)
      case Err(e) => r := Some(e);
      case Ok(page) =>
        WriteAllowed(AsFlat(), address, 4, value);
        page[offset] := value % 256;
        page[offset + 1] := value / 256 % 256;
        page[offset + 2] := value / 65536 % 256;
        page[offset + 3] := value / 16777216 % 256;
        ToLE4(value);
        assert page[..] == contents[pageIndex][offset := value % 256][offset + 1 := value / 256 % 256]
                           [offset + 2 := value / 65536 % 256][offset + 3 := value / 16777216 % 256];
        OverwriteFour(contents[pageIndex], offset, value % 256, value / 256 % 256,
                      value / 65536 % 256, value / 16777216 % 256);
        Record(relativeAddress, ToLE(value, 4));
        r := None;
    }

    /** `read_buffer`: page by page. If a page is missing, what precedes it is already in the buffer. */
    method ReadBuffer(address: u32, buffer: array<u8>) returns (r: Option<MemoryError>)
      requires Valid() && buffer !in pages && buffer.Length < TWO_32
      modifies buffer
      ensures BufferRead(AsFlat(), address, old(buffer[..]), buffer[..], r)
    {
      if address + buffer.Length >= TWO_32 {
        ReadRefused(AsFlat(), address, buffer[..]);
        return Some(Overflow);
      }
      var endAddress := address + buffer.Length;
      if address < startAddress || endAddress > startAddress + size {
        ReadRefused(AsFlat(), address, buffer[..]);
        return Some(AddressOutOfBounds);
      }
      r := ReadPages(address, buffer);
    }

    /** The loop of `read_buffer`. */
    method ReadPages(address: u32, buffer: array<u8>) returns (r: Option<MemoryError>)
      requires Valid() && buffer !in pages && buffer.Length < TWO_32
      requires AsFlat().BufferRefusal(address, buffer.Length).None?
      modifies buffer
      ensures BufferRead(AsFlat(), address, old(buffer[..]), buffer[..], r)
    {
      ghost var m, before := AsFlat(), buffer[..];
      var relative: nat := address - PageStart(startAddress);
      var bytesRead := 0;
      while bytesRead < buffer.Length
        invariant 0 <= bytesRead <= buffer.Length
        invariant ReadSoFar(m, address, before, buffer[..], bytesRead)
        invariant PagesOk() && Concat(contents) == m.bytes
      {
        var chunk := ReadNext(relative, buffer, bytesRead, m, address, before);
        if chunk.Err? {
          ReadDone(m, address, before, buffer[..], bytesRead);
          return Some(PageNotFound);
        }
        bytesRead := bytesRead + chunk.value;
      }
      ReadDone(m, address, before, buffer[..], bytesRead);
      return None;
    }

    /** The body of the loop. */
    method ReadNext(relative: nat, buffer: array<u8>, bytesRead: nat, ghost m: Flat, ghost address: u32, ghost before: bytes)
      returns (r: Result<nat, MemoryError>)
      requires PagesOk() && buffer !in pages && bytesRead < buffer.Length
      requires Concat(contents) == m.bytes && m.Base() <= address && relative == address - m.Base()
      requires ReadSoFar(m, address, before, buffer[..], bytesRead)
      modifies buffer
      ensures r.Ok? ==> 0 < r.value <= buffer.Length - bytesRead
                        && ReadSoFar(m, address, before, buffer[..], bytesRead + r.value)
      ensures r.Err? ==> r.error == PageNotFound && buffer[..] == old(buffer[..]) && relative + bytesRead >= |m.bytes|
    {
      ghost var now := buffer[..];
      r := ReadChunk(relative + bytesRead, buffer, bytesRead);
      if r.Ok? {
        ReadStep(m, address, before, now, bytesRead,
                 m.bytes[relative + bytesRead..relative + bytesRead + r.value], buffer[..]);
      }
    }

    /** One round of the loop: up to the end of the page or of the buffer. */
    method ReadChunk(relativeAddress: nat, buffer: array<u8>, bytesRead: nat)
      returns (r: Result<nat, MemoryError>)
      requires PagesOk() && buffer !in pages && bytesRead < buffer.Length
      modifies buffer
      ensures r.Ok? ==> 0 < r.value <= buffer.Length - bytesRead && relativeAddress + r.value <= |Concat(contents)|
      ensures r.Ok? ==> buffer[..] == old(buffer[..])[..bytesRead]
                                      + Concat(contents)[relativeAddress..relativeAddress + r.value]
                                      + old(buffer[..])[bytesRead + r.value..]
      ensures r.Err? ==> r.error == PageNotFound && buffer[..] == old(buffer[..])
                         && relativeAddress >= |Concat(contents)|
    {
      ConcatLength(contents);
      var pageIndex, offset := relativeAddress / PAGE_SIZE, relativeAddress % PAGE_SIZE;
      var remainingInPage := PAGE_SIZE - offset;
      var bytesToRead := Min(remainingInPage, buffer.Length - bytesRead);
      match GetPage(pageIndex)
      case Err(e) => return Err(e);
      case Ok(page) =>
        PageRange(relativeAddress, bytesToRead);
        CopyFromSlice(buffer, bytesRead, page, offset, bytesToRead);
        return Ok(bytesToRead);
    }

    /** `write_buffer`: page by page. If a page is missing, what precedes it is already written. */
    method WriteBuffer(address: u32, buffer: array<u8>) returns (r: Option<MemoryError>)
      requires Valid() && buffer !in pages && buffer.Length < TWO_32
      modifies this`contents, pages
      ensures Valid() && (AsFlat(), r) == old(AsFlat()).WriteBuffer(address, buffer[..])
    {
      if address + buffer.Length >= TWO_32 {
        return Some(Overflow);
      }
      var endAddress := address + buffer.Length;
      if address < startAddress || endAddress > startAddress + size {
        return Some(AddressOutOfBounds);
      }
      ghost var m, n := AsFlat(), 0;
      r, n := WritePages(address - PageStart(startAddress), buffer);
      WriteDone(m, address, buffer[..], Concat(contents), n);
    }

    /** The loop of `write_buffer`; `n` bytes are written when it ends. */
    method WritePages(relative: nat, buffer: array<u8>) returns (r: Option<MemoryError>, ghost n: nat)
      requires PagesOk() && buffer !in pages
      modifies this`contents, pages
      ensures PagesOk() && WrittenSoFar(old(Concat(contents)), relative, buffer[..], Concat(contents), n)
      ensures if n == buffer.Length then r == None
              else r == Some(PageNotFound) && relative + n >= old(|Concat(contents)|)
    {
      ghost var before := Concat(contents);
      var bytesWritten := 0;
      WriteStart(before, relative, buffer[..]);
      while bytesWritten < buffer.Length
        invariant 0 <= bytesWritten <= buffer.Length && PagesOk()
        invariant WrittenSoFar(before, relative, buffer[..], Concat(contents), bytesWritten)
      {
        var chunk := WriteNext(relative, buffer, bytesWritten, before);
        if chunk.Err? {
          return Some(PageNotFound), bytesWritten;
        }
        bytesWritten := bytesWritten + chunk.value;
      }
      return None, bytesWritten;
    }

    /** The body of the loop. */
    method WriteNext(relative: nat, buffer: array<u8>, bytesWritten: nat, ghost before: bytes)
      returns (r: Result<nat, MemoryError>)
      requires PagesOk() && buffer !in pages && bytesWritten < buffer.Length
      requires WrittenSoFar(before, relative, buffer[..], Concat(contents), bytesWritten)
      modifies this`contents, pages
      ensures PagesOk()
      ensures r.Ok? ==> 0 < r.value <= buffer.Length - bytesWritten
                        && WrittenSoFar(before, relative, buffer[..], Concat(contents), bytesWritten + r.value)
      ensures r.Err? ==> r.error == PageNotFound && contents == old(contents) && relative + bytesWritten >= |before|
    {
      ghost var now, data := Concat(contents), buffer[..];
      r := WriteChunk(relative + bytesWritten, buffer, bytesWritten);
      if r.Ok? {
        assert buffer[..] == data;
        assert buffer[bytesWritten..bytesWritten + r.value] == data[bytesWritten..bytesWritten + r.value];
        WriteStep(before, relative, data, now, bytesWritten, r.value, Concat(contents));
      }
    }

    /** One round of the loop: up to the end of the page or of the buffer. */
    method WriteChunk(relativeAddress: nat, buffer: array<u8>, bytesWritten: nat)
      returns (r: Result<nat, MemoryError>)
      requires PagesOk() && buffer !in pages && bytesWritten < buffer.Length
      modifies this`contents, pages
      ensures PagesOk() && |Concat(contents)| == old(|Concat(contents)|)
      ensures r.Ok? ==> 0 < r.value <= buffer.Length - bytesWritten && relativeAddress + r.value <= |Concat(contents)|
      ensures r.Ok? ==> Concat(contents) == Overwrite(old(Concat(contents)), relativeAddress,
                                                      buffer[bytesWritten..bytesWritten + r.value])
      ensures r.Err? ==> r.error == PageNotFound && contents == old(contents) && relativeAddress >= |Concat(contents)|
    {
      ConcatLength(contents);
      var pageIndex, offset := relativeAddress / PAGE_SIZE, relativeAddress % PAGE_SIZE;
      var remainingInPage := PAGE_SIZE - offset;
      var bytesToWrite := Min(remainingInPage, buffer.Length - bytesWritten);
      match GetPage(pageIndex)
      case Err(e) => return Err(e);
      case Ok(page) =>
        CopyFromSlice(page, offset, buffer, bytesWritten, bytesToWrite);
        Record(relativeAddress, buffer[bytesWritten..bytesWritten + bytesToWrite]);
        return Ok(bytesToWrite);
    }
  }

  /** `copy_from_slice`, from a range of one buffer to a range of another. */
  method CopyFromSlice(to: array<u8>, toStart: nat, from: array<u8>, fromStart: nat, length: nat)
    requires to != from && toStart + length <= to.Length && fromStart + length <= from.Length
    modifies to
    ensures to[..] == old(to[..])[..toStart] + from[fromStart..fromStart + length] + old(to[..])[toStart + length..]
  {
    forall k | 0 <= k < length {
      to[toStart + k] := from[fromStart + k];
    }
  }

  /** One access to a segment, by the method for its width. */
  method Perform(segment: MemorySegment, a: Access) returns (answer: Answer)
    requires segment.Valid() && a.Valid()
    modifies segment`contents, segment.pages
    ensures segment.Valid() && (segment.AsFlat(), answer) == Step(old(segment.AsFlat()), a)
  {
    Pow256Widths();
    match a
    case ReadWord(address, width) =>
      answer := PerformRead(segment, address, width);
    case WriteWord(address, width, value) =>
      var e;
      if width == 1 {
        e := segment.WriteU8(address, value);
      } else if width == 2 {
        e := segment.WriteU16(address, value);
      } else {
        e := segment.WriteU32(address, value);
      }
      answer := if e.Some? then Failed(e.value) else Written;
    case ReadBytes(address, length) =>
      var buffer := new u8[length](_ => 0);
      ghost var before := buffer[..];
      var e := segment.ReadBuffer(address, buffer);
      assert e.None? ==> buffer[..] == segment.AsFlat().ReadBuffer(address, length).0;
      answer := if e.Some? then Failed(e.value) else Bytes(buffer[..]);
    case WriteBytes(address, data) =>
      var buffer := new u8[|data|](i requires 0 <= i < |data| => data[i]);
      assert buffer[..] == data;
      var e := segment.WriteBuffer(address, buffer);
      answer := if e.Some? then Failed(e.value) else Written;
  }

  method PerformRead(segment: MemorySegment, address: u32, width: nat) returns (answer: Answer)
    requires segment.Valid() && (width == 1 || width == 2 || width == 4)
    ensures answer == Step(segment.AsFlat(), ReadWord(address, width)).1
  {
    var r;
    if width == 1 {
      r := segment.ReadU8(address);
    } else if width == 2 {
      r := segment.ReadU16(address);
    } else {
      r := segment.ReadU32(address);
    }
    match r
    case Ok(value) => answer := Word(value);
    case Err(e) => answer := Failed(e);
  }

  /**
   Any sequence of accesses: the paged segment gives the answers of the flat array, and holds its
   bytes at the end.
   */
  method Replay(segment: MemorySegment, accesses: seq<Access>) returns (answers: seq<Answer>)
    requires segment.Valid() && forall i :: 0 <= i < |accesses| ==> accesses[i].Valid()
    modifies segment`contents, segment.pages
    ensures answers == Answers(old(segment.AsFlat()), accesses, |accesses|)
    ensures segment.Valid() && segment.AsFlat() == StateAfter(old(segment.AsFlat()), accesses, |accesses|)
  {
    ghost var m := segment.AsFlat();
    answers := [];
    for k := 0 to |accesses|
      invariant answers == Answers(m, accesses, k)
      invariant segment.Valid() && segment.AsFlat() == StateAfter(m, accesses, k)
    {
      var answer := Perform(segment, accesses[k]);
      answers := answers + [answer];
    }
  }
}
