/**
 One flat byte array: the specification of the paged memory segments of common/src/vm.rs.
 `bytes` are the stored bytes from address `base` on; accesses are allowed to the `size` bytes from
 address `start` on.
 */
module FlatMemory {
  import opened MachineInts
  import opened Buffers

  datatype MemoryError =
    | PageNotFound | AddressOutOfBounds | UnalignedAddress | ZeroSize | StartAddressNotAligned | Overflow
    | GenericError(message: string)

  const PAGE_SIZE: int := 256

  /** `page_start`: the address with its low eight bits cleared. */
  function PageStart(address: u32): (p: u32)
    ensures p <= address < p + PAGE_SIZE && p % PAGE_SIZE == 0
  {
    address - address % PAGE_SIZE
  }

  // ---------------------------------------------------------------------------------------
  // Little-endian words
  // ---------------------------------------------------------------------------------------

  function FromLE(s: bytes): nat {
    if s == [] then 0 else s[0] + 256 * FromLE(s[1..])
  }

  lemma {:induction false} LittleEndianFits(s: bytes)
    ensures FromLE(s) < Pow256(|s|)
  {
    if s != [] {
      LittleEndianFits(s[1..]);
    }
  }

  function ToLE(value: nat, width: nat): (s: bytes)
    ensures |s| == width
  {
    if width == 0 then [] else [value % 256] + ToLE(value / 256, width - 1)
  }

  lemma {:induction false} FromToLE(value: nat, width: nat)
    requires value < Pow256(width)
    ensures FromLE(ToLE(value, width)) == value
  {
    if width > 0 {
      FromToLE(value / 256, width - 1);
      assert ToLE(value, width)[1..] == ToLE(value / 256, width - 1);
    }
  }

  lemma LE1(s: bytes)
    requires |s| == 1
    ensures FromLE(s) == s[0]
  {
    assert s[1..] == [];
  }

  lemma LE2(s: bytes)
    requires |s| == 2
    ensures FromLE(s) == s[0] as int + 256 * s[1] as int
  {
    LE1(s[1..]);
  }

  lemma LE4(s: bytes)
    requires |s| == 4
    ensures FromLE(s) == s[0] as int + 256 * s[1] as int + 65536 * s[2] as int + 16777216 * s[3] as int
  {
    LE2(s[2..]);
    assert s[1..][1..] == s[2..];
    assert FromLE(s[1..]) == s[1] + 256 * FromLE(s[2..]);
  }

  lemma ToLE1(value: u8)
    ensures ToLE(value, 1) == [value]
  {
    assert ToLE(value / 256, 0) == [];
  }

  lemma ToLE2(value: nat)
    ensures ToLE(value, 2) == [value % 256, value / 256 % 256]
  {
    assert ToLE(value / 256 / 256, 0) == [];
    assert ToLE(value / 256, 1) == [value / 256 % 256];
  }

  lemma ToLE4(value: nat)
    ensures ToLE(value, 4) == [value % 256, value / 256 % 256, value / 65536 % 256, value / 16777216 % 256]
  {
    ToLE2(value / 65536);
    assert value / 256 / 256 == value / 65536 && value / 65536 / 256 == value / 16777216;
    assert ToLE(value / 256, 3) == [value / 256 % 256] + ToLE(value / 65536, 2);
  }

  /** No aligned access crosses the end of a page. */
  lemma AlignedInPage(base: u32, address: u32, width: nat)
    requires base <= address && base % PAGE_SIZE == 0
    requires (width == 1 || width == 2 || width == 4) && address % width == 0
    ensures (address - base) % PAGE_SIZE + width <= PAGE_SIZE
  {
    var d := address - base;
    var offset := d % PAGE_SIZE;
    var pages := base / PAGE_SIZE + d / PAGE_SIZE;
    assert address == PAGE_SIZE * pages + offset;
    if width == 2 {
      assert offset == 2 * (address / 2 - 128 * pages);
    } else if width == 4 {
      assert offset == 4 * (address / 4 - 64 * pages);
    }
  }

  lemma InsideWhenPageIs(stored: nat, offset: nat, width: nat)
    requires stored % PAGE_SIZE == 0 && offset < stored && offset % PAGE_SIZE + width <= PAGE_SIZE
    ensures offset + width <= stored
  {
    assert stored == stored / PAGE_SIZE * PAGE_SIZE;
    assert offset == offset / PAGE_SIZE * PAGE_SIZE + offset % PAGE_SIZE;
  }

  // ---------------------------------------------------------------------------------------
  // Accesses
  // ---------------------------------------------------------------------------------------

  /**
   What `new` accepts, and moreover the bounds of accesses fit in 32 bits: `start + size`, and
   `start + size - 4` for words.
   */
  predicate Addressable(start: u32, size: u32) {
    start % 2 == 0 && size > 0 && 4 <= start + size < TWO_32
  }

  datatype Flat = Flat(start: u32, size: u32, bytes: bytes) {

    /** A segment whose bounds are computed without wrapping around; pages are stored whole. */
    ghost predicate Valid() {
      Addressable(start, size) && |bytes| % PAGE_SIZE == 0
    }

    /** There are enough pages for the whole segment. */
    ghost predicate Backed() {
      start + size <= Base() + |bytes|
    }

    function Base(): u32 {
      PageStart(start)
    }

    predicate Contains(address: u32) {
      start <= address < start + size
    }

    /** The bytes of the segment, without the padding before and after them. */
    ghost function Content(): bytes
      requires Valid() && Backed()
    {
      bytes[start - Base()..start - Base() + size]
    }

    /** Why an aligned access of `width` bytes is refused, if it is. */
    function Refusal(address: u32, width: nat): (r: Option<MemoryError>)
      requires width == 1 || width == 2 || width == 4
    {
      if address < start || address > start + size - width then Some(AddressOutOfBounds)
      else if address % width != 0 then Some(UnalignedAddress)
      else if address - Base() >= |bytes| then Some(PageNotFound)
      else None
    }

    lemma AllowedInside(address: u32, width: nat)
      requires Valid() && (width == 1 || width == 2 || width == 4) && Refusal(address, width).None?
      ensures Base() <= address && address - Base() + width <= |bytes|
      ensures (address - Base()) % PAGE_SIZE + width <= PAGE_SIZE
    {
      AlignedInPage(Base(), address, width);
      InsideWhenPageIs(|bytes|, address - Base(), width);
    }

    /** `read_u8`, `read_u16`, `read_u32` by width. */
    function Read(address: u32, width: nat): (r: Result<nat, MemoryError>)
      requires Valid() && (width == 1 || width == 2 || width == 4)
    {
      match Refusal(address, width)
      case Some(e) => Err(e)
      case None =>
        AllowedInside(address, width);
        var offset := address - Base();
        Ok(FromLE(bytes[offset..offset + width]))
    }

    /** The array with `data` stored from `address` on. */
    function Store(address: u32, data: bytes): (m: Flat)
      requires Base() <= address && address - Base() + |data| <= |bytes|
      ensures m.start == start && m.size == size && |m.bytes| == |bytes|
      ensures Valid() ==> m.Valid()
    {
      this.(bytes := Overwrite(bytes, address - Base(), data))
    }

    /** `write_u8`, `write_u16`, `write_u32` by width. */
    function Write(address: u32, width: nat, value: nat): (r: (Flat, Option<MemoryError>))
      requires Valid() && (width == 1 || width == 2 || width == 4)
      ensures r.0.Valid() && r.0.start == start && r.0.size == size && |r.0.bytes| == |bytes|
    {
      match Refusal(address, width)
      case Some(e) => (this, Some(e))
      case None =>
        AllowedInside(address, width);
        (Store(address, ToLE(value, width)), None)
    }

    /** Why a buffer access of `length` bytes is refused at once, if it is. */
    function BufferRefusal(address: u32, length: u32): (r: Option<MemoryError>) {
      if address + length >= TWO_32 then Some(Overflow)
      else if address < start || address + length > start + size then Some(AddressOutOfBounds)
      else None
    }

    /** How many of `length` bytes from `address` on are stored. */
    function Available(address: u32, length: u32): (n: nat)
      requires Base() <= address
      ensures n <= length
    {
      if address - Base() >= |bytes| then 0 else Min(length, |bytes| - (address - Base()))
    }

    /** `read_buffer`: the bytes it puts into the buffer, and the error if pages are missing. */
    function ReadBuffer(address: u32, length: u32): (r: (bytes, Option<MemoryError>))
      requires Valid()
    {
      match BufferRefusal(address, length)
      case Some(e) => ([], Some(e))
      case None =>
        var n := Available(address, length);
        var offset := address - Base();
        (if n == 0 then [] else bytes[offset..offset + n], if n == length then None else Some(PageNotFound))
    }

    /** `write_buffer`: when pages are missing, what precedes them has been written. */
    function WriteBuffer(address: u32, data: bytes): (r: (Flat, Option<MemoryError>))
      requires Valid() && |data| < TWO_32
      ensures r.0.Valid() && r.0.start == start && r.0.size == size && |r.0.bytes| == |bytes|
    {
      match BufferRefusal(address, |data|)
      case Some(e) => (this, Some(e))
      case None =>
        var n := Available(address, |data|);
        (if n == 0 then this else Store(address, data[..n]), if n == |data| then None else Some(PageNotFound))
    }
  }

  // ---------------------------------------------------------------------------------------
  // Buffers, page by page
  // ---------------------------------------------------------------------------------------

  /** A buffer held `before` and holds `now` after `read_buffer`, which gave the error `e` or none. */
  ghost predicate BufferRead(m: Flat, address: u32, before: bytes, now: bytes, e: Option<MemoryError>)
    requires m.Valid() && |before| < TWO_32
  {
    var (data, error) := m.ReadBuffer(address, |before|);
    e == error && |data| <= |before| && now == data + before[|data|..]
  }

  lemma ReadRefused(m: Flat, address: u32, before: bytes)
    requires m.Valid() && |before| < TWO_32 && m.BufferRefusal(address, |before|).Some?
    ensures BufferRead(m, address, before, before, m.BufferRefusal(address, |before|))
  {
    assert before == [] + before[0..];
  }

  /** The first `n` bytes of a buffer have been read, and nothing stops before them. */
  ghost predicate ReadSoFar(m: Flat, address: u32, before: bytes, now: bytes, n: nat) {
    var start := address - m.Base();
    && n <= |before| == |now|
    && (n > 0 ==> 0 <= start && start + n <= |m.bytes| && now[..n] == m.bytes[start..start + n])
    && now[n..] == before[n..]
  }

  lemma ReadStep(m: Flat, address: u32, before: bytes, now: bytes, n: nat, piece: bytes, next: bytes)
    requires m.Base() <= address && ReadSoFar(m, address, before, now, n) && n + |piece| <= |now|
    requires piece != [] && address - m.Base() + n + |piece| <= |m.bytes|
    requires piece == m.bytes[address - m.Base() + n..address - m.Base() + n + |piece|]
    requires next == now[..n] + piece + now[n + |piece|..]
    ensures ReadSoFar(m, address, before, next, n + |piece|)
  {
    var start, k := address - m.Base(), |piece|;
    assert next[..n + k] == now[..n] + piece;
    assert m.bytes[start..start + n + k] == m.bytes[start..start + n] + m.bytes[start + n..start + n + k];
    assert now[n + k..] == now[n..][k..] && before[n + k..] == before[n..][k..];
  }

  /** The loop of `read_buffer` ends as the flat read does: at the end, or at the first missing page. */
  lemma ReadDone(m: Flat, address: u32, before: bytes, now: bytes, n: nat)
    requires m.Valid() && |before| < TWO_32 && m.BufferRefusal(address, |before|).None?
    requires ReadSoFar(m, address, before, now, n) && (n == |before| || address - m.Base() + n >= |m.bytes|)
    ensures BufferRead(m, address, before, now, if n == |before| then None else Some(PageNotFound))
  {
    assert m.Available(address, |before|) == n;
    assert now == now[..n] + now[n..];
  }

  /** The first `n` bytes of `data` have been written, and nothing stops before them. */
  ghost predicate WrittenSoFar(before: bytes, start: nat, data: bytes, now: bytes, n: nat) {
    && n <= |data|
    && (n > 0 ==> start + n <= |before|)
    && now == Overwrite(before, start, data[..n])
  }

  lemma WriteStart(before: bytes, start: nat, data: bytes)
    ensures WrittenSoFar(before, start, data, before, 0)
  {
    OverwriteNothing(before, start);
  }

  lemma WriteStep(before: bytes, start: nat, data: bytes, now: bytes, n: nat, k: nat, next: bytes)
    requires WrittenSoFar(before, start, data, now, n) && k > 0 && n + k <= |data|
    requires start + n + k <= |before| && next == Overwrite(now, start + n, data[n..n + k])
    ensures WrittenSoFar(before, start, data, next, n + k)
  {
    OverwriteTwice(before, start, data, n, n + k);
  }

  /** The loop of `write_buffer` ends as the flat write does: at the end, or at the first missing page. */
  lemma WriteDone(m: Flat, address: u32, data: bytes, now: bytes, n: nat)
    requires m.Valid() && |data| < TWO_32 && m.BufferRefusal(address, |data|).None?
    requires WrittenSoFar(m.bytes, address - m.Base(), data, now, n)
    requires n == |data| || address - m.Base() + n >= |m.bytes|
    ensures (m.(bytes := now), if n == |data| then None else Some(PageNotFound)) == m.WriteBuffer(address, data)
  {
    assert m.Available(address, |data|) == n;
    if n == 0 {
      OverwriteNothing(m.bytes, address - m.Base());
    }
  }

  // ---------------------------------------------------------------------------------------
  // Pages, one after the other
  // ---------------------------------------------------------------------------------------

  ghost predicate ArePages(pages: seq<bytes>) {
    forall i :: 0 <= i < |pages| ==> |pages[i]| == PAGE_SIZE
  }

  ghost function Concat(pages: seq<bytes>): bytes {
    if pages == [] then [] else Concat(pages[..|pages| - 1]) + pages[|pages| - 1]
  }

  lemma {:induction false} ConcatLength(pages: seq<bytes>)
    requires ArePages(pages)
    ensures |Concat(pages)| == PAGE_SIZE * |pages|
  {
    if pages != [] {
      ConcatLength(pages[..|pages| - 1]);
    }
  }

  /** Where page `p` lies. */
  lemma {:induction false} ConcatPage(pages: seq<bytes>, p: nat)
    requires ArePages(pages) && p < |pages|
    ensures PAGE_SIZE * p + PAGE_SIZE <= |Concat(pages)|
    ensures Concat(pages)[PAGE_SIZE * p..PAGE_SIZE * p + PAGE_SIZE] == pages[p]
  {
    var front := pages[..|pages| - 1];
    ConcatLength(front);
    if p < |front| {
      ConcatPage(front, p);
      var (lo, hi) := (PAGE_SIZE * p, PAGE_SIZE * p + PAGE_SIZE);
      assert Concat(pages)[lo..hi] == Concat(front)[lo..hi];
    }
  }

  /** A range of one page is a range of the whole. */
  lemma ConcatRange(pages: seq<bytes>, p: nat, offset: nat, width: nat)
    requires ArePages(pages) && p < |pages| && offset + width <= PAGE_SIZE
    ensures PAGE_SIZE * p + offset + width <= |Concat(pages)|
    ensures Concat(pages)[PAGE_SIZE * p + offset..PAGE_SIZE * p + offset + width] == pages[p][offset..offset + width]
  {
    ConcatPage(pages, p);
    var s, lo := Concat(pages), PAGE_SIZE * p;
    assert s[lo + offset..lo + offset + width] == s[lo..lo + PAGE_SIZE][offset..offset + width];
  }

  /** Writing into one page writes into the whole. */
  lemma {:induction false} ConcatOverwrite(pages: seq<bytes>, p: nat, offset: nat, data: bytes)
    requires ArePages(pages) && p < |pages| && offset + |data| <= PAGE_SIZE
    ensures PAGE_SIZE * p + offset + |data| <= |Concat(pages)|
    ensures Concat(pages[p := Overwrite(pages[p], offset, data)])
         == Overwrite(Concat(pages), PAGE_SIZE * p + offset, data)
  {
    var front, last := pages[..|pages| - 1], pages[|pages| - 1];
    var changed := pages[p := Overwrite(pages[p], offset, data)];
    ConcatLength(front);
    assert |Concat(pages)| == |Concat(front)| + PAGE_SIZE;
    if p < |front| {
      ConcatOverwrite(front, p, offset, data);
      assert changed[..|pages| - 1] == front[p := Overwrite(front[p], offset, data)];
      OverwriteFront(Concat(front), last, PAGE_SIZE * p + offset, data);
    } else {
      assert changed[..|pages| - 1] == front;
      OverwriteBack(Concat(front), last, offset, data);
    }
  }

  /** A buffer access is refused at once exactly if it leaves the segment; leaving the address space has its own error. */
  lemma BufferInside(m: Flat, address: u32, length: u32)
    requires m.Valid()
    ensures m.BufferRefusal(address, length).None?
            <==> m.start <= address && address + length <= m.start + m.size
    ensures m.BufferRefusal(address, length) == Some(Overflow) <==> address + length > 0xffff_ffff
  {
  }

  /** A fully backed segment never misses a page. */
  lemma BackedNeverMisses(m: Flat, address: u32, width: nat, length: u32)
    requires m.Valid() && m.Backed() && (width == 1 || width == 2 || width == 4)
    ensures m.Refusal(address, width) != Some(PageNotFound)
    ensures m.ReadBuffer(address, length).1 != Some(PageNotFound)
  {
  }

  lemma WriteAllowed(m: Flat, address: u32, width: nat, value: nat)
    requires m.Valid() && (width == 1 || width == 2 || width == 4) && m.Refusal(address, width).None?
    ensures m.Write(address, width, value)
         == (Flat(m.start, m.size, Overwrite(m.bytes, address - m.Base(), ToLE(value, width))), None)
  {
    m.AllowedInside(address, width);
  }

  /** Each byte of a store: the new data inside, everything else as before. */
  lemma StoreBytes(m: Flat, address: u32, data: bytes, i: nat)
    requires m.Base() <= address && address - m.Base() + |data| <= |m.bytes| && i < |m.bytes|
    ensures var o := address - m.Base();
            m.Store(address, data).bytes[i] == if o <= i < o + |data| then data[i - o] else m.bytes[i]
  {
  }

  lemma StoreElsewhere(m: Flat, address: u32, data: bytes, lo: nat, hi: nat)
    requires m.Base() <= address && address - m.Base() + |data| <= |m.bytes| && lo <= hi <= |m.bytes|
    requires hi <= address - m.Base() || address - m.Base() + |data| <= lo
    ensures m.Store(address, data).bytes[lo..hi] == m.bytes[lo..hi]
  {
    var o, m' := address - m.Base(), m.Store(address, data);
    if hi <= o {
      assert m'.bytes[..o] == m.bytes[..o];
      assert m'.bytes[lo..hi] == m'.bytes[..o][lo..hi];
    } else {
      assert m'.bytes[o + |data|..] == m.bytes[o + |data|..];
      assert m'.bytes[lo..hi] == m'.bytes[o + |data|..][lo - o - |data|..hi - o - |data|];
    }
  }

  /** What was written is what is read. */
  lemma ReadAfterWrite(m: Flat, address: u32, width: nat, value: nat)
    requires m.Valid() && (width == 1 || width == 2 || width == 4) && value < Pow256(width)
    requires m.Write(address, width, value).1.None?
    ensures m.Write(address, width, value).0.Read(address, width) == Ok(value)
  {
    m.AllowedInside(address, width);
    var m' := m.Write(address, width, value).0;
    var o := address - m.Base();
    assert m'.bytes[o..o + width] == ToLE(value, width);
    FromToLE(value, width);
  }

  /** A read of a disjoint range does not see a write. */
  lemma ReadAfterDisjointWrite(m: Flat, a: u32, width: nat, value: nat, b: u32, other: nat)
    requires m.Valid() && (width == 1 || width == 2 || width == 4) && (other == 1 || other == 2 || other == 4)
    requires a + width <= b || b + other <= a
    ensures m.Write(a, width, value).0.Read(b, other) == m.Read(b, other)
  {
    var m' := m.Write(a, width, value).0;
    assert m'.Refusal(b, other) == m.Refusal(b, other);
    if m.Refusal(b, other).None? {
      m.AllowedInside(b, other);
      WriteElsewhere(m, a, width, value, b - m.Base(), b - m.Base() + other);
    }
  }

  lemma WriteElsewhere(m: Flat, a: u32, width: nat, value: nat, lo: nat, hi: nat)
    requires m.Valid() && (width == 1 || width == 2 || width == 4) && lo <= hi <= |m.bytes|
    requires hi <= a - m.Base() || a - m.Base() + width <= lo
    ensures m.Write(a, width, value).0.bytes[lo..hi] == m.bytes[lo..hi]
  {
    if m.Refusal(a, width).None? {
      m.AllowedInside(a, width);
      StoreElsewhere(m, a, ToLE(value, width), lo, hi);
    }
  }

  // ---------------------------------------------------------------------------------------
  // Sequences of accesses
  // ---------------------------------------------------------------------------------------

  datatype Access =
    | ReadWord(address: u32, width: nat)
    | WriteWord(address: u32, width: nat, value: nat)
    | ReadBytes(address: u32, length: u32)
    | WriteBytes(address: u32, data: bytes)
  {
    predicate Valid() {
      match this
      case ReadWord(_, width) => width == 1 || width == 2 || width == 4
      case WriteWord(_, width, value) => (width == 1 || width == 2 || width == 4) && value < Pow256(width)
      case ReadBytes(_, _) => true
      case WriteBytes(_, data) => |data| < TWO_32
    }

    /** The bytes that the access writes when it is not refused. */
    function Data(): bytes {
      match this
      case WriteWord(_, width, value) => ToLE(value, width)
      case WriteBytes(_, data) => data
      case _ => []
    }
  }

  datatype Answer = Word(value: nat) | Bytes(bytes: bytes) | Written | Failed(error: MemoryError)

  function Step(m: Flat, a: Access): (r: (Flat, Answer))
    requires m.Valid() && a.Valid()
    ensures r.0.Valid() && r.0.start == m.start && r.0.size == m.size && |r.0.bytes| == |m.bytes|
  {
    match a
    case ReadWord(address, width) =>
      (match m.Read(address, width)
       case Ok(value) => (m, Word(value))
       case Err(e) => (m, Failed(e)))
    case WriteWord(address, width, value) =>
      var (m', e) := m.Write(address, width, value);
      (m', if e.Some? then Failed(e.value) else Written)
    case ReadBytes(address, length) =>
      var (data, e) := m.ReadBuffer(address, length);
      (m, if e.Some? then Failed(e.value) else Bytes(data))
    case WriteBytes(address, data) =>
      var (m', e) := m.WriteBuffer(address, data);
      (m', if e.Some? then Failed(e.value) else Written)
  }

  function StateAfter(m: Flat, accesses: seq<Access>, k: nat): (m': Flat)
    requires m.Valid() && k <= |accesses| && forall i :: 0 <= i < |accesses| ==> accesses[i].Valid()
    ensures m'.Valid() && m'.start == m.start && m'.size == m.size && |m'.bytes| == |m.bytes|
  {
    if k == 0 then m else Step(StateAfter(m, accesses, k - 1), accesses[k - 1]).0
  }

  /** The access was carried out, and one of the bytes it wrote lies at `address`. */
  ghost predicate Wrote(m: Flat, a: Access, address: u32)
    requires m.Valid() && a.Valid()
  {
    (a.WriteWord? || a.WriteBytes?) && Step(m, a).1 == Written && a.address <= address < a.address + |a.Data()|
  }

  /** One access changes the bytes it writes and nothing else. */
  lemma StepBytes(m: Flat, a: Access, address: u32)
    requires m.Valid() && m.Backed() && a.Valid()
    requires m.Base() <= address < m.Base() + |m.bytes|
    ensures Step(m, a).0.bytes[address - m.Base()]
         == if Wrote(m, a, address) then a.Data()[address - a.address] else m.bytes[address - m.Base()]
  {
    match a
    case ReadWord(_, _) =>
    case ReadBytes(_, _) =>
    case WriteWord(at, width, value) =>
      if m.Refusal(at, width).None? {
        m.AllowedInside(at, width);
        StoreBytes(m, at, a.Data(), address - m.Base());
      }
    case WriteBytes(at, data) =>
      if m.BufferRefusal(at, |data|).None? {
        assert data[..|data|] == data;
        if data != [] {
          StoreBytes(m, at, data, address - m.Base());
        }
      }
  }

  /** Only bytes of the segment are ever written, never the padding of its first and last page. */
  lemma WritesStayInside(m: Flat, a: Access, address: u32)
    requires m.Valid() && a.Valid() && Wrote(m, a, address)
    ensures m.Contains(address)
  {
  }

  /** The byte written last at `address` among the first `k` accesses, or the initial one. */
  ghost function LastWritten(m: Flat, accesses: seq<Access>, k: nat, address: u32): u8
    requires m.Valid() && k <= |accesses| && forall i :: 0 <= i < |accesses| ==> accesses[i].Valid()
    requires m.Base() <= address < m.Base() + |m.bytes|
  {
    if k == 0 then m.bytes[address - m.Base()]
    else if Wrote(StateAfter(m, accesses, k - 1), accesses[k - 1], address) then
      accesses[k - 1].Data()[address - accesses[k - 1].address]
    else LastWritten(m, accesses, k - 1, address)
  }

  /** After any sequence of accesses, every stored byte is the one written there last. */
  lemma {:induction false} MemoryRemembersLastWrite(m: Flat, accesses: seq<Access>, k: nat, address: u32)
    requires m.Valid() && m.Backed() && k <= |accesses|
    requires forall i :: 0 <= i < |accesses| ==> accesses[i].Valid()
    requires m.Base() <= address < m.Base() + |m.bytes|
    ensures StateAfter(m, accesses, k).bytes[address - m.Base()] == LastWritten(m, accesses, k, address)
  {
    if k > 0 {
      MemoryRemembersLastWrite(m, accesses, k - 1, address);
      LastWrittenUnfold(m, accesses, k, address);
      StepRemembers(m, StateAfter(m, accesses, k - 1), accesses[k - 1], address);
    }
  }

  lemma StepRemembers(m: Flat, before: Flat, a: Access, address: u32)
    requires m.Backed() && before.Valid() && a.Valid()
    requires before.start == m.start && before.size == m.size && |before.bytes| == |m.bytes|
    requires m.Base() <= address < m.Base() + |m.bytes|
    ensures |Step(before, a).0.bytes| == |m.bytes|
    ensures Step(before, a).0.bytes[address - m.Base()]
         == if Wrote(before, a, address) then a.Data()[address - a.address] else before.bytes[address - m.Base()]
  {
    StepBytes(before, a, address);
  }

  lemma LastWrittenUnfold(m: Flat, accesses: seq<Access>, k: nat, address: u32)
    requires m.Valid() && 0 < k <= |accesses| && forall i :: 0 <= i < |accesses| ==> accesses[i].Valid()
    requires m.Base() <= address < m.Base() + |m.bytes|
    ensures var (before, a) := (StateAfter(m, accesses, k - 1), accesses[k - 1]);
            && StateAfter(m, accesses, k) == Step(before, a).0
            && LastWritten(m, accesses, k, address)
               == if Wrote(before, a, address) then a.Data()[address - a.address]
                  else LastWritten(m, accesses, k - 1, address)
  {
  }

  /** The answers to a sequence of accesses. */
  function Answers(m: Flat, accesses: seq<Access>, k: nat): (answers: seq<Answer>)
    requires m.Valid() && k <= |accesses| && forall i :: 0 <= i < |accesses| ==> accesses[i].Valid()
    ensures |answers| == k
  {
    if k == 0 then [] else Answers(m, accesses, k - 1) + [Step(StateAfter(m, accesses, k - 1), accesses[k - 1]).1]
  }
}
