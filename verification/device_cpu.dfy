/**
 The `Cpu` of common/src/vm.rs as vm/src/handlers/start_vapp.rs runs it: over three segments of outsourced
 memory that share one connection to the host and one AES counter. Each step is that of `RiscvMachine`, until
 the host makes an access fail; or a breach shows how it got past a proof.
 */
module DeviceCpus {
  import opened MachineInts
  import opened FlatMemory
  import opened RiscvDecode
  import opened Words
  import opened RiscvMachine
  import opened HostLinks
  import opened OutsourcedMemories
  import opened OutsourcedSegments

  // ---------------------------------------------------------------------------------------
  // What a step does
  // ---------------------------------------------------------------------------------------

  const SECTIONS: set<SectionKind> := {CodeSection, DataSection, StackSection}

  /** The host did not serve a page. */
  predicate IsHostError(e: CpuError) {
    e.MemoryFault? && e.error.GenericError?
  }

  /**
   The machine that a device stands for, what it asked of the host, whether the host got past a proof, and
   whether it did not serve a page.
   */
  datatype View = View(m: Machine, asked: seq<Request>, broken: bool, failed: bool)

  /** Only pages that exist were asked for, and a breach is kept. */
  ghost predicate Moved(host: HostLink, v: View, w: View) {
    host.Between(v.asked, w.asked, SECTIONS, true) && (v.broken ==> w.broken)
  }

  /** A value or an error, as `spec` says unless the host failed or got past a proof. */
  ghost predicate Read(host: HostLink, v: View, w: View, r: Result<u32, CpuError>, spec: Result<u32, CpuError>) {
    match r
    case Ok(_) => Moved(host, v, w) && w.m == v.m && !w.failed && (!w.broken ==> r == spec)
    case Err(e) =>
      Moved(host, v, w) && w.m == v.m && w.failed == IsHostError(e) && (!w.broken && !w.failed ==> r == spec)
  }

  /** A new state, or an error and no change, as `spec` says unless the host failed or got past a proof. */
  ghost predicate Took(host: HostLink, v: View, w: View, e: Option<CpuError>, spec: Result<Machine, CpuError>) {
    match e
    case None => Moved(host, v, w) && !w.failed && (!w.broken ==> spec == Ok(w.m))
    case Some(error) =>
      && Moved(host, v, w) && w.failed == IsHostError(error)
      && (!w.broken && !w.failed ==> spec == Err(error) && w.m == v.m)
  }

  /** The same before the program counter moves on by `increment`. */
  ghost predicate Did(host: HostLink, v: View, w: View, e: Option<CpuError>, increment: int,
                      spec: Result<Machine, CpuError>)
    requires w.m.Valid()
  {
    match e
    case None => Moved(host, v, w) && !w.failed && (!w.broken ==> spec == Ok(Advance(w.m, increment)))
    case Some(_) => Took(host, v, w, e, spec)
  }

  function Section(m: Machine, kind: SectionKind): Flat {
    match kind
    case CodeSection => m.code
    case DataSection => m.data
    case StackSection => m.stack
  }

  function WithSection(m: Machine, kind: SectionKind, flat: Flat): Machine {
    match kind
    case CodeSection => m.(code := flat)
    case DataSection => m.(data := flat)
    case StackSection => m.(stack := flat)
  }

  // ---------------------------------------------------------------------------------------
  // Parts of a step
  // ---------------------------------------------------------------------------------------

  /** Both halves of an instruction, or the error of the second one. */
  function Joined(lo: u32, hi: Result<u32, CpuError>): (r: Result<u32, CpuError>)
    requires lo < Pow256(2) && (hi.Ok? ==> hi.value < Pow256(2))
  {
    Pow256Widths();
    if hi.Err? then hi else Ok(hi.value * TWO_16 + lo)
  }

  lemma FetchIs(code: Flat, pc: u32, last: u32, whole: bool)
    requires code.Valid() && last == Wrap(pc + 3) && whole == (pc % 4 == 0 && code.Contains(last))
    ensures Fetch(code, pc) == if whole then ReadFrom(code, pc, 4) else FetchHalves(code, pc)
  {
  }

  lemma LoadIs(m: Machine, inStack: bool, inData: bool, inCode: bool, address: u32, width: nat)
    requires m.Valid() && (width == 1 || width == 2 || width == 4)
    requires inStack == m.stack.Contains(address) && inData == m.data.Contains(address)
    requires inCode == m.code.Contains(address)
    ensures RiscvMachine.Load(m, address, width)
         == if inStack then ReadFrom(m.stack, address, width)
            else if inData then ReadFrom(m.data, address, width)
            else if inCode then ReadFrom(m.code, address, width)
            else Err(MemoryFault(AddressOutOfBounds))
  {
  }

  lemma OneHalf(host: HostLink, v: View, w: View, code: Flat, pc: u32, r: Result<u32, CpuError>)
    requires code.Valid() && Read(host, v, w, r, ReadFrom(code, pc, 2))
    requires r.Err? || r.value % 4 != 3
    ensures Read(host, v, w, r, FetchHalves(code, pc))
  {
  }

  lemma TwoHalves(host: HostLink, v: View, w: View, x: View, code: Flat, pc: u32, next: u32,
                  lo: Result<u32, CpuError>, hi: Result<u32, CpuError>)
    requires code.Valid() && next == Wrap(pc + 2) && (hi.Ok? ==> hi.value < Pow256(2))
    requires lo.Ok? && lo.value % 4 == 3 && lo.value < Pow256(2)
    requires Read(host, v, w, lo, ReadFrom(code, pc, 2))
    requires Read(host, w, x, hi, ReadFrom(code, next, 2))
    ensures Read(host, v, x, Joined(lo.value, hi), FetchHalves(code, pc))
  {
  }

  lemma LoadEnds(host: HostLink, v: View, w: View, r: Result<u32, CpuError>, rd: Reg, address: u32, width: nat,
                 signed: bool, size: int)
    requires v.m.Valid() && (width == 1 || width == 2 || width == 4) && address % width == 0
    requires Read(host, v, w, r, RiscvMachine.Load(v.m, address, width))
    ensures r.Err? ==> Did(host, v, w, Some(r.error), size, ExecuteLoad(v.m, rd, address, width, signed, size))
    ensures r.Ok? ==>
              Did(host, v, w.(m := SetRegister(w.m, rd, Extended(r.value, width, signed))), None, size,
                  ExecuteLoad(v.m, rd, address, width, signed, size))
  {
  }

  lemma LrEnds(host: HostLink, v: View, w: View, r: Result<u32, CpuError>, rd: Reg, address: u32, size: int)
    requires v.m.Valid() && address % 4 == 0 && Read(host, v, w, r, RiscvMachine.Load(v.m, address, 4))
    ensures r.Err? ==> Did(host, v, w, Some(r.error), size, ExecuteLr(v.m, rd, address, size))
    ensures r.Ok? ==>
              Did(host, v, w.(m := SetRegister(w.m, rd, r.value).(reservation := Some(address))), None, size,
                  ExecuteLr(v.m, rd, address, size))
  {
  }

  lemma ScEnds(host: HostLink, v: View, w: View, e: Option<CpuError>, rd: Reg, address: u32, value: u32, size: int)
    requires v.m.Valid() && w.m.Valid() && address % 4 == 0 && v.m.reservation == Some(address)
    requires Took(host, v, w, e, Store(v.m, address, 4, value))
    ensures e.Some? ==> Did(host, v, w, e, size, ExecuteSc(v.m, rd, address, value, size))
    ensures e.None? ==>
              Did(host, v, w.(m := SetRegister(w.m, rd, 0).(reservation := None)), None, size,
                  ExecuteSc(v.m, rd, address, value, size))
  {
  }

  /** The read of an AMO fails, or its write is what is left. */
  lemma AmoEnds(host: HostLink, v: View, w: View, x: View, kind: AmoKind, rd: Reg, address: u32, y: u32, size: int,
                r: Result<u32, CpuError>, e: Option<CpuError>)
    requires v.m.Valid() && x.m.Valid() && address % 4 == 0 && Read(host, v, w, r, RiscvMachine.Load(v.m, address, 4))
    requires r.Ok? ==> Took(host, w, x, e, Store(w.m, address, 4, Combined(kind, r.value, y)))
    ensures r.Err? ==> Did(host, v, w, Some(r.error), size, ExecuteAmo(v.m, kind, rd, address, y, size))
    ensures r.Ok? && e.Some? ==> Did(host, v, x, e, size, ExecuteAmo(v.m, kind, rd, address, y, size))
    ensures r.Ok? && e.None? ==>
              Did(host, v, x.(m := SetRegister(x.m, rd, r.value)), None, size, ExecuteAmo(v.m, kind, rd, address, y, size))
  {
  }

  /** A write that a segment took, with its reservation cancelled. */
  lemma StoreEnds(host: HostLink, v: View, w: View, kind: SectionKind, address: u32, width: nat, value: nat,
                  fault: Option<MemoryError>)
    requires v.m.Valid() && w.m.Valid() && (width == 1 || width == 2 || width == 4)
    requires kind == if v.m.stack.Contains(address) then StackSection else DataSection
    requires Section(v.m, kind).Contains(address)
    requires Moved(host, v, w) && (w.failed <==> fault.Some? && fault.value.GenericError?)
    requires !w.broken && !w.failed ==>
               var (after, f) := Section(v.m, kind).Write(address, width, value);
               fault == f && w.m == WithSection(v.m, kind, after)
    ensures fault.Some? ==> Took(host, v, w, Some(MemoryFault(fault.value)), Store(v.m, address, width, value))
    ensures fault.None? ==>
              Took(host, v, w.(m := w.m.(reservation := AfterStore(w.m.reservation, address, width))), None,
                   Store(v.m, address, width, value))
  {
  }

  lemma OtherIs(m: Machine, op: Op, size: int)
    requires m.Valid()
    ensures ExecuteOther(m, op, size)
         == if op.Jal? then Ok(ExecuteJal(m, op.rd, Value(op.imm), size))
            else if op.Jalr? then Ok(ExecuteJalr(m, op.rd, Address(m.regs, op.rs1, op.imm), size))
            else ExecuteSystem(m, op, size)
  {
  }

  lemma JalEnds(host: HostLink, v: View, pc: u32, rd: Reg, link: u32, offset: u32, size: int)
    requires v.m.Valid() && !v.failed && v.m.pc == pc && link == Wrap(pc + size)
    ensures Did(host, v, v.(m := SetRegister(v.m, rd, link)), None, offset, Ok(ExecuteJal(v.m, rd, offset, size)))
  {
  }

  lemma JalrEnds(host: HostLink, v: View, pc: u32, rd: Reg, link: u32, target: u32, size: int)
    requires v.m.Valid() && !v.failed && v.m.pc == pc && link == Wrap(pc + size)
    ensures Did(host, v, v.(m := SetRegister(v.m, rd, link).(pc := ClearLowBit(target))), None, 0,
                Ok(ExecuteJalr(v.m, rd, target, size)))
  {
  }

  lemma AdvanceIs(m: Machine, pc: u32, next: u32, increment: int)
    requires m.Valid() && m.pc == pc && next == Wrap(pc + increment)
    ensures Advance(m, increment) == SetRegister(m.(pc := next), 0, 0)
  {
  }

  lemma MemoryIs(m: Machine, op: Op, size: int)
    requires m.Valid()
    ensures match LoadOf(op)
            case Some((rd, rs1, imm, width, signed)) =>
              ExecuteMemory(m, op, size) == ExecuteLoad(m, rd, Address(m.regs, rs1, imm), width, signed, size)
            case None => true
    ensures LoadOf(op).None? ==>
              match StoreOf(op)
              case Some((rs1, rs2, imm, width)) =>
                ExecuteMemory(m, op, size)
                == ExecuteStore(m, Address(m.regs, rs1, imm), width, Truncated(Get(m.regs, rs2), width), size)
              case None => ExecuteMemory(m, op, size) == ExecuteAtomic(m, op, size)
  {
  }

  lemma SystemIs(m: Machine, op: Op, size: int)
    requires m.Valid()
    ensures ExecuteSystem(m, op, size)
         == if op.Fence? then Ok(Advance(m, size))
            else if Unsupported(op).Some? then Err(Generic(Unsupported(op).value))
            else ExecuteMemory(m, op, size)
  {
  }

  lemma AtomicIs(m: Machine, op: Op, size: int)
    requires m.Valid()
    ensures ExecuteAtomic(m, op, size)
         == if op.LrW? then ExecuteLr(m, op.rd, Get(m.regs, op.rs1), size)
            else if op.ScW? then ExecuteSc(m, op.rd, Get(m.regs, op.rs1), Get(m.regs, op.rs2), size)
            else if op.Amo? then ExecuteAmo(m, op.kind, op.rd, Get(m.regs, op.rs1), Get(m.regs, op.rs2), size)
            else Err(Generic("Unknown instruction"))
  {
  }

  lemma OpIs(host: HostLink, v: View, op: Op, size: int, computed: Option<(Reg, u32)>, branch: Option<(bool, bv32)>)
    requires v.m.Valid() && !v.failed && branch == Branch(v.m.regs, op)
    requires var r := OfRegisters(v.m.regs, op);
             computed == if r.Some? then r else OfImmediate(v.m.regs, v.m.pc, op)
    ensures computed.Some? ==>
              Did(host, v, v.(m := SetRegister(v.m, computed.value.0, computed.value.1)), None, size, Execute(v.m, op, size))
    ensures computed.None? && branch.Some? ==>
              Did(host, v, v, None, if branch.value.0 then Value(branch.value.1) else size, Execute(v.m, op, size))
    ensures computed.None? && branch.None? ==> Execute(v.m, op, size) == ExecuteOther(v.m, op, size)
  {
    assert computed == Computed(v.m, op);
  }

  lemma StepEnds(host: HostLink, v: View, w: View, x: View, word: u32, e: Option<CpuError>)
    requires v.m.Valid() && Read(host, v, w, Ok(word), Fetch(v.m.code, v.m.pc))
    requires Took(host, w, x, e, ExecuteWord(w.m, word))
    ensures Took(host, v, x, e, RunStep(v.m))
  {
  }

  // ---------------------------------------------------------------------------------------
  // The CPU
  // ---------------------------------------------------------------------------------------

  /** `contains` */
  predicate Contains(segment: OutsourcedSegment, address: u32) {
    segment.startAddress <= address < segment.startAddress + segment.size
  }

  /** The segments of an application: one connection, and one counter; only the code is read-only. */
  ghost predicate AreShared(codeSeg: OutsourcedSegment, dataSeg: OutsourcedSegment, stackSeg: OutsourcedSegment) {
    && codeSeg.memory.sectionKind.CodeSection? && codeSeg.memory.isReadonly
    && dataSeg.memory.sectionKind.DataSection? && !dataSeg.memory.isReadonly
    && stackSeg.memory.sectionKind.StackSection? && !stackSeg.memory.isReadonly
    && dataSeg.memory.host == codeSeg.memory.host && stackSeg.memory.host == codeSeg.memory.host
    && dataSeg.memory.aesCtr == codeSeg.memory.aesCtr && stackSeg.memory.aesCtr == codeSeg.memory.aesCtr
  }

  class DeviceCpu {
    var pc: u32
    const regs: array<u32>
    const codeSeg: OutsourcedSegment
    const dataSeg: OutsourcedSegment
    const stackSeg: OutsourcedSegment
    var reservationAddr: Option<u32>

    ghost function Host(): HostLink {
      codeSeg.memory.host
    }

    /** What an access can change. */
    ghost function Memories(): set<object> {
      {codeSeg.memory, dataSeg.memory, stackSeg.memory, Host(), codeSeg.memory.aesCtr, codeSeg.memory.aesCtr.nonce}
    }

    ghost predicate Valid()
      reads Memories()
    {
      && regs.Length == 32 && this !in Memories() && regs !in Memories() && AreShared(codeSeg, dataSeg, stackSeg)
      && codeSeg.Valid() && dataSeg.Valid() && stackSeg.Valid()
    }

    /** The machine state this object stands for, and how the exchange with the host went. */
    ghost function Now(): (v: View)
      requires Valid()
      reads this, regs, Memories()
      ensures v.m.Valid() && v.m.regs == regs[..] && v.m.pc == pc && v.m.reservation == reservationAddr
    {
      View(Machine(pc, regs[..], codeSeg.AsFlat(), dataSeg.AsFlat(), stackSeg.AsFlat(), reservationAddr),
           Host().asked,
           codeSeg.memory.breach.Some? || dataSeg.memory.breach.Some? || stackSeg.memory.breach.Some?,
           codeSeg.memory.failed || dataSeg.memory.failed || stackSeg.memory.failed)
    }

    /** `new` */
    constructor (entrypoint: u32, codeSeg: OutsourcedSegment, dataSeg: OutsourcedSegment, stackSeg: OutsourcedSegment)
      requires AreShared(codeSeg, dataSeg, stackSeg) && codeSeg.Valid() && dataSeg.Valid() && stackSeg.Valid()
      ensures Valid() && fresh(regs)
      ensures this.codeSeg == codeSeg && this.dataSeg == dataSeg && this.stackSeg == stackSeg
      ensures Now().m == Machine(entrypoint, seq(32, _ => 0), codeSeg.AsFlat(), dataSeg.AsFlat(), stackSeg.AsFlat(), None)
    {
      pc, reservationAddr := entrypoint, None;
      this.codeSeg, this.dataSeg, this.stackSeg := codeSeg, dataSeg, stackSeg;
      regs := new u32[32](_ => 0);
      new;
      assert regs[..] == seq(32, _ => 0);
    }

    // -------------------------------------------------------------------------------------
    // Accesses
    // -------------------------------------------------------------------------------------

    /** The segments as they were when this was asked. */
    ghost predicate ValidAt(asked: seq<Request>)
      reads Memories()
    {
      codeSeg.ValidAt(asked) && dataSeg.ValidAt(asked) && stackSeg.ValidAt(asked)
    }

    function SegmentOf(kind: SectionKind): OutsourcedSegment {
      match kind
      case CodeSection => codeSeg
      case DataSection => dataSeg
      case StackSection => stackSeg
    }

    /** The requests of a segment leave the others valid. */
    lemma OthersValid(kind: SectionKind, asked: seq<Request>)
      requires regs.Length == 32 && this !in Memories() && regs !in Memories() && AreShared(codeSeg, dataSeg, stackSeg)
      requires SegmentOf(kind).Valid()
      requires !kind.CodeSection? ==> codeSeg.ValidAt(asked)
      requires !kind.DataSection? ==> dataSeg.ValidAt(asked)
      requires !kind.StackSection? ==> stackSeg.ValidAt(asked)
      requires Host().Since(asked, {kind}, true)
      ensures Valid() && Now().failed == SegmentOf(kind).memory.failed && Host().Since(asked, SECTIONS, true)
    {
      if !kind.CodeSection? {
        codeSeg.StillValid(asked, {kind});
      }
      if !kind.DataSection? {
        dataSeg.StillValid(asked, {kind});
      }
      if !kind.StackSection? {
        stackSeg.StillValid(asked, {kind});
      }
    }

    /** A segment reads. */
    method ReadSegment(kind: SectionKind, address: u32, width: nat) returns (r: Result<u32, CpuError>)
      requires Valid() && !Now().failed && (width == 1 || width == 2 || width == 4)
      modifies Memories()
      ensures Valid() && (r.Ok? ==> r.value < Pow256(width))
      ensures Read(Host(), old(Now()), Now(), r, ReadFrom(Section(old(Now()).m, kind), address, width))
    {
      ghost var asked := Host().asked;
      assert ValidAt(asked);
      r := ReadOne(SegmentOf(kind), address, width);
      OthersValid(kind, asked);
    }

    /** `read_u8`, `read_u16` and `read_u32`, by width. */
    method ReadMemory(address: u32, width: nat) returns (r: Result<u32, CpuError>)
      requires Valid() && !Now().failed && (width == 1 || width == 2 || width == 4)
      modifies Memories()
      ensures Valid() && Read(Host(), old(Now()), Now(), r, RiscvMachine.Load(old(Now()).m, address, width))
    {
      var inStack, inData, inCode := Contains(stackSeg, address), Contains(dataSeg, address), Contains(codeSeg, address);
      LoadIs(Now().m, inStack, inData, inCode, address, width);
      if inStack {
        r := ReadSegment(StackSection, address, width);
      } else if inData {
        r := ReadSegment(DataSection, address, width);
      } else if inCode {
        r := ReadSegment(CodeSection, address, width);
      } else {
        r := Err(MemoryFault(AddressOutOfBounds));
      }
    }

    /** The data or the stack is written. */
    method WriteSegment(kind: SectionKind, address: u32, width: nat, value: nat) returns (fault: Option<MemoryError>)
      requires Valid() && !Now().failed && !kind.CodeSection?
      requires width == 1 || width == 2 || width == 4
      modifies Memories()
      ensures Valid() && Moved(Host(), old(Now()), Now())
      ensures Now().failed <==> fault.Some? && fault.value.GenericError?
      ensures !Now().broken && !Now().failed ==>
                var m := old(Now()).m;
                var (after, f) := Section(m, kind).Write(address, width, value);
                fault == f && Now().m == WithSection(m, kind, after)
    {
      ghost var asked := Host().asked;
      assert ValidAt(asked);
      fault := SegmentOf(kind).WriteWord(address, width, value);
      OthersValid(kind, asked);
    }

    /** `write_u8`, `write_u16` and `write_u32`, by width. */
    method WriteMemory(address: u32, width: nat, value: nat) returns (e: Option<CpuError>)
      requires Valid() && !Now().failed && (width == 1 || width == 2 || width == 4)
      modifies this`reservationAddr, Memories()
      ensures Valid() && Took(Host(), old(Now()), Now(), e, Store(old(Now()).m, address, width, value))
    {
      if Contains(stackSeg, address) {
        e := WriteTo(StackSection, address, width, value);
      } else if Contains(dataSeg, address) {
        e := WriteTo(DataSection, address, width, value);
      } else {
        e := Some(MemoryFault(AddressOutOfBounds));
      }
    }

    /** The write goes to the first segment that has the address. */
    method WriteTo(kind: SectionKind, address: u32, width: nat, value: nat) returns (e: Option<CpuError>)
      requires Valid() && !Now().failed && (width == 1 || width == 2 || width == 4)
      requires kind == if Contains(stackSeg, address) then StackSection else DataSection
      requires Contains(SegmentOf(kind), address)
      modifies this`reservationAddr, Memories()
      ensures Valid() && Took(Host(), old(Now()), Now(), e, Store(old(Now()).m, address, width, value))
    {
      ghost var v := Now();
      var fault := WriteSegment(kind, address, width, value);
      StoreEnds(Host(), v, Now(), kind, address, width, value, fault);
      if fault.Some? {
        return Some(MemoryFault(fault.value));
      }
      CancelReservation(address, width);
      e := None;
    }

    /** The end of a write. */
    method CancelReservation(address: u32, width: nat)
      requires Valid()
      modifies this`reservationAddr
      ensures Valid()
      ensures Now() == old(Now()).(m := old(Now()).m.(reservation := AfterStore(old(Now()).m.reservation, address, width)))
    {
      if reservationAddr.Some? {
        var res := reservationAddr.value;
        if SaturatingSub(address, res) < 4 && SaturatingSub(res, address) < width {
          reservationAddr := None;
        }
      }
    }

    /** `fetch_instruction` */
    method FetchInstruction() returns (r: Result<u32, CpuError>)
      requires Valid() && !Now().failed
      modifies Memories()
      ensures Valid() && Read(Host(), old(Now()), Now(), r, Fetch(old(Now()).m.code, old(Now()).m.pc))
    {
      ghost var v := Now();
      var at: u32 := pc;
      var last := Wrap(at + 3);
      var whole := at % 4 == 0 && Contains(codeSeg, last);
      FetchIs(v.m.code, at, last, whole);
      if whole {
        r := ReadSegment(CodeSection, at, 4);
      } else {
        r := FetchByHalves();
      }
    }

    /** The second path of `fetch_instruction`: the low half-word, and the high one if it is needed. */
    method FetchByHalves() returns (r: Result<u32, CpuError>)
      requires Valid() && !Now().failed
      modifies Memories()
      ensures Valid() && Read(Host(), old(Now()), Now(), r, FetchHalves(old(Now()).m.code, old(Now()).m.pc))
    {
      ghost var v := Now();
      var at: u32 := pc;
      var next := Wrap(at + 2);
      var lo := ReadSegment(CodeSection, at, 2);
      ghost var w := Now();
      if lo.Err? || lo.value % 4 != 3 {
        OneHalf(Host(), v, w, v.m.code, at, lo);
        return lo;
      }
      assert w.m.code == v.m.code;
      var hi := ReadSegment(CodeSection, next, 2);
      TwoHalves(Host(), v, w, Now(), v.m.code, at, next, lo, hi);
      r := Joined(lo.value, hi);
    }

    // -------------------------------------------------------------------------------------
    // `execute`
    // -------------------------------------------------------------------------------------

    method Assign(rd: Reg, value: u32)
      requires Valid()
      modifies regs
      ensures Valid() && Now() == old(Now()).(m := SetRegister(old(Now()).m, rd, value))
    {
      regs[Index(rd)] := value;
    }

    method Reserve(reservation: Option<u32>)
      requires Valid()
      modifies this`reservationAddr
      ensures Valid() && Now() == old(Now()).(m := old(Now()).m.(reservation := reservation))
    {
      reservationAddr := reservation;
    }

    method JumpTo(target: u32)
      requires Valid()
      modifies this`pc
      ensures Valid() && Now() == old(Now()).(m := old(Now()).m.(pc := target))
    {
      pc := target;
    }

    method ExecuteLoad(rd: Reg, address: u32, width: nat, signed: bool, size: int) returns (e: Option<CpuError>)
      requires Valid() && !Now().failed && (width == 1 || width == 2 || width == 4)
      modifies regs, Memories()
      ensures Valid()
      ensures Did(Host(), old(Now()), Now(), e, size,
                  RiscvMachine.ExecuteLoad(old(Now()).m, rd, address, width, signed, size))
    {
      if address % width != 0 {
        return Some(Generic(if width == 2 then "Unaligned 16-bit read" else "Unaligned 32-bit read"));
      }
      ghost var v := Now();
      var value := ReadMemory(address, width);
      LoadEnds(Host(), v, Now(), value, rd, address, width, signed, size);
      if value.Err? {
        return Some(value.error);
      }
      Assign(rd, Extended(value.value, width, signed));
      e := None;
    }

    method ExecuteStore(address: u32, width: nat, value: nat, size: int) returns (e: Option<CpuError>)
      requires Valid() && !Now().failed && (width == 1 || width == 2 || width == 4)
      modifies this`reservationAddr, Memories()
      ensures Valid()
      ensures Did(Host(), old(Now()), Now(), e, size,
                  RiscvMachine.ExecuteStore(old(Now()).m, address, width, value, size))
    {
      if address % width != 0 {
        return Some(Generic(if width == 2 then "Unaligned 16-bit write" else "Unaligned 32-bit write"));
      }
      e := WriteMemory(address, width, value);
    }

    method ExecuteLr(rd: Reg, address: u32, size: int) returns (e: Option<CpuError>)
      requires Valid() && !Now().failed
      modifies this`reservationAddr, regs, Memories()
      ensures Valid()
      ensures Did(Host(), old(Now()), Now(), e, size, RiscvMachine.ExecuteLr(old(Now()).m, rd, address, size))
    {
      if address % 4 != 0 {
        return Some(Generic("Unaligned LR.W address"));
      }
      ghost var v := Now();
      var value := ReadMemory(address, 4);
      LrEnds(Host(), v, Now(), value, rd, address, size);
      if value.Err? {
        return Some(value.error);
      }
      Assign(rd, value.value);
      Reserve(Some(address));
      e := None;
    }

    method ExecuteSc(rd: Reg, address: u32, value: u32, size: int) returns (e: Option<CpuError>)
      requires Valid() && !Now().failed
      modifies this`reservationAddr, regs, Memories()
      ensures Valid()
      ensures Did(Host(), old(Now()), Now(), e, size, RiscvMachine.ExecuteSc(old(Now()).m, rd, address, value, size))
    {
      if address % 4 != 0 {
        return Some(Generic("Unaligned SC.W address"));
      }
      if reservationAddr == Some(address) {
        e := StoreConditionally(rd, address, value, size);
      } else {
        Assign(rd, 1);
        Reserve(None);
        e := None;
      }
    }

    /** The reservation holds. */
    method StoreConditionally(rd: Reg, address: u32, value: u32, size: int) returns (e: Option<CpuError>)
      requires Valid() && !Now().failed && address % 4 == 0 && reservationAddr == Some(address)
      modifies this`reservationAddr, regs, Memories()
      ensures Valid()
      ensures Did(Host(), old(Now()), Now(), e, size, RiscvMachine.ExecuteSc(old(Now()).m, rd, address, value, size))
    {
      ghost var v := Now();
      e := WriteMemory(address, 4, value);
      ScEnds(Host(), v, Now(), e, rd, address, value, size);
      if e.None? {
        Assign(rd, 0);
        Reserve(None);
      }
    }

    method ExecuteAmo(kind: AmoKind, rd: Reg, address: u32, x: u32, size: int) returns (e: Option<CpuError>)
      requires Valid() && !Now().failed
      modifies this`reservationAddr, regs, Memories()
      ensures Valid()
      ensures Did(Host(), old(Now()), Now(), e, size, RiscvMachine.ExecuteAmo(old(Now()).m, kind, rd, address, x, size))
    {
      if address % 4 != 0 {
        return Some(Generic("Unaligned " + AmoName(kind) + " address"));
      }
      ghost var v := Now();
      var value := ReadMemory(address, 4);
      ghost var w := Now();
      if value.Err? {
        AmoEnds(Host(), v, w, w, kind, rd, address, x, size, value, None);
        return Some(value.error);
      }
      e := WriteCombined(kind, rd, address, x, size, value.value, v);
    }

    /** The second half of an AMO. */
    method WriteCombined(kind: AmoKind, rd: Reg, address: u32, x: u32, size: int, value: u32, ghost v: View)
      returns (e: Option<CpuError>)
      requires Valid() && !Now().failed && address % 4 == 0 && v.m.Valid()
      requires Read(Host(), v, Now(), Ok(value), RiscvMachine.Load(v.m, address, 4))
      modifies this`reservationAddr, regs, Memories()
      ensures Valid() && Did(Host(), v, Now(), e, size, RiscvMachine.ExecuteAmo(v.m, kind, rd, address, x, size))
    {
      ghost var w := Now();
      e := WriteMemory(address, 4, Combined(kind, value, x));
      AmoEnds(Host(), v, w, Now(), kind, rd, address, x, size, Ok(value), e);
      if e.None? {
        Assign(rd, value);
      }
    }

    method ExecuteAtomic(op: Op, size: int) returns (e: Option<CpuError>)
      requires Valid() && !Now().failed
      modifies this`reservationAddr, regs, Memories()
      ensures Valid() && Did(Host(), old(Now()), Now(), e, size, RiscvMachine.ExecuteAtomic(old(Now()).m, op, size))
    {
      AtomicIs(Now().m, op, size);
      if op.LrW? {
        e := ExecuteLr(op.rd, Get(regs[..], op.rs1), size);
      } else if op.ScW? {
        e := ExecuteSc(op.rd, Get(regs[..], op.rs1), Get(regs[..], op.rs2), size);
      } else if op.Amo? {
        e := ExecuteAmo(op.kind, op.rd, Get(regs[..], op.rs1), Get(regs[..], op.rs2), size);
      } else {
        e := Some(Generic("Unknown instruction"));
      }
    }

    method ExecuteMemory(op: Op, size: int) returns (e: Option<CpuError>)
      requires Valid() && !Now().failed
      modifies this`reservationAddr, regs, Memories()
      ensures Valid() && Did(Host(), old(Now()), Now(), e, size, RiscvMachine.ExecuteMemory(old(Now()).m, op, size))
    {
      MemoryIs(Now().m, op, size);
      if LoadOf(op).Some? {
        var (rd, rs1, imm, width, signed) := LoadOf(op).value;
        e := ExecuteLoad(rd, Address(regs[..], rs1, imm), width, signed, size);
      } else if StoreOf(op).Some? {
        var (rs1, rs2, imm, width) := StoreOf(op).value;
        e := ExecuteStore(Address(regs[..], rs1, imm), width, Truncated(Get(regs[..], rs2), width), size);
      } else {
        e := ExecuteAtomic(op, size);
      }
    }

    method ExecuteJal(rd: Reg, offset: u32, size: int) returns (increment: int)
      requires Valid() && !Now().failed
      modifies regs
      ensures Valid()
      ensures Did(Host(), old(Now()), Now(), None, increment, Ok(RiscvMachine.ExecuteJal(old(Now()).m, rd, offset, size)))
    {
      var at: u32 := pc;
      var link := Wrap(at + size);
      JalEnds(Host(), Now(), at, rd, link, offset, size);
      increment := offset;
      Assign(rd, link);
    }

    method ExecuteJalr(rd: Reg, target: u32, size: int) returns (increment: int)
      requires Valid() && !Now().failed
      modifies this`pc, regs
      ensures Valid()
      ensures Did(Host(), old(Now()), Now(), None, increment, Ok(RiscvMachine.ExecuteJalr(old(Now()).m, rd, target, size)))
    {
      var at: u32 := pc;
      var link := Wrap(at + size);
      JalrEnds(Host(), Now(), at, rd, link, target, size);
      Assign(rd, link);
      JumpTo(ClearLowBit(target));
      increment := 0;
    }

    method ExecuteSystem(op: Op, size: int) returns (e: Option<CpuError>)
      requires Valid() && !Now().failed
      modifies this`reservationAddr, regs, Memories()
      ensures Valid() && Did(Host(), old(Now()), Now(), e, size, RiscvMachine.ExecuteSystem(old(Now()).m, op, size))
    {
      SystemIs(Now().m, op, size);
      if op.Fence? {
        return None;
      }
      if Unsupported(op).Some? {
        return Some(Generic(Unsupported(op).value));
      }
      e := ExecuteMemory(op, size);
    }

    method ExecuteOther(op: Op, size: int) returns (e: Option<CpuError>, increment: int)
      requires Valid() && !Now().failed
      modifies this`pc, this`reservationAddr, regs, Memories()
      ensures Valid() && Did(Host(), old(Now()), Now(), e, increment, RiscvMachine.ExecuteOther(old(Now()).m, op, size))
    {
      e, increment := None, size;
      ghost var v := Now();
      OtherIs(v.m, op, size);
      if op.Jal? {
        increment := ExecuteJal(op.rd, Value(op.imm), size);
      } else if op.Jalr? {
        increment := ExecuteJalr(op.rd, Address(regs[..], op.rs1, op.imm), size);
      } else {
        e := ExecuteSystem(op, size);
      }
    }

    /** The match of `execute`: everything but the last two assignments. */
    method ExecuteOp(op: Op, size: int) returns (e: Option<CpuError>, increment: int)
      requires Valid() && !Now().failed
      modifies this`pc, this`reservationAddr, regs, Memories()
      ensures Valid() && Did(Host(), old(Now()), Now(), e, increment, RiscvMachine.Execute(old(Now()).m, op, size))
    {
      ghost var v := Now();
      var computed := OfRegisters(regs[..], op);
      if computed.None? {
        computed := OfImmediate(regs[..], pc, op);
      }
      var branch := Branch(regs[..], op);
      OpIs(Host(), v, op, size, computed, branch);
      if computed.Some? {
        Assign(computed.value.0, computed.value.1);
        return None, size;
      }
      if branch.Some? {
        return None, if branch.value.0 then Value(branch.value.1) else size;
      }
      e, increment := ExecuteOther(op, size);
    }

    /** The last two assignments of `execute`. */
    method Finish(increment: int)
      requires Valid()
      modifies this`pc, regs
      ensures Valid() && Now() == old(Now()).(m := Advance(old(Now()).m, increment))
    {
      var at: u32 := pc;
      var next := Wrap(at + increment);
      AdvanceIs(Now().m, at, next, increment);
      JumpTo(next);
      Assign(0, 0);
    }

    /** `execute`, without an ECALL handler. */
    method Execute(inst: u32) returns (e: Option<CpuError>)
      requires Valid() && !Now().failed
      modifies this`pc, this`reservationAddr, regs, Memories()
      ensures Valid() && Took(Host(), old(Now()), Now(), e, ExecuteWord(old(Now()).m, inst))
    {
      var (op, size) := Decode(Pattern(inst));
      var increment;
      e, increment := ExecuteOp(op, size);
      if e.None? {
        Finish(increment);
      }
    }

    /** One round of the run loop: fetch and execute. */
    method Step() returns (e: Option<CpuError>)
      requires Valid() && !Now().failed
      modifies this`pc, this`reservationAddr, regs, Memories()
      ensures Valid() && Took(Host(), old(Now()), Now(), e, RunStep(old(Now()).m))
    {
      ghost var v := Now();
      var inst := FetchInstruction();
      ghost var w := Now();
      match inst
      case Err(error) => e := Some(error);
      case Ok(word) =>
        e := Execute(word);
        StepEnds(Host(), v, w, Now(), word, e);
    }
  }

  /** `read_u8`, `read_u16` and `read_u32` of a segment, as the CPU has their results. */
  method ReadOne(segment: OutsourcedSegment, address: u32, width: nat) returns (r: Result<u32, CpuError>)
    requires segment.Valid() && !segment.memory.failed && (width == 1 || width == 2 || width == 4)
    modifies segment.memory, segment.memory.host, segment.memory.aesCtr, segment.memory.aesCtr.nonce
    ensures segment.Valid() && segment.memory.pages == old(segment.memory.pages)
    ensures segment.memory.Moved(old(segment.memory.host.asked), old(segment.memory.breach), true)
    ensures if r.Ok? then !segment.memory.failed && r.value < Pow256(width)
            else segment.memory.failed <==> IsHostError(r.error)
    ensures segment.memory.breach.None? && !segment.memory.failed ==> r == ReadFrom(segment.AsFlat(), address, width)
  {
    var value := segment.ReadWord(address, width);
    Pow256Widths();
    match value
    case Ok(v) => r := Ok(v);
    case Err(e) => r := Err(MemoryFault(e));
  }
}
