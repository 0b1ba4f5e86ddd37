/**
 The `Cpu` of common/src/vm.rs: registers, program counter, reservation and three paged memory segments,
 changed in place. Every method is proved to do what the machine of `RiscvMachine` does.
 */
module CpuModel {
  import opened MachineInts
  import opened FlatMemory
  import opened PagedMemory
  import opened RiscvDecode
  import opened Words
  import opened RiscvMachine

  /** What a method did: the new state when `spec` has one, otherwise its error and no change at all. */
  ghost predicate Outcome(before: Machine, after: Machine, e: Option<CpuError>, spec: Result<Machine, CpuError>) {
    match spec
    case Ok(m) => e.None? && after == m
    case Err(x) => e == Some(x) && after == before
  }

  /** No buffer belongs to both segments. */
  ghost predicate Apart(a: MemorySegment, b: MemorySegment) {
    && a != b
    && (forall i :: 0 <= i < |a.pages| ==> a.pages[i] !in b.pages)
    && (forall i :: 0 <= i < |b.pages| ==> b.pages[i] !in a.pages)
  }

  class Cpu {
    var pc: u32
    const regs: array<u32>
    const codeSeg: MemorySegment
    const dataSeg: MemorySegment
    const stackSeg: MemorySegment
    var reservationAddr: Option<u32>

    ghost predicate Valid()
      reads this, regs, codeSeg, codeSeg.pages, dataSeg, dataSeg.pages, stackSeg, stackSeg.pages
    {
      && regs.Length == 32
      && codeSeg.Valid() && dataSeg.Valid() && stackSeg.Valid()
      && Apart(codeSeg, dataSeg) && Apart(codeSeg, stackSeg) && Apart(dataSeg, stackSeg)
    }

    /** The machine state this object holds. */
    ghost function State(): (m: Machine)
      requires Valid()
      reads this, regs, codeSeg, codeSeg.pages, dataSeg, dataSeg.pages, stackSeg, stackSeg.pages
      ensures m.Valid() && m.regs == regs[..]
    {
      Machine(pc, regs[..], codeSeg.AsFlat(), dataSeg.AsFlat(), stackSeg.AsFlat(), reservationAddr)
    }

    /** `new` */
    constructor (entrypoint: u32, codeSeg: MemorySegment, dataSeg: MemorySegment, stackSeg: MemorySegment)
      requires codeSeg.Valid() && dataSeg.Valid() && stackSeg.Valid()
      requires Apart(codeSeg, dataSeg) && Apart(codeSeg, stackSeg) && Apart(dataSeg, stackSeg)
      ensures Valid() && fresh(regs)
      ensures this.codeSeg == codeSeg && this.dataSeg == dataSeg && this.stackSeg == stackSeg
      ensures State() == Machine(entrypoint, seq(32, _ => 0), codeSeg.AsFlat(), dataSeg.AsFlat(), stackSeg.AsFlat(), None)
    {
      pc, reservationAddr := entrypoint, None;
      this.codeSeg, this.dataSeg, this.stackSeg := codeSeg, dataSeg, stackSeg;
      regs := new u32[32](_ => 0);
    }

    /** `read_u8`, `read_u16` and `read_u32`, by width. */
    method ReadMemory(address: u32, width: nat) returns (r: Result<u32, CpuError>)
      requires Valid() && (width == 1 || width == 2 || width == 4)
      ensures r == Load(State(), address, width)
    {
      if stackSeg.Contains(address) {
        r := ReadSegment(stackSeg, address, width);
      } else if dataSeg.Contains(address) {
        r := ReadSegment(dataSeg, address, width);
      } else if codeSeg.Contains(address) {
        r := ReadSegment(codeSeg, address, width);
      } else {
        r := Err(MemoryFault(AddressOutOfBounds));
      }
    }

    static method ReadSegment(segment: MemorySegment, address: u32, width: nat) returns (r: Result<u32, CpuError>)
      requires segment.Valid() && (width == 1 || width == 2 || width == 4)
      ensures r == ReadFrom(segment.AsFlat(), address, width)
    {
      ghost var spec := ReadFrom(segment.AsFlat(), address, width);
      var value;
      if width == 1 {
        value := segment.ReadU8(address);
      } else if width == 2 {
        value := segment.ReadU16(address);
      } else {
        value := segment.ReadU32(address);
      }
      match value
      case Ok(v) => r := Ok(v);
      case Err(e) => r := Err(MemoryFault(e));
    }

    static method WriteSegment(segment: MemorySegment, address: u32, width: nat, value: nat)
      returns (e: Option<MemoryError>)
      requires segment.Valid() && (width == 1 || width == 2 || width == 4) && value < Pow256(width)
      modifies segment`contents, segment.pages
      ensures segment.Valid() && (segment.AsFlat(), e) == old(segment.AsFlat()).Write(address, width, value)
    {
      Pow256Widths();
      if width == 1 {
        e := segment.WriteU8(address, value);
      } else if width == 2 {
        e := segment.WriteU16(address, value);
      } else {
        e := segment.WriteU32(address, value);
      }
    }

    /** `write_u8`, `write_u16` and `write_u32`, by width. */
    method WriteMemory(address: u32, width: nat, value: nat) returns (e: Option<CpuError>)
      requires Valid() && (width == 1 || width == 2 || width == 4) && value < Pow256(width)
      modifies this`reservationAddr
      modifies stackSeg`contents, stackSeg.pages, dataSeg`contents, dataSeg.pages
      ensures Valid() && Outcome(old(State()), State(), e, Store(old(State()), address, width, value))
    {
      var fault;
      if stackSeg.Contains(address) {
        fault := WriteStack(address, width, value);
      } else if dataSeg.Contains(address) {
        fault := WriteData(address, width, value);
      } else {
        return Some(MemoryFault(AddressOutOfBounds));
      }
      if fault.Some? {
        return Some(MemoryFault(fault.value));
      }
      if reservationAddr.Some? {
        var res := reservationAddr.value;
        if SaturatingSub(address, res) < 4 && SaturatingSub(res, address) < width {
          reservationAddr := None;
        }
      }
      e := None;
    }

    method WriteStack(address: u32, width: nat, value: nat) returns (fault: Option<MemoryError>)
      requires Valid() && (width == 1 || width == 2 || width == 4) && value < Pow256(width)
      modifies stackSeg`contents, stackSeg.pages
      ensures Valid() && fault == old(State()).stack.Write(address, width, value).1
      ensures State() == old(State()).(stack := old(State()).stack.Write(address, width, value).0)
    {
      fault := WriteSegment(stackSeg, address, width, value);
      assert codeSeg.PagesOk() && codeSeg.AsFlat() == old(codeSeg.AsFlat());
      assert dataSeg.PagesOk() && dataSeg.AsFlat() == old(dataSeg.AsFlat());
    }

    method WriteData(address: u32, width: nat, value: nat) returns (fault: Option<MemoryError>)
      requires Valid() && (width == 1 || width == 2 || width == 4) && value < Pow256(width)
      modifies dataSeg`contents, dataSeg.pages
      ensures Valid() && fault == old(State()).data.Write(address, width, value).1
      ensures State() == old(State()).(data := old(State()).data.Write(address, width, value).0)
    {
      fault := WriteSegment(dataSeg, address, width, value);
      assert codeSeg.PagesOk() && codeSeg.AsFlat() == old(codeSeg.AsFlat());
      assert stackSeg.PagesOk() && stackSeg.AsFlat() == old(stackSeg.AsFlat());
    }

    /** `fetch_instruction` */
    method FetchInstruction() returns (r: Result<u32, CpuError>)
      requires Valid()
      ensures r == Fetch(codeSeg.AsFlat(), pc)
    {
      if pc % 4 == 0 && codeSeg.Contains(Wrap(pc + 3)) {
        r := ReadSegment(codeSeg, pc, 4);
      } else {
        r := FetchByHalves();
      }
    }

    /** The second path of `fetch_instruction`: the low half-word, and the high one if it is needed. */
    method FetchByHalves() returns (r: Result<u32, CpuError>)
      requires Valid()
      ensures r == FetchHalves(codeSeg.AsFlat(), pc)
    {
      Pow256Widths();
      var lo := ReadSegment(codeSeg, pc, 2);
      if lo.Err? {
        return lo;
      }
      if lo.value % 4 != 3 {
        return lo;
      }
      var hi := ReadSegment(codeSeg, Wrap(pc + 2), 2);
      r := if hi.Err? then hi else Ok(hi.value * TWO_16 + lo.value);
    }

    // -------------------------------------------------------------------------------------
    // `execute`
    // -------------------------------------------------------------------------------------

    /**
     What the instruction has done before the program counter moves on by `increment` and register zero
     is cleared.
     */
    static ghost predicate Done(before: Machine, after: Machine, e: Option<CpuError>, increment: int,
                                spec: Result<Machine, CpuError>)
      requires after.Valid()
    {
      match spec
      case Ok(m) => e.None? && m == Advance(after, increment)
      case Err(x) => e == Some(x) && after == before
    }

    method Assign(rd: Reg, value: u32)
      requires Valid()
      modifies regs
      ensures Valid() && State() == SetRegister(old(State()), rd, value)
    {
      regs[Index(rd)] := value;
    }

    method ExecuteLoad(rd: Reg, address: u32, width: nat, signed: bool, size: int) returns (e: Option<CpuError>)
      requires Valid() && (width == 1 || width == 2 || width == 4)
      modifies regs
      ensures Valid()
      ensures Done(old(State()), State(), e, size,
                   RiscvMachine.ExecuteLoad(old(State()), rd, address, width, signed, size))
    {
      if address % width != 0 {
        return Some(Generic(if width == 2 then "Unaligned 16-bit read" else "Unaligned 32-bit read"));
      }
      var value := ReadMemory(address, width);
      if value.Err? {
        return Some(value.error);
      }
      Assign(rd, Extended(value.value, width, signed));
      e := None;
    }

    method ExecuteStore(address: u32, width: nat, value: nat, size: int) returns (e: Option<CpuError>)
      requires Valid() && (width == 1 || width == 2 || width == 4) && value < Pow256(width)
      modifies this`reservationAddr
      modifies stackSeg`contents, stackSeg.pages, dataSeg`contents, dataSeg.pages
      ensures Valid()
      ensures Done(old(State()), State(), e, size, RiscvMachine.ExecuteStore(old(State()), address, width, value, size))
    {
      if address % width != 0 {
        return Some(Generic(if width == 2 then "Unaligned 16-bit write" else "Unaligned 32-bit write"));
      }
      e := WriteMemory(address, width, value);
    }

    method ExecuteLr(rd: Reg, address: u32, size: int) returns (e: Option<CpuError>)
      requires Valid()
      modifies this`reservationAddr, regs
      ensures Valid() && Done(old(State()), State(), e, size, RiscvMachine.ExecuteLr(old(State()), rd, address, size))
    {
      if address % 4 != 0 {
        return Some(Generic("Unaligned LR.W address"));
      }
      var value := ReadMemory(address, 4);
      if value.Err? {
        return Some(value.error);
      }
      Assign(rd, value.value);
      reservationAddr := Some(address);
      e := None;
    }

    method ExecuteSc(rd: Reg, address: u32, value: u32, size: int) returns (e: Option<CpuError>)
      requires Valid()
      modifies this`reservationAddr, regs
      modifies stackSeg`contents, stackSeg.pages, dataSeg`contents, dataSeg.pages
      ensures Valid()
      ensures Done(old(State()), State(), e, size, RiscvMachine.ExecuteSc(old(State()), rd, address, value, size))
    {
      if address % 4 != 0 {
        return Some(Generic("Unaligned SC.W address"));
      }
      if reservationAddr == Some(address) {
        Pow256Widths();
        var fault := WriteMemory(address, 4, value);
        if fault.Some? {
          return fault;
        }
        Assign(rd, 0);
      } else {
        Assign(rd, 1);
      }
      reservationAddr := None;
      e := None;
    }

    method ExecuteAmo(kind: AmoKind, rd: Reg, address: u32, x: u32, size: int) returns (e: Option<CpuError>)
      requires Valid()
      modifies this`reservationAddr, regs
      modifies stackSeg`contents, stackSeg.pages, dataSeg`contents, dataSeg.pages
      ensures Valid()
      ensures Done(old(State()), State(), e, size, RiscvMachine.ExecuteAmo(old(State()), kind, rd, address, x, size))
    {
      if address % 4 != 0 {
        return Some(Generic("Unaligned " + AmoName(kind) + " address"));
      }
      var value := ReadMemory(address, 4);
      if value.Err? {
        return Some(value.error);
      }
      Pow256Widths();
      var fault := WriteMemory(address, 4, Combined(kind, value.value, x));
      if fault.Some? {
        return fault;
      }
      Assign(rd, value.value);
      e := None;
    }

    method ExecuteAtomic(op: Op, size: int) returns (e: Option<CpuError>)
      requires Valid()
      modifies this`reservationAddr, regs
      modifies stackSeg`contents, stackSeg.pages, dataSeg`contents, dataSeg.pages
      ensures Valid() && Done(old(State()), State(), e, size, RiscvMachine.ExecuteAtomic(old(State()), op, size))
    {
      if op.LrW? {
        e := ExecuteLr(op.rd, Get(regs[..], op.rs1), size);
      } else if op.ScW? {
        e := ExecuteSc(op.rd, Get(regs[..], op.rs1), Get(regs[..], op.rs2), size);
      } else if op.Amo? {
        e := ExecuteAmo(op.kind, op.rd, Get(regs[..], op.rs1), Get(regs[..], op.rs2), size);
      } else {
        e := Some(Generic("Unknown instruction"));
      }
    }

    method ExecuteMemory(op: Op, size: int) returns (e: Option<CpuError>)
      requires Valid()
      modifies this`reservationAddr, regs
      modifies stackSeg`contents, stackSeg.pages, dataSeg`contents, dataSeg.pages
      ensures Valid() && Done(old(State()), State(), e, size, RiscvMachine.ExecuteMemory(old(State()), op, size))
    {
      if LoadOf(op).Some? {
        e := ExecuteLoadOf(op, size);
      } else if StoreOf(op).Some? {
        e := ExecuteStoreOf(op, size);
      } else {
        e := ExecuteAtomic(op, size);
      }
    }

    method ExecuteLoadOf(op: Op, size: int) returns (e: Option<CpuError>)
      requires Valid() && LoadOf(op).Some?
      modifies regs
      ensures Valid() && Done(old(State()), State(), e, size, RiscvMachine.ExecuteMemory(old(State()), op, size))
    {
      var (rd, rs1, imm, width, signed) := LoadOf(op).value;
      e := ExecuteLoad(rd, Address(regs[..], rs1, imm), width, signed, size);
    }

    method ExecuteStoreOf(op: Op, size: int) returns (e: Option<CpuError>)
      requires Valid() && LoadOf(op).None? && StoreOf(op).Some?
      modifies this`reservationAddr
      modifies stackSeg`contents, stackSeg.pages, dataSeg`contents, dataSeg.pages
      ensures Valid() && Done(old(State()), State(), e, size, RiscvMachine.ExecuteMemory(old(State()), op, size))
    {
      var (rs1, rs2, imm, width) := StoreOf(op).value;
      Pow256Widths();
      e := ExecuteStore(Address(regs[..], rs1, imm), width, Truncated(Get(regs[..], rs2), width), size);
    }

    method JumpTo(target: u32)
      requires Valid()
      modifies this`pc
      ensures Valid() && State() == old(State()).(pc := target)
    {
      pc := target;
    }

    method ExecuteJal(rd: Reg, offset: u32, size: int) returns (increment: int)
      requires Valid()
      modifies regs
      ensures Valid() && Advance(State(), increment) == RiscvMachine.ExecuteJal(old(State()), rd, offset, size)
    {
      increment := offset;
      Assign(rd, Wrap(pc + size));
    }

    method ExecuteJalr(rd: Reg, target: u32, size: int) returns (increment: int)
      requires Valid()
      modifies this`pc, regs
      ensures Valid() && Advance(State(), increment) == RiscvMachine.ExecuteJalr(old(State()), rd, target, size)
    {
      Assign(rd, Wrap(pc + size));
      JumpTo(ClearLowBit(target));
      increment := 0;
    }

    method ExecuteSystem(op: Op, size: int) returns (e: Option<CpuError>)
      requires Valid()
      modifies this`reservationAddr, regs
      modifies stackSeg`contents, stackSeg.pages, dataSeg`contents, dataSeg.pages
      ensures Valid() && Done(old(State()), State(), e, size, RiscvMachine.ExecuteSystem(old(State()), op, size))
    {
      if op.Fence? {
        return None;
      }
      if Unsupported(op).Some? {
        return Some(Generic(Unsupported(op).value));
      }
      e := ExecuteMemory(op, size);
    }

    method ExecuteOther(op: Op, size: int) returns (e: Option<CpuError>, increment: int)
      requires Valid()
      modifies this`pc, this`reservationAddr, regs
      modifies stackSeg`contents, stackSeg.pages, dataSeg`contents, dataSeg.pages
      ensures Valid() && Done(old(State()), State(), e, increment, RiscvMachine.ExecuteOther(old(State()), op, size))
    {
      e, increment := None, size;
      if op.Jal? {
        increment := ExecuteJal(op.rd, Value(op.imm), size);
      } else if op.Jalr? {
        increment := ExecuteJalr(op.rd, Address(regs[..], op.rs1, op.imm), size);
      } else {
        e := ExecuteSystem(op, size);
      }
    }

    /** The match of `execute`: everything but the last two assignments. */
    method ExecuteOp(op: Op, size: int) returns (e: Option<CpuError>, increment: int)
      requires Valid()
      modifies this`pc, this`reservationAddr, regs
      modifies stackSeg`contents, stackSeg.pages, dataSeg`contents, dataSeg.pages
      ensures Valid() && Done(old(State()), State(), e, increment, RiscvMachine.Execute(old(State()), op, size))
    {
      var computed := OfRegisters(regs[..], op);
      if computed.None? {
        computed := OfImmediate(regs[..], pc, op);
      }
      assert computed == Computed(State(), op);
      if computed.Some? {
        Assign(computed.value.0, computed.value.1);
        return None, size;
      }
      var branch := Branch(regs[..], op);
      if branch.Some? {
        return None, if branch.value.0 then Value(branch.value.1) else size;
      }
      e, increment := ExecuteOther(op, size);
    }

    /** The last two assignments of `execute`. */
    method Finish(increment: int)
      requires Valid()
      modifies this`pc, regs
      ensures Valid() && State() == Advance(old(State()), increment)
    {
      pc := Wrap(pc + increment);
      regs[0] := 0;
    }

    /** `execute`, without an ECALL handler. */
    method Execute(inst: u32) returns (e: Option<CpuError>)
      requires Valid()
      modifies this`pc, this`reservationAddr, regs
      modifies stackSeg`contents, stackSeg.pages, dataSeg`contents, dataSeg.pages
      ensures Valid()
      ensures Outcome(old(State()), State(), e, ExecuteWord(old(State()), inst))
    {
      var (op, size) := Decode(Pattern(inst));
      var increment;
      e, increment := ExecuteOp(op, size);
      if e.None? {
        Finish(increment);
      }
    }

    /** One round of the run loop: fetch and execute. */
    method Step() returns (e: Option<CpuError>)
      requires Valid()
      modifies this`pc, this`reservationAddr, regs
      modifies stackSeg`contents, stackSeg.pages, dataSeg`contents, dataSeg.pages
      ensures Valid() && Outcome(old(State()), State(), e, RunStep(old(State())))
    {
      var inst := FetchInstruction();
      match inst
      case Err(error) => e := Some(error);
      case Ok(word) => e := Execute(word);
    }
  }
}
