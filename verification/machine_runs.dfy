/** What every run of the machine keeps, and which instruction it sees where. */
module MachineRuns {
  import opened MachineInts
  import opened FlatMemory
  import opened RiscvDecode
  import opened Words
  import opened RiscvMachine
  import opened RvcExpansion

  // ---------------------------------------------------------------------------------------
  // The program counter stays even
  // ---------------------------------------------------------------------------------------

  /** Offsets of jumps and branches are even. */
  predicate JumpsEvenly(op: Op) {
    && (op.Jal? ==> op.imm & 1 == 0)
    && (op.Beq? || op.Bne? || op.Blt? || op.Bge? || op.Bltu? || op.Bgeu? ==> op.imm & 1 == 0)
  }

  lemma EvenImmediates(inst: bv32)
    ensures BImm(inst) & 1 == 0 && JImm(inst) & 1 == 0 && CbImm(inst) & 1 == 0 && CjImm(inst) & 1 == 0
  {
  }

  lemma EvenQuadrant1(w: bv32)
    ensures JumpsEvenly(DecodeQuadrant1(w))
  {
    EvenImmediates(w);
    assert JumpsEvenly(DecodeArithmetic(w));
  }

  lemma EvenQuadrants(w: bv32)
    ensures JumpsEvenly(DecodeQuadrant0(w)) && JumpsEvenly(DecodeQuadrant2(w))
  {
  }

  lemma EvenLoad(inst: bv32)
    ensures JumpsEvenly(DecodeLoad(inst))
  {
  }

  lemma EvenImmediate(inst: bv32)
    ensures JumpsEvenly(DecodeImmediate(inst))
  {
  }

  lemma EvenRegister(inst: bv32)
    ensures JumpsEvenly(DecodeRegister(inst))
  {
  }

  lemma EvenAtomic(inst: bv32)
    ensures JumpsEvenly(DecodeAtomic(inst))
  {
  }

  lemma EvenBranch(inst: bv32)
    ensures JumpsEvenly(DecodeBranch(inst))
  {
    EvenImmediates(inst);
  }

  lemma EvenUncompressed(inst: bv32)
    ensures JumpsEvenly(DecodeUncompressed(inst))
  {
    EvenImmediates(inst);
    EvenBranch(inst);
    EvenLoad(inst);
    EvenImmediate(inst);
    EvenRegister(inst);
    EvenAtomic(inst);
  }

  lemma DecodedJumpsEvenly(inst: bv32)
    ensures JumpsEvenly(Decode(inst).0) && (Decode(inst).1 == 2 || Decode(inst).1 == 4)
  {
    EvenUncompressed(inst);
    var w := Narrow(inst) as bv32;
    EvenQuadrant1(w);
    EvenQuadrants(w);
  }

  lemma EvenSum(a: u32, b: int)
    requires a % 2 == 0 && b % 2 == 0
    ensures Wrap(a + b) % 2 == 0
  {
  }

  /** The same code, and memory of the same extent. */
  ghost predicate SameLayout(before: Machine, after: Machine) {
    && after.code == before.code
    && after.data.start == before.data.start && after.data.size == before.data.size
    && after.stack.start == before.stack.start && after.stack.size == before.stack.size
    && |after.data.bytes| == |before.data.bytes| && |after.stack.bytes| == |before.stack.bytes|
  }

  /** What no instruction breaks: an even program counter, zero in register zero, the code, the extent of memory. */
  ghost predicate Kept(before: Machine, after: Machine) {
    after.pc % 2 == 0 && |after.regs| == 32 && after.regs[0] == 0 && SameLayout(before, after)
  }

  lemma RetireKeeps(before: Machine, m: Machine, rd: Reg, value: u32, increment: int)
    requires m.Valid() && m.pc % 2 == 0 && increment % 2 == 0 && SameLayout(before, m)
    ensures Kept(before, Retire(m, rd, value, increment)) && Kept(before, Advance(m, increment))
  {
    EvenSum(m.pc, increment);
  }

  lemma StoreKeeps(m: Machine, address: u32, width: nat, value: nat)
    requires m.Valid() && (width == 1 || width == 2 || width == 4) && Store(m, address, width, value).Ok?
    ensures SameLayout(m, Store(m, address, width, value).value)
  {
  }

  lemma LoadInstructionKeeps(m: Machine, rd: Reg, address: u32, width: nat, signed: bool, size: int)
    requires m.Valid() && m.pc % 2 == 0 && size % 2 == 0 && (width == 1 || width == 2 || width == 4)
    requires ExecuteLoad(m, rd, address, width, signed, size).Ok?
    ensures Kept(m, ExecuteLoad(m, rd, address, width, signed, size).value)
  {
    RetireKeeps(m, m, rd, Extended(Load(m, address, width).value, width, signed), size);
  }

  lemma StoreInstructionKeeps(m: Machine, address: u32, width: nat, value: nat, size: int)
    requires m.Valid() && m.pc % 2 == 0 && size % 2 == 0 && (width == 1 || width == 2 || width == 4)
    requires ExecuteStore(m, address, width, value, size).Ok?
    ensures Kept(m, ExecuteStore(m, address, width, value, size).value)
  {
    StoreKeeps(m, address, width, value);
    RetireKeeps(m, Store(m, address, width, value).value, 0, 0, size);
  }

  lemma LrKeeps(m: Machine, rd: Reg, address: u32, size: int)
    requires m.Valid() && m.pc % 2 == 0 && size % 2 == 0 && ExecuteLr(m, rd, address, size).Ok?
    ensures Kept(m, ExecuteLr(m, rd, address, size).value)
  {
    RetireKeeps(m, m, rd, Load(m, address, 4).value, size);
  }

  lemma ScKeeps(m: Machine, rd: Reg, address: u32, value: u32, size: int)
    requires m.Valid() && m.pc % 2 == 0 && size % 2 == 0 && ExecuteSc(m, rd, address, value, size).Ok?
    ensures Kept(m, ExecuteSc(m, rd, address, value, size).value)
  {
    if m.reservation == Some(address) {
      StoreKeeps(m, address, 4, value);
      RetireKeeps(m, Store(m, address, 4, value).value, rd, 0, size);
    } else {
      RetireKeeps(m, m, rd, 1, size);
    }
  }

  lemma AmoKeeps(m: Machine, kind: AmoKind, rd: Reg, address: u32, x: u32, size: int)
    requires m.Valid() && m.pc % 2 == 0 && size % 2 == 0 && ExecuteAmo(m, kind, rd, address, x, size).Ok?
    ensures Kept(m, ExecuteAmo(m, kind, rd, address, x, size).value)
  {
    var value := Load(m, address, 4).value;
    StoreKeeps(m, address, 4, Combined(kind, value, x));
    RetireKeeps(m, Store(m, address, 4, Combined(kind, value, x)).value, rd, value, size);
  }

  lemma MemoryAccessKeeps(m: Machine, op: Op, size: int)
    requires m.Valid() && m.pc % 2 == 0 && size % 2 == 0
    requires ExecuteMemory(m, op, size).Ok?
    ensures Kept(m, ExecuteMemory(m, op, size).value)
  {
    if LoadOf(op).Some? {
      var (rd, rs1, imm, width, signed) := LoadOf(op).value;
      LoadInstructionKeeps(m, rd, Address(m.regs, rs1, imm), width, signed, size);
    } else if StoreOf(op).Some? {
      var (rs1, rs2, imm, width) := StoreOf(op).value;
      StoreInstructionKeeps(m, Address(m.regs, rs1, imm), width, Truncated(Get(m.regs, rs2), width), size);
    } else if op.LrW? {
      LrKeeps(m, op.rd, Get(m.regs, op.rs1), size);
    } else if op.ScW? {
      ScKeeps(m, op.rd, Get(m.regs, op.rs1), Get(m.regs, op.rs2), size);
    } else {
      AmoKeeps(m, op.kind, op.rd, Get(m.regs, op.rs1), Get(m.regs, op.rs2), size);
    }
  }

  lemma ComputedKeeps(m: Machine, op: Op, size: int)
    requires m.Valid() && m.pc % 2 == 0 && size % 2 == 0 && Computed(m, op).Some?
    ensures Kept(m, Execute(m, op, size).value)
  {
    RetireKeeps(m, m, Computed(m, op).value.0, Computed(m, op).value.1, size);
  }

  lemma BranchKeeps(m: Machine, op: Op, size: int)
    requires m.Valid() && m.pc % 2 == 0 && size % 2 == 0 && JumpsEvenly(op)
    requires Computed(m, op).None? && Branch(m.regs, op).Some?
    ensures Kept(m, Execute(m, op, size).value)
  {
    var (taken, offset) := Branch(m.regs, op).value;
    assert offset & 1 == 0;
    ValueParity(offset);
    RetireKeeps(m, m, 0, 0, if taken then Value(offset) else size);
  }

  lemma JalKeeps(m: Machine, rd: Reg, offset: u32, size: int)
    requires m.Valid() && m.pc % 2 == 0 && offset % 2 == 0
    ensures Kept(m, ExecuteJal(m, rd, offset, size))
  {
    RetireKeeps(m, m, rd, Wrap(m.pc + size), offset);
  }

  lemma JalrKeeps(m: Machine, rd: Reg, target: u32, size: int)
    requires m.Valid()
    ensures Kept(m, ExecuteJalr(m, rd, target, size))
  {
    RetireKeeps(m, m.(pc := ClearLowBit(target)), rd, Wrap(m.pc + size), 0);
  }

  lemma SystemKeeps(m: Machine, op: Op, size: int)
    requires m.Valid() && m.pc % 2 == 0 && size % 2 == 0
    requires ExecuteSystem(m, op, size).Ok?
    ensures Kept(m, ExecuteSystem(m, op, size).value)
  {
    if op.Fence? {
      RetireKeeps(m, m, 0, 0, size);
    } else {
      MemoryAccessKeeps(m, op, size);
    }
  }

  lemma OtherKeeps(m: Machine, op: Op, size: int)
    requires m.Valid() && m.pc % 2 == 0 && size % 2 == 0 && JumpsEvenly(op)
    requires ExecuteOther(m, op, size).Ok?
    ensures Kept(m, ExecuteOther(m, op, size).value)
  {
    if op.Jal? {
      ValueParity(op.imm);
      JalKeeps(m, op.rd, Value(op.imm), size);
    } else if op.Jalr? {
      JalrKeeps(m, op.rd, Address(m.regs, op.rs1, op.imm), size);
    } else {
      SystemKeeps(m, op, size);
    }
  }

  lemma ExecuteKeeps(m: Machine, op: Op, size: int)
    requires m.Valid() && m.pc % 2 == 0 && size % 2 == 0 && JumpsEvenly(op)
    requires Execute(m, op, size).Ok?
    ensures Kept(m, Execute(m, op, size).value)
  {
    if Computed(m, op).Some? {
      ComputedKeeps(m, op, size);
    } else if Branch(m.regs, op).Some? {
      BranchKeeps(m, op, size);
    } else {
      OtherKeeps(m, op, size);
    }
  }

  // ---------------------------------------------------------------------------------------
  // The two ways to fetch agree
  // ---------------------------------------------------------------------------------------

  /** The instruction that the half-words at `pc` encode, and its length. */
  function InstructionAt(code: Flat, pc: u32): Result<(Op, int), CpuError>
    requires code.Valid()
  {
    match FetchHalves(code, pc)
    case Ok(inst) => Ok(Decode(Pattern(inst)))
    case Err(e) => Err(e)
  }

  lemma SmallPatterns()
    ensures Pattern(0) == 0 && Pattern(1) == 1 && Pattern(2) == 2 && Pattern(3) == 3
  {
    BitsOfZero(32);
    BitsOfZero(31);
    BitsOfZero(30);
    assert Bits(1, 31) == 1;
    assert Bits(0, 31) == 0;
  }

  lemma LowBitsTell(n: u32)
    ensures Pattern(n) & 3 == 3 <==> n % 4 == 3
  {
    PatternLowest(n);
    SmallPatterns();
    assert n % 4 == 0 || n % 4 == 1 || n % 4 == 2 || n % 4 == 3;
  }

  lemma NarrowUsesLowHalf(x: bv32, y: bv32)
    requires x & 0xffff == y & 0xffff
    ensures Narrow(x) == Narrow(y)
  {
  }

  lemma DecodeUsesLowHalf(n: u32, lo: u32)
    requires Pattern(n) & 3 != 3 && Pattern(lo) & 3 != 3 && Pattern(n) & 0xffff == Pattern(lo) & 0xffff
    ensures Decode(Pattern(n)) == Decode(Pattern(lo))
  {
    NarrowUsesLowHalf(Pattern(n), Pattern(lo));
  }

  lemma SameLowHalf(n: u32, lo: u32)
    requires lo == n % TWO_16
    ensures Pattern(n) & 0xffff == Pattern(lo) & 0xffff
  {
    Remainder(lo, 0, TWO_16, lo);
    PatternLow(n, lo);
    PatternLow(lo, lo);
    Through(Pattern(n) & 0xffff, Pattern(lo), Pattern(lo) & 0xffff);
  }

  lemma Through(x: bv32, y: bv32, z: bv32)
    requires x == y && z == y
    ensures x == z
  {
  }

  lemma SameLowBits(n: u32, lo: u32)
    requires lo == n % TWO_16
    ensures n % 4 == lo % 4
  {
    assert n == 4 * (n / TWO_16 * 16384) + lo;
  }

  lemma CompressedPatterns(n: u32, lo: u32)
    requires lo == n % TWO_16 && lo % 4 != 3
    ensures Pattern(n) & 3 != 3 && Pattern(lo) & 3 != 3
  {
    SameLowBits(n, lo);
    LowBitsTell(n);
    LowBitsTell(lo);
  }

  /** The upper half does not matter to a compressed instruction. */
  lemma DecodeIgnoresUpperHalf(n: u32, lo: u32)
    requires lo == n % TWO_16 && lo % 4 != 3
    ensures Decode(Pattern(n)) == Decode(Pattern(lo))
  {
    SameLowHalf(n, lo);
    CompressedPatterns(n, lo);
    DecodeUsesLowHalf(n, lo);
  }

  lemma HalvesOf(lo: u32, hi: u32)
    requires lo < TWO_16 && hi < TWO_16
    ensures hi * TWO_16 + lo < TWO_32
    ensures (hi * TWO_16 + lo) % TWO_16 == lo
  {
    Remainder(hi * TWO_16 + lo, hi, TWO_16, lo);
  }

  lemma EvenHalves(pc: u32)
    requires pc % 4 == 0
    ensures pc % 2 == 0 && (pc + 2) % 2 == 0
  {
    assert pc == 2 * (pc / 4 * 2);
  }

  /** A word in memory is its two half-words. */
  lemma WordIsHalves(code: Flat, pc: u32)
    requires code.Valid() && code.Refusal(pc, 4).None?
    ensures pc + 2 < TWO_32 && code.Refusal(pc, 2).None? && code.Refusal(pc + 2, 2).None?
    ensures code.Read(pc, 4).value == code.Read(pc + 2, 2).value * TWO_16 + code.Read(pc, 2).value
  {
    code.AllowedInside(pc, 4);
    EvenHalves(pc);
    WordSplits(code.bytes, pc - code.Base());
  }

  lemma WordSplits(s: bytes, o: nat)
    requires o + 4 <= |s|
    ensures FromLE(s[o..o + 4]) == FromLE(s[o + 2..o + 4]) * TWO_16 + FromLE(s[o..o + 2])
  {
    LE4(s[o..o + 4]);
    LE2(s[o..o + 2]);
    LE2(s[o + 2..o + 4]);
  }

  /** The half-words of a word that can be read. */
  lemma HalvesRead(code: Flat, pc: u32)
    requires code.Valid() && code.Refusal(pc, 4).None?
    ensures pc + 2 < TWO_32 && ReadFrom(code, pc, 4).Ok? && ReadFrom(code, pc, 2).Ok? && ReadFrom(code, pc + 2, 2).Ok?
    ensures var (word, lo, hi) := (ReadFrom(code, pc, 4).value, ReadFrom(code, pc, 2).value, ReadFrom(code, pc + 2, 2).value);
            lo < TWO_16 && word == hi * TWO_16 + lo && word % TWO_16 == lo
  {
    WordIsHalves(code, pc);
    Pow256Widths();
    HalvesOf(ReadFrom(code, pc, 2).value, ReadFrom(code, pc + 2, 2).value);
  }

  lemma WordSeesInstruction(code: Flat, pc: u32)
    requires code.Valid() && code.Refusal(pc, 4).None?
    ensures FetchWord(code, pc).Ok? && InstructionAt(code, pc) == Ok(Decode(Pattern(FetchWord(code, pc).value)))
  {
    HalvesRead(code, pc);
    HalvesMakeInstruction(code, pc, FetchWord(code, pc).value, ReadFrom(code, pc, 2).value);
  }

  lemma HalvesMakeInstruction(code: Flat, pc: u32, word: u32, lo: u32)
    requires code.Valid() && ReadFrom(code, pc, 2) == Ok(lo) && lo < TWO_16 && word % TWO_16 == lo
    requires lo % 4 == 3 ==> FetchHalves(code, pc) == Ok(word)
    ensures InstructionAt(code, pc) == Ok(Decode(Pattern(word)))
  {
    if lo % 4 != 3 {
      DecodeIgnoresUpperHalf(word, lo);
    }
  }

  lemma HalvesAreAligned(code: Flat, pc: u32)
    requires code.Valid() && pc % 2 == 0
    ensures FetchHalves(code, pc) != Err(MemoryFault(UnalignedAddress))
  {
    EvenSum(pc, 2);
  }

  lemma NoWordAt(pc: u32)
    requires pc % 4 == 0
    ensures pc % 2 == 0 && Wrap(pc + 3) == pc + 3
  {
    var q := pc / 4;
    assert pc == 4 * q && q < TWO_32 / 4;
    assert pc == 2 * (2 * q);
    assert pc + 3 < TWO_32;
  }

  lemma BothRefused(code: Flat, pc: u32)
    requires code.Valid() && pc % 4 == 0 && code.Contains(Wrap(pc + 3)) && code.Refusal(pc, 4).Some?
    ensures FetchHalves(code, pc) == FetchWord(code, pc)
  {
    NoWordAt(pc);
    assert code.Refusal(pc, 2) == code.Refusal(pc, 4);
  }

  /** The aligned word path sees the instruction that the half-word path sees, or fails as it does. */
  lemma FetchSeesInstruction(code: Flat, pc: u32)
    requires code.Valid() && pc % 2 == 0
    ensures match Fetch(code, pc)
            case Ok(inst) => InstructionAt(code, pc) == Ok(Decode(Pattern(inst)))
            case Err(e) => InstructionAt(code, pc) == Err(e) && e != MemoryFault(UnalignedAddress)
  {
    HalvesAreAligned(code, pc);
    if pc % 4 == 0 && code.Contains(Wrap(pc + 3)) {
      if code.Refusal(pc, 4).None? {
        WordSeesInstruction(code, pc);
      } else {
        BothRefused(code, pc);
      }
    }
  }

  // ---------------------------------------------------------------------------------------
  // Runs
  // ---------------------------------------------------------------------------------------

  /**
   Where a run may start: after the loader, which sets the stack pointer and asserts an even entry
   point, or after an ECALL, with any registers and any reservation.
   */
  ghost predicate Started(m: Machine) {
    m.Valid() && m.pc % 2 == 0 && m.regs[0] == 0
  }

  /** Any sequence whose neighbours are related. */
  ghost predicate Linked(run: seq<Machine>, next: (Machine, Machine) -> bool) {
    forall i :: 0 < i < |run| ==> next(run[i - 1], run[i])
  }

  /** Whatever holds at the start and is kept by every link holds everywhere. */
  lemma {:induction false} HoldsAlong(run: seq<Machine>, next: (Machine, Machine) -> bool, inv: Machine -> bool, k: nat)
    requires Linked(run, next) && k < |run| && inv(run[0])
    requires forall a, b :: inv(a) && next(a, b) ==> inv(b)
    ensures inv(run[k])
  {
    if k > 0 {
      HoldsAlong(run, next, inv, k - 1);
      assert next(run[k - 1], run[k]);
    }
  }

  /** One step leads from a state to the next. */
  ghost predicate Next(m: Machine, next: Machine) {
    m.Valid() && RunStep(m) == Ok(next)
  }

  /** The states of a run that meets no ECALL and no error. */
  ghost predicate IsRun(run: seq<Machine>) {
    |run| > 0 && Started(run[0]) && Linked(run, (m, next) => Next(m, next))
  }

  lemma StepKeeps(m: Machine, next: Machine)
    requires m.pc % 2 == 0 && Next(m, next)
    ensures Kept(m, next) && next.Valid()
  {
    var inst := Pattern(Fetch(m.code, m.pc).value);
    DecodedJumpsEvenly(inst);
    ExecuteKeeps(m, Decode(inst).0, Decode(inst).1);
  }

  /** The states that a run from `m` can reach. */
  ghost predicate Reachable(m: Machine, later: Machine) {
    later.Valid() && Kept(m, later)
  }

  lemma StepReaches(m: Machine, before: Machine, after: Machine)
    requires Reachable(m, before) && Next(before, after)
    ensures Reachable(m, after)
  {
    StepKeeps(before, after);
  }

  /** In every run the program counter stays even, register zero reads zero, and the code never changes. */
  lemma RunKeeps(run: seq<Machine>, k: nat)
    requires IsRun(run) && k < |run|
    ensures Reachable(run[0], run[k])
  {
    var m := run[0];
    forall before, after | Reachable(m, before) && Next(before, after)
      ensures Reachable(m, after)
    {
      StepReaches(m, before, after);
    }
    HoldsAlong(run, (b, a) => Next(b, a), later => Reachable(m, later), k);
  }

  lemma RunIsValid(run: seq<Machine>)
    requires IsRun(run)
    ensures forall i :: 0 <= i < |run| ==> run[i].Valid()
  {
    forall i | 0 <= i < |run| ensures run[i].Valid() {
      RunKeeps(run, i);
    }
  }

  /**
   At every visit of an address in a run the machine executes the instruction that the initial code has
   there, whichever path fetches it; fetching never fails for misalignment.
   */
  lemma CodeIsFixed(run: seq<Machine>, k: nat)
    requires IsRun(run) && k < |run|
    ensures run[k].Valid()
    ensures match InstructionAt(run[0].code, run[k].pc)
            case Ok((op, size)) => RunStep(run[k]) == Execute(run[k], op, size)
            case Err(e) => RunStep(run[k]) == Err(e) && e != MemoryFault(UnalignedAddress)
  {
    RunKeeps(run, k);
    FetchSeesInstruction(run[k].code, run[k].pc);
  }

  // ---------------------------------------------------------------------------------------
  // Compressed instructions mean their expansions
  // ---------------------------------------------------------------------------------------

  lemma MaskedShift(x: bv32)
    ensures (x & 31) & 0x1f == x & 0x1f
  {
  }

  lemma ShiftsAreImmediate(regs: seq<u32>, rd: Reg, rs1: Reg, imm: bv32)
    requires |regs| == 32
    ensures OfRegisters(regs, Srai(rd, rs1, imm)) == None && OfRegisters(regs, Slli(rd, rs1, imm)) == None
  {
  }

  lemma ComputedMasked(m: Machine, rd: Reg, rs1: Reg, imm: bv32)
    requires |m.regs| == 32
    ensures Computed(m, Srai(rd, rs1, imm)).Some?
    ensures Computed(m, Srai(rd, rs1, imm & 31)) == Computed(m, Srai(rd, rs1, imm))
  {
    MaskedShift(imm);
    ShiftsAreImmediate(m.regs, rd, rs1, imm);
    ShiftsAreImmediate(m.regs, rd, rs1, imm & 31);
  }

  lemma ExecuteMaskedShift(m: Machine, rd: Reg, rs1: Reg, imm: bv32, size: int)
    requires m.Valid()
    ensures Execute(m, Srai(rd, rs1, imm & 31), size) == Execute(m, Srai(rd, rs1, imm), size)
  {
    ComputedMasked(m, rd, rs1, imm);
  }

  lemma ExecuteMasked(m: Machine, op: Op, size: int)
    requires m.Valid()
    ensures Execute(m, Masked(op), size) == Execute(m, op, size)
  {
    if op.Srai? {
      ExecuteMaskedShift(m, op.rd, op.rs1, op.imm, size);
    }
  }

  lemma UnknownFails(m: Machine)
    requires m.Valid()
    ensures Execute(m, Unknown, 2) == Err(Generic("Unknown instruction"))
  {
  }

  lemma ComputedShift(m: Machine, shamt: bv32)
    requires |m.regs| == 32
    ensures Computed(m, Slli(0, 0, shamt)).Some? && Computed(m, Slli(0, 0, shamt)).value.0 == 0
  {
    ShiftsAreImmediate(m.regs, 0, 0, shamt);
  }

  lemma RetireZero(m: Machine, value: u32, increment: int)
    requires m.Valid()
    ensures Retire(m, 0, value, increment) == Advance(m, increment)
  {
    assert m.regs[0 := value][0 := 0] == m.regs[0 := 0];
  }

  lemma NoEffect(m: Machine, shamt: bv32)
    requires m.Valid()
    ensures Execute(m, Slli(0, 0, shamt), 2) == Ok(Advance(m, 2))
  {
    ComputedShift(m, shamt);
    RetireZero(m, Computed(m, Slli(0, 0, shamt)).value.1, 2);
  }

  /**
   Section 16.8 of the RISC-V Unprivileged ISA 20191213: a legal 16-bit instruction has on every machine
   the effect of its 32-bit expansion with length two, exactly when it is not the hint C.SLLI x0. The
   expansion of the hint does nothing, but the machine stops at the hint itself.
   */
  lemma CompressedMeansExpansion(inst: bv16, m: Machine)
    requires m.Valid() && Legal(inst as bv32)
    ensures Execute(m, DecodeCompressed(inst), 2) == Execute(m, DecodeUncompressed(Expand(inst as bv32)), 2)
            <==> !IsShiftHint(inst as bv32)
    ensures IsShiftHint(inst as bv32) ==>
              && Execute(m, DecodeCompressed(inst), 2) == Err(Generic("Unknown instruction"))
              && Execute(m, DecodeUncompressed(Expand(inst as bv32)), 2) == Ok(Advance(m, 2))
  {
    CompressedDecodesAsExpansion(inst);
    if IsShiftHint(inst as bv32) {
      UnknownFails(m);
      NoEffect(m, Shamt(inst as bv32));
    } else {
      ExecuteMasked(m, DecodeCompressed(inst), 2);
      ExecuteMasked(m, DecodeUncompressed(Expand(inst as bv32)), 2);
    }
  }
}
