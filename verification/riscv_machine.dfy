/**
 The RV32IMAC machine of common/src/vm.rs as a state machine over values: what fetching and executing
 one instruction does to registers, program counter, memory and reservation.
 */
module RiscvMachine {
  import opened MachineInts
  import opened FlatMemory
  import opened RiscvDecode
  import opened Words

  datatype CpuError = MemoryFault(error: MemoryError) | Generic(message: string)

  datatype Machine = Machine(pc: u32, regs: seq<u32>, code: Flat, data: Flat, stack: Flat, reservation: Option<u32>) {
    ghost predicate Valid() {
      |regs| == 32 && code.Valid() && data.Valid() && stack.Valid()
    }
  }

  // ---------------------------------------------------------------------------------------
  // Arithmetic on 32-bit words
  // ---------------------------------------------------------------------------------------

  function Wrap(x: int): u32 {
    x % TWO_32
  }

  /** `as i32`. */
  function Signed(x: u32): (v: int)
    ensures -TWO_32 / 2 <= v < TWO_32 / 2 && Wrap(v) == x
  {
    if x < TWO_32 / 2 then x else x - TWO_32
  }

  function FromBool(b: bool): u32 {
    if b then 1 else 0
  }

  function BitAnd(x: u32, y: u32): u32 {
    Value(Pattern(x) & Pattern(y))
  }

  function BitOr(x: u32, y: u32): u32 {
    Value(Pattern(x) | Pattern(y))
  }

  function BitXor(x: u32, y: u32): u32 {
    Value(Pattern(x) ^ Pattern(y))
  }

  function ShiftLeft(x: u32, amount: nat): u32 {
    Wrap(x * Pow2(amount))
  }

  function ShiftRight(x: u32, amount: nat): u32 {
    var p: int := Pow2(amount);
    Wrap(x / p)
  }

  /** Rounds towards minus infinity, as `>>` on an `i32` does. */
  function ShiftRightSigned(x: u32, amount: nat): u32 {
    var p: int := Pow2(amount);
    Wrap(Signed(x) / p)
  }

  /** The quotient rounded towards zero. */
  function Quotient(a: int, b: int): int
    requires b != 0
  {
    if a >= 0 then a / b else -(-a / b)
  }

  function DivSigned(a: u32, b: u32): u32 {
    if b == 0 then TWO_32 - 1 else Wrap(Quotient(Signed(a), Signed(b)))
  }

  function RemSigned(a: u32, b: u32): u32 {
    if b == 0 then a else Wrap(Signed(a) - Signed(b) * Quotient(Signed(a), Signed(b)))
  }

  function DivUnsigned(a: u32, b: u32): u32 {
    if b == 0 then TWO_32 - 1 else Wrap(a as int / b)
  }

  function RemUnsigned(a: u32, b: u32): u32 {
    if b == 0 then a else a % b
  }

  /** The upper half of a product of 64 bits. */
  function Upper(product: int): u32 {
    Wrap(product / TWO_32)
  }

  function Multiply(a: u32, b: u32): u32 {
    Wrap(a as int * b as int)
  }

  function MultiplyHigh(a: u32, b: u32): u32 {
    Upper(Signed(a) * Signed(b))
  }

  function MultiplyHighSignedUnsigned(a: u32, b: u32): u32 {
    Upper(Signed(a) * b)
  }

  function MultiplyHighUnsigned(a: u32, b: u32): u32 {
    Upper(a as int * b as int)
  }

  // ---------------------------------------------------------------------------------------
  // Registers and memory
  // ---------------------------------------------------------------------------------------

  function Index(r: Reg): (i: nat)
    ensures i < 32 && (i == 0 <==> r == 0)
  {
    r as int
  }

  function Get(regs: seq<u32>, r: Reg): u32
    requires |regs| == 32
  {
    regs[Index(r)]
  }

  function ReadFrom(segment: Flat, address: u32, width: nat): (r: Result<u32, CpuError>)
    requires segment.Valid() && (width == 1 || width == 2 || width == 4)
    ensures r.Ok? ==> r.value < Pow256(width) && segment.Read(address, width) == Ok(r.value)
    ensures r.Err? ==> r.error.MemoryFault? && segment.Read(address, width) == Err(r.error.error)
  {
    match segment.Read(address, width)
    case Ok(value) =>
      segment.AllowedInside(address, width);
      LittleEndianFits(segment.bytes[address - segment.Base()..address - segment.Base() + width]);
      Pow256Widths();
      Ok(value)
    case Err(e) => Err(MemoryFault(e))
  }

  /** Reads look into the stack, then the data, then the code. */
  function Load(m: Machine, address: u32, width: nat): (r: Result<u32, CpuError>)
    requires m.Valid() && (width == 1 || width == 2 || width == 4)
    ensures r.Ok? ==> r.value < Pow256(width)
  {
    if m.stack.Contains(address) then ReadFrom(m.stack, address, width)
    else if m.data.Contains(address) then ReadFrom(m.data, address, width)
    else if m.code.Contains(address) then ReadFrom(m.code, address, width)
    else Err(MemoryFault(AddressOutOfBounds))
  }

  function SaturatingSub(a: int, b: int): int {
    if a >= b then a - b else 0
  }

  /** A store to the reserved word cancels the reservation. */
  function AfterStore(reservation: Option<u32>, address: u32, width: nat): Option<u32> {
    match reservation
    case Some(r) => if SaturatingSub(address, r) < 4 && SaturatingSub(r, address) < width then None else reservation
    case None => None
  }

  /** Writes go to the stack or to the data, never to the code. */
  function Store(m: Machine, address: u32, width: nat, value: nat): (r: Result<Machine, CpuError>)
    requires m.Valid() && (width == 1 || width == 2 || width == 4)
    ensures r.Ok? ==> r.value.Valid() && r.value == m.(stack := r.value.stack, data := r.value.data,
                                                       reservation := r.value.reservation)
  {
    if m.stack.Contains(address) then
      var (stack, e) := m.stack.Write(address, width, value);
      if e.Some? then Err(MemoryFault(e.value))
      else Ok(m.(stack := stack, reservation := AfterStore(m.reservation, address, width)))
    else if m.data.Contains(address) then
      var (data, e) := m.data.Write(address, width, value);
      if e.Some? then Err(MemoryFault(e.value))
      else Ok(m.(data := data, reservation := AfterStore(m.reservation, address, width)))
    else Err(MemoryFault(AddressOutOfBounds))
  }

  // ---------------------------------------------------------------------------------------
  // Fetching
  // ---------------------------------------------------------------------------------------

  /** Four bytes at once. */
  function FetchWord(code: Flat, pc: u32): Result<u32, CpuError>
    requires code.Valid()
  {
    ReadFrom(code, pc, 4)
  }

  /** Each half separately; the second one only if the first one needs it. */
  function FetchHalves(code: Flat, pc: u32): Result<u32, CpuError>
    requires code.Valid()
  {
    Pow256Widths();
    match ReadFrom(code, pc, 2)
    case Err(e) => Err(e)
    case Ok(lo) =>
      if lo % 4 != 3 then Ok(lo)
      else match ReadFrom(code, Wrap(pc + 2), 2)
        case Err(e) => Err(e)
        case Ok(hi) => Ok(hi * TWO_16 + lo)
  }

  /** `fetch_instruction`. */
  function Fetch(code: Flat, pc: u32): Result<u32, CpuError>
    requires code.Valid()
  {
    if pc % 4 == 0 && code.Contains(Wrap(pc + 3)) then FetchWord(code, pc) else FetchHalves(code, pc)
  }

  // ---------------------------------------------------------------------------------------
  // Executing
  // ---------------------------------------------------------------------------------------

  /** The register and the value that an instruction on two registers assigns. */
  function OfRegisters(regs: seq<u32>, op: Op): Option<(Reg, u32)>
    requires |regs| == 32
  {
    match op
    case Add(rd, rs1, rs2) => Some((rd, Wrap(Get(regs, rs1) as int + Get(regs, rs2))))
    case Sub(rd, rs1, rs2) => Some((rd, Wrap(Get(regs, rs1) as int - Get(regs, rs2))))
    case Sll(rd, rs1, rs2) => Some((rd, ShiftLeft(Get(regs, rs1), Get(regs, rs2) % 32)))
    case Slt(rd, rs1, rs2) => Some((rd, FromBool(Signed(Get(regs, rs1)) < Signed(Get(regs, rs2)))))
    case Sltu(rd, rs1, rs2) => Some((rd, FromBool(Get(regs, rs1) < Get(regs, rs2))))
    case Xor(rd, rs1, rs2) => Some((rd, BitXor(Get(regs, rs1), Get(regs, rs2))))
    case Srl(rd, rs1, rs2) => Some((rd, ShiftRight(Get(regs, rs1), Get(regs, rs2) % 32)))
    case Sra(rd, rs1, rs2) => Some((rd, ShiftRightSigned(Get(regs, rs1), Get(regs, rs2) % 32)))
    case Or(rd, rs1, rs2) => Some((rd, BitOr(Get(regs, rs1), Get(regs, rs2))))
    case And(rd, rs1, rs2) => Some((rd, BitAnd(Get(regs, rs1), Get(regs, rs2))))
    case Mul(rd, rs1, rs2) => Some((rd, Multiply(Get(regs, rs1), Get(regs, rs2))))
    case Mulh(rd, rs1, rs2) => Some((rd, MultiplyHigh(Get(regs, rs1), Get(regs, rs2))))
    case Mulhsu(rd, rs1, rs2) => Some((rd, MultiplyHighSignedUnsigned(Get(regs, rs1), Get(regs, rs2))))
    case Mulhu(rd, rs1, rs2) => Some((rd, MultiplyHighUnsigned(Get(regs, rs1), Get(regs, rs2))))
    case Div(rd, rs1, rs2) => Some((rd, DivSigned(Get(regs, rs1), Get(regs, rs2))))
    case Divu(rd, rs1, rs2) => Some((rd, DivUnsigned(Get(regs, rs1), Get(regs, rs2))))
    case Rem(rd, rs1, rs2) => Some((rd, RemSigned(Get(regs, rs1), Get(regs, rs2))))
    case Remu(rd, rs1, rs2) => Some((rd, RemUnsigned(Get(regs, rs1), Get(regs, rs2))))
    case _ => None
  }

  /** The register and the value that an instruction with an immediate operand assigns. */
  function OfImmediate(regs: seq<u32>, pc: u32, op: Op): Option<(Reg, u32)>
    requires |regs| == 32
  {
    match op
    case Addi(rd, rs1, imm) => Some((rd, Wrap(Get(regs, rs1) as int + Value(imm))))
    case Andi(rd, rs1, imm) => Some((rd, BitAnd(Get(regs, rs1), Value(imm))))
    case Ori(rd, rs1, imm) => Some((rd, BitOr(Get(regs, rs1), Value(imm))))
    case Xori(rd, rs1, imm) => Some((rd, BitXor(Get(regs, rs1), Value(imm))))
    case Slti(rd, rs1, imm) => Some((rd, FromBool(Signed(Get(regs, rs1)) < Signed(Value(imm)))))
    case Sltiu(rd, rs1, imm) => Some((rd, FromBool(Get(regs, rs1) < Value(imm))))
    case Slli(rd, rs1, imm) => Some((rd, ShiftLeft(Get(regs, rs1), Value(imm & 0x1f))))
    case Srli(rd, rs1, imm) => Some((rd, ShiftRight(Get(regs, rs1), Value(imm & 0x1f))))
    case Srai(rd, rs1, imm) => Some((rd, ShiftRightSigned(Get(regs, rs1), Value(imm & 0x1f))))
    case Lui(rd, imm) => Some((rd, Value(imm)))
    case Auipc(rd, imm) => Some((rd, Wrap(pc as int + Value(imm))))
    case _ => None
  }

  /** The register and the value that an instruction without memory access or jump assigns. */
  function Computed(m: Machine, op: Op): Option<(Reg, u32)>
    requires |m.regs| == 32
  {
    var r := OfRegisters(m.regs, op);
    if r.Some? then r else OfImmediate(m.regs, m.pc, op)
  }

  /** Whether a conditional branch jumps, and by how much. */
  function Branch(regs: seq<u32>, op: Op): Option<(bool, bv32)>
    requires |regs| == 32
  {
    match op
    case Beq(rs1, rs2, imm) => Some((Get(regs, rs1) == Get(regs, rs2), imm))
    case Bne(rs1, rs2, imm) => Some((Get(regs, rs1) != Get(regs, rs2), imm))
    case Blt(rs1, rs2, imm) => Some((Signed(Get(regs, rs1)) < Signed(Get(regs, rs2)), imm))
    case Bge(rs1, rs2, imm) => Some((Signed(Get(regs, rs1)) >= Signed(Get(regs, rs2)), imm))
    case Bltu(rs1, rs2, imm) => Some((Get(regs, rs1) < Get(regs, rs2), imm))
    case Bgeu(rs1, rs2, imm) => Some((Get(regs, rs1) >= Get(regs, rs2), imm))
    case _ => None
  }

  /** What an `Amo*W` stores. */
  function Combined(kind: AmoKind, old_: u32, x: u32): u32 {
    match kind
    case Swap => x
    case AddTo => Wrap(old_ + x)
    case XorTo => BitXor(old_, x)
    case AndTo => BitAnd(old_, x)
    case OrTo => BitOr(old_, x)
    case MinOf => if Signed(x) < Signed(old_) then x else old_
    case MaxOf => if Signed(x) > Signed(old_) then x else old_
    case MinuOf => if x < old_ then x else old_
    case MaxuOf => if x > old_ then x else old_
  }

  function SetRegister(m: Machine, rd: Reg, value: u32): (r: Machine)
    requires m.Valid()
    ensures r.Valid()
  {
    m.(regs := m.regs[Index(rd) := value])
  }

  /** Moves the program counter on, and clears register zero. */
  function Advance(m: Machine, increment: int): (r: Machine)
    requires m.Valid()
    ensures r.Valid()
  {
    m.(pc := Wrap(m.pc + increment), regs := m.regs[0 := 0])
  }

  /** Sets a register and moves on. */
  function Retire(m: Machine, rd: Reg, value: u32, increment: int): (r: Machine)
    requires m.Valid()
    ensures r.Valid()
  {
    Advance(SetRegister(m, rd, value), increment)
  }

  /** The value of `width` bytes as a register holds it. */
  function Extended(value: u32, width: nat, signed: bool): u32 {
    if signed && width == 1 && value >= TWO_8 / 2 then Wrap(value - TWO_8)
    else if signed && width == 2 && value >= TWO_16 / 2 then Wrap(value - TWO_16)
    else value
  }

  function ExecuteLoad(m: Machine, rd: Reg, address: u32, width: nat, signed: bool, size: int)
    : (r: Result<Machine, CpuError>)
    requires m.Valid() && (width == 1 || width == 2 || width == 4)
    ensures r.Ok? ==> r.value.Valid()
  {
    if address % width != 0 then Err(Generic(if width == 2 then "Unaligned 16-bit read" else "Unaligned 32-bit read"))
    else match Load(m, address, width)
      case Err(e) => Err(e)
      case Ok(value) => Ok(Retire(m, rd, Extended(value, width, signed), size))
  }

  function ExecuteStore(m: Machine, address: u32, width: nat, value: nat, size: int): (r: Result<Machine, CpuError>)
    requires m.Valid() && (width == 1 || width == 2 || width == 4)
    ensures r.Ok? ==> r.value.Valid()
  {
    if address % width != 0 then Err(Generic(if width == 2 then "Unaligned 16-bit write" else "Unaligned 32-bit write"))
    else match Store(m, address, width, value)
      case Err(e) => Err(e)
      case Ok(stored) => Ok(Advance(stored, size))
  }

  function ExecuteLr(m: Machine, rd: Reg, address: u32, size: int): (r: Result<Machine, CpuError>)
    requires m.Valid()
    ensures r.Ok? ==> r.value.Valid()
  {
    if address % 4 != 0 then Err(Generic("Unaligned LR.W address"))
    else match Load(m, address, 4)
      case Err(e) => Err(e)
      case Ok(value) => Ok(Advance(SetRegister(m, rd, value).(reservation := Some(address)), size))
  }

  function ExecuteSc(m: Machine, rd: Reg, address: u32, value: u32, size: int): (r: Result<Machine, CpuError>)
    requires m.Valid()
    ensures r.Ok? ==> r.value.Valid()
  {
    if address % 4 != 0 then Err(Generic("Unaligned SC.W address"))
    else if m.reservation == Some(address) then
      match Store(m, address, 4, value)
      case Err(e) => Err(e)
      case Ok(stored) => Ok(Advance(SetRegister(stored, rd, 0).(reservation := None), size))
    else Ok(Advance(SetRegister(m, rd, 1).(reservation := None), size))
  }

  function AmoName(kind: AmoKind): string {
    match kind
    case Swap => "AMOSWAP.W"
    case AddTo => "AMOADD.W"
    case XorTo => "AMOXOR.W"
    case AndTo => "AMOAND.W"
    case OrTo => "AMOOR.W"
    case MinOf => "AMOMIN.W"
    case MaxOf => "AMOMAX.W"
    case MinuOf => "AMOMINU.W"
    case MaxuOf => "AMOMAXU.W"
  }

  function ExecuteAmo(m: Machine, kind: AmoKind, rd: Reg, address: u32, x: u32, size: int)
    : (r: Result<Machine, CpuError>)
    requires m.Valid()
    ensures r.Ok? ==> r.value.Valid()
  {
    if address % 4 != 0 then Err(Generic("Unaligned " + AmoName(kind) + " address"))
    else match Load(m, address, 4)
      case Err(e) => Err(e)
      case Ok(value) =>
        match Store(m, address, 4, Combined(kind, value, x))
        case Err(e) => Err(e)
        case Ok(stored) => Ok(Retire(stored, rd, value, size))
  }

  /** The address that a base register and an offset give. */
  function Address(regs: seq<u32>, rs1: Reg, imm: bv32): u32
    requires |regs| == 32
  {
    Wrap(Get(regs, rs1) as int + Value(imm))
  }

  /** `& !1` */
  function ClearLowBit(x: u32): (y: u32)
    ensures y % 2 == 0 && y <= x <= y + 1
  {
    if x % 2 == 0 then x else x - 1
  }

  /** A load: destination, base, offset, width, and whether the value is extended with its sign. */
  function LoadOf(op: Op): (r: Option<(Reg, Reg, bv32, nat, bool)>)
    ensures r.Some? ==> r.value.3 == 1 || r.value.3 == 2 || r.value.3 == 4
  {
    match op
    case Lb(rd, rs1, imm) => Some((rd, rs1, imm, 1, true))
    case Lh(rd, rs1, imm) => Some((rd, rs1, imm, 2, true))
    case Lw(rd, rs1, imm) => Some((rd, rs1, imm, 4, true))
    case Lbu(rd, rs1, imm) => Some((rd, rs1, imm, 1, false))
    case Lhu(rd, rs1, imm) => Some((rd, rs1, imm, 2, false))
    case _ => None
  }

  /** A store: base, source, offset, width. */
  function StoreOf(op: Op): (r: Option<(Reg, Reg, bv32, nat)>)
    ensures r.Some? ==> r.value.3 == 1 || r.value.3 == 2 || r.value.3 == 4
  {
    match op
    case Sb(rs1, rs2, imm) => Some((rs1, rs2, imm, 1))
    case Sh(rs1, rs2, imm) => Some((rs1, rs2, imm, 2))
    case Sw(rs1, rs2, imm) => Some((rs1, rs2, imm, 4))
    case _ => None
  }

  /** `as u8` and `as u16`; a word is stored whole. */
  function Truncated(value: u32, width: nat): u32 {
    if width == 1 then value % TWO_8 else if width == 2 then value % TWO_16 else value
  }

  /** The instructions that access memory. */
  function ExecuteMemory(m: Machine, op: Op, size: int): (r: Result<Machine, CpuError>)
    requires m.Valid()
    ensures r.Ok? ==> r.value.Valid()
  {
    match LoadOf(op)
    case Some((rd, rs1, imm, width, signed)) => ExecuteLoad(m, rd, Address(m.regs, rs1, imm), width, signed, size)
    case None =>
      match StoreOf(op)
      case Some((rs1, rs2, imm, width)) =>
        ExecuteStore(m, Address(m.regs, rs1, imm), width, Truncated(Get(m.regs, rs2), width), size)
      case None => ExecuteAtomic(m, op, size)
  }

  function ExecuteAtomic(m: Machine, op: Op, size: int): (r: Result<Machine, CpuError>)
    requires m.Valid()
    ensures r.Ok? ==> r.value.Valid()
  {
    if op.LrW? then ExecuteLr(m, op.rd, Get(m.regs, op.rs1), size)
    else if op.ScW? then ExecuteSc(m, op.rd, Get(m.regs, op.rs1), Get(m.regs, op.rs2), size)
    else if op.Amo? then ExecuteAmo(m, op.kind, op.rd, Get(m.regs, op.rs1), Get(m.regs, op.rs2), size)
    else Err(Generic("Unknown instruction"))
  }

  /** The error of an instruction that always fails. */
  function Unsupported(op: Op): Option<string> {
    if op.Ecall? then Some("No ECALL handler")
    else if op.Break? then Some("BREAK instruction is not supported")
    else if op.Unknown? then Some("Unknown instruction")
    else None
  }

  /** The instructions that do nothing or fail, and those that access memory. */
  function ExecuteSystem(m: Machine, op: Op, size: int): (r: Result<Machine, CpuError>)
    requires m.Valid()
    ensures r.Ok? ==> r.value.Valid()
  {
    if op.Fence? then Ok(Advance(m, size))
    else if Unsupported(op).Some? then Err(Generic(Unsupported(op).value))
    else ExecuteMemory(m, op, size)
  }

  function ExecuteJal(m: Machine, rd: Reg, offset: u32, size: int): (r: Machine)
    requires m.Valid()
    ensures r.Valid()
  {
    Advance(SetRegister(m, rd, Wrap(m.pc + size)), offset)
  }

  function ExecuteJalr(m: Machine, rd: Reg, target: u32, size: int): (r: Machine)
    requires m.Valid()
    ensures r.Valid()
  {
    Advance(SetRegister(m, rd, Wrap(m.pc + size)).(pc := ClearLowBit(target)), 0)
  }

  /** The instructions that always jump, and the rest. */
  function ExecuteOther(m: Machine, op: Op, size: int): (r: Result<Machine, CpuError>)
    requires m.Valid()
    ensures r.Ok? ==> r.value.Valid()
  {
    if op.Jal? then Ok(ExecuteJal(m, op.rd, Value(op.imm), size))
    else if op.Jalr? then Ok(ExecuteJalr(m, op.rd, Address(m.regs, op.rs1, op.imm), size))
    else ExecuteSystem(m, op, size)
  }

  /** `execute` without an ECALL handler, for a decoded instruction of `size` bytes. */
  function Execute(m: Machine, op: Op, size: int): (r: Result<Machine, CpuError>)
    requires m.Valid()
    ensures r.Ok? ==> r.value.Valid()
  {
    var (computed, branch) := (Computed(m, op), Branch(m.regs, op));
    if computed.Some? then Ok(Retire(m, computed.value.0, computed.value.1, size))
    else if branch.Some? then Ok(Advance(m, if branch.value.0 then Value(branch.value.1) else size))
    else ExecuteOther(m, op, size)
  }

  /** `execute` of an instruction word. */
  function ExecuteWord(m: Machine, inst: u32): (r: Result<Machine, CpuError>)
    requires m.Valid()
    ensures r.Ok? ==> r.value.Valid()
  {
    var (op, size) := Decode(Pattern(inst));
    Execute(m, op, size)
  }

  /** One round of the run loop without an ECALL handler: fetch and execute. */
  function RunStep(m: Machine): (r: Result<Machine, CpuError>)
    requires m.Valid()
    ensures r.Ok? ==> r.value.Valid()
  {
    match Fetch(m.code, m.pc)
    case Err(e) => Err(e)
    case Ok(inst) => ExecuteWord(m, inst)
  }
}
