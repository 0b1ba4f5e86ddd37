/**
 What each instruction does, stated about `Execute` as a whole and in the terms of the RISC-V Unprivileged
 ISA 20191213: chapter 2 for the base instructions, 7 for multiplication and division, 8 for atomics.
 Registers hold numbers below 2^32; `Pattern` and `Value` convert between them and words of 32 bits.
 */
module InstructionLaws {
  import opened MachineInts
  import opened FlatMemory
  import opened RiscvDecode
  import opened RiscvMachine
  import opened Words
  import opened MachineArithmetic

  /** The content of a register. */
  function X(m: Machine, r: Reg): u32
    requires m.Valid()
  {
    m.regs[r as int]
  }

  /** The program counter becomes `pc` modulo 2^32, and register zero is zero. */
  function WentTo(m: Machine, pc: int): (next: Machine)
    requires m.Valid()
    ensures next.Valid()
  {
    m.(pc := pc % TWO_32, regs := m.regs[0 := 0])
  }

  /** Moreover register `rd` becomes `x`, unless it is register zero. */
  function Wrote(m: Machine, rd: Reg, x: u32, pc: int): (next: Machine)
    requires m.Valid()
    ensures next.Valid()
  {
    m.(pc := pc % TWO_32, regs := m.regs[rd as int := x][0 := 0])
  }

  /** The sum of a register and an immediate. */
  function AddressOf(m: Machine, rs1: Reg, imm: bv32): u32
    requires m.Valid()
  {
    (X(m, rs1) + Value(imm)) % TWO_32
  }

  /** The program counter moves by the immediate exactly under the condition; no register is written. */
  function JumpedIf(m: Machine, condition: bool, imm: bv32, size: int): (next: Machine)
    requires m.Valid()
    ensures next.Valid()
  {
    WentTo(m, m.pc + if condition then Value(imm) else size)
  }

  /** The destination and the value of an instruction. */
  ghost predicate Gives(r: Option<(Reg, u32)>, rd: Reg, x: u32) {
    r.Some? && r.value.0 == rd && r.value.1 == x
  }

  /** The condition and the immediate of a branch. */
  ghost predicate Tests(r: Option<(bool, bv32)>, condition: bool, imm: bv32) {
    r.Some? && r.value.0 == condition && r.value.1 == imm
  }

  lemma RetireWrites(m: Machine, rd: Reg, x: u32, size: int)
    requires m.Valid()
    ensures Retire(m, rd, x, size) == Wrote(m, rd, x, m.pc + size)
  {
  }

  lemma Retires(m: Machine, op: Op, size: int, rd: Reg, x: u32)
    requires m.Valid() && Gives(Computed(m, op), rd, x)
    ensures Execute(m, op, size) == Ok(Retire(m, rd, x, size))
  {
  }

  /** An instruction on registers writes what it computes. */
  lemma OnRegisters(m: Machine, op: Op, size: int, rd: Reg, x: u32)
    requires m.Valid() && Gives(OfRegisters(m.regs, op), rd, x)
    ensures Execute(m, op, size) == Ok(Wrote(m, rd, x, m.pc + size))
  {
    RetireWrites(m, rd, x, size);
    Retires(m, op, size, rd, x);
  }

  /** So does one with an immediate. */
  lemma OnImmediate(m: Machine, op: Op, size: int, rd: Reg, x: u32)
    requires m.Valid() && OfRegisters(m.regs, op).None? && Gives(OfImmediate(m.regs, m.pc, op), rd, x)
    ensures Execute(m, op, size) == Ok(Wrote(m, rd, x, m.pc + size))
  {
    RetireWrites(m, rd, x, size);
    Retires(m, op, size, rd, x);
  }

  /** A branch moves the program counter by its immediate if its condition holds, and writes no register. */
  lemma OnCondition(m: Machine, op: Op, size: int, condition: bool, imm: bv32)
    requires m.Valid() && Computed(m, op).None? && Tests(Branch(m.regs, op), condition, imm)
    ensures Execute(m, op, size) == Ok(JumpedIf(m, condition, imm, size))
  {
  }

  /** `Signed` is two's complement: the only signed number of 32 bits that equals `x` modulo 2^32. */
  lemma SignedIsOnlyOne(x: u32, v: int)
    ensures v == Signed(x) <==> -0x8000_0000 <= v < 0x8000_0000 && (v - x) % 0x1_0000_0000 == 0
  {
  }

  // ---------------------------------------------------------------------------------------
  // Sums and constants
  // ---------------------------------------------------------------------------------------

  /** The sum modulo 2^32. */
  lemma AddLaw(m: Machine, rd: Reg, rs1: Reg, rs2: Reg, size: int)
    requires m.Valid()
    ensures Execute(m, Add(rd, rs1, rs2), size) == Ok(Wrote(m, rd, (X(m, rs1) + X(m, rs2)) % TWO_32, m.pc + size))
  {
    OnRegisters(m, Add(rd, rs1, rs2), size, rd, (X(m, rs1) + X(m, rs2)) % TWO_32);
  }

  /** The difference modulo 2^32. */
  lemma SubLaw(m: Machine, rd: Reg, rs1: Reg, rs2: Reg, size: int)
    requires m.Valid()
    ensures Execute(m, Sub(rd, rs1, rs2), size) == Ok(Wrote(m, rd, (X(m, rs1) - X(m, rs2)) % TWO_32, m.pc + size))
  {
    OnRegisters(m, Sub(rd, rs1, rs2), size, rd, (X(m, rs1) - X(m, rs2)) % TWO_32);
  }

  /** The sum with the immediate modulo 2^32. */
  lemma AddiLaw(m: Machine, rd: Reg, rs1: Reg, imm: bv32, size: int)
    requires m.Valid()
    ensures Execute(m, Addi(rd, rs1, imm), size) == Ok(Wrote(m, rd, (X(m, rs1) + Value(imm)) % TWO_32, m.pc + size))
  {
    OnImmediate(m, Addi(rd, rs1, imm), size, rd, (X(m, rs1) + Value(imm)) % TWO_32);
  }

  /** The immediate itself. */
  lemma LuiLaw(m: Machine, rd: Reg, imm: bv32, size: int)
    requires m.Valid()
    ensures Execute(m, Lui(rd, imm), size) == Ok(Wrote(m, rd, Value(imm), m.pc + size))
  {
    OnImmediate(m, Lui(rd, imm), size, rd, Value(imm));
  }

  /** The sum of the program counter and the immediate modulo 2^32. */
  lemma AuipcLaw(m: Machine, rd: Reg, imm: bv32, size: int)
    requires m.Valid()
    ensures Execute(m, Auipc(rd, imm), size) == Ok(Wrote(m, rd, (m.pc + Value(imm)) % TWO_32, m.pc + size))
  {
    OnImmediate(m, Auipc(rd, imm), size, rd, (m.pc + Value(imm)) % TWO_32);
  }

  // ---------------------------------------------------------------------------------------
  // Bits
  // ---------------------------------------------------------------------------------------

  lemma BitwiseOf(a: u32, b: u32)
    ensures Pattern(BitAnd(a, b)) == Pattern(a) & Pattern(b)
    ensures Pattern(BitOr(a, b)) == Pattern(a) | Pattern(b)
    ensures Pattern(BitXor(a, b)) == Pattern(a) ^ Pattern(b)
  {
    PatternOfValue(Pattern(a) & Pattern(b));
    PatternOfValue(Pattern(a) | Pattern(b));
    PatternOfValue(Pattern(a) ^ Pattern(b));
  }

  lemma AndWithImmediate(a: u32, imm: bv32) returns (x: u32)
    ensures x == BitAnd(a, Value(imm)) && Pattern(x) == Pattern(a) & imm
  {
    x := BitAnd(a, Value(imm));
    BitwiseOf(a, Value(imm));
    PatternOfValue(imm);
  }

  lemma OrWithImmediate(a: u32, imm: bv32) returns (x: u32)
    ensures x == BitOr(a, Value(imm)) && Pattern(x) == Pattern(a) | imm
  {
    x := BitOr(a, Value(imm));
    BitwiseOf(a, Value(imm));
    PatternOfValue(imm);
  }

  lemma XorWithImmediate(a: u32, imm: bv32) returns (x: u32)
    ensures x == BitXor(a, Value(imm)) && Pattern(x) == Pattern(a) ^ imm
  {
    x := BitXor(a, Value(imm));
    BitwiseOf(a, Value(imm));
    PatternOfValue(imm);
  }

  lemma AndGives(regs: seq<u32>, op: Op)
    requires |regs| == 32 && op.And?
    ensures Gives(OfRegisters(regs, op), op.rd, BitAnd(Get(regs, op.rs1), Get(regs, op.rs2)))
  {
  }

  lemma OrGives(regs: seq<u32>, op: Op)
    requires |regs| == 32 && op.Or?
    ensures Gives(OfRegisters(regs, op), op.rd, BitOr(Get(regs, op.rs1), Get(regs, op.rs2)))
  {
  }

  lemma XorGives(regs: seq<u32>, op: Op)
    requires |regs| == 32 && op.Xor?
    ensures Gives(OfRegisters(regs, op), op.rd, BitXor(Get(regs, op.rs1), Get(regs, op.rs2)))
  {
  }

  /** Bit by bit, of two registers. */
  lemma AndLaw(m: Machine, rd: Reg, rs1: Reg, rs2: Reg, size: int) returns (x: u32)
    requires m.Valid()
    ensures Execute(m, And(rd, rs1, rs2), size) == Ok(Wrote(m, rd, x, m.pc + size))
    ensures Pattern(x) == Pattern(X(m, rs1)) & Pattern(X(m, rs2))
  {
    x := BitAnd(X(m, rs1), X(m, rs2));
    BitwiseOf(X(m, rs1), X(m, rs2));
    AndGives(m.regs, And(rd, rs1, rs2));
    OnRegisters(m, And(rd, rs1, rs2), size, rd, x);
  }

  lemma OrLaw(m: Machine, rd: Reg, rs1: Reg, rs2: Reg, size: int) returns (x: u32)
    requires m.Valid()
    ensures Execute(m, Or(rd, rs1, rs2), size) == Ok(Wrote(m, rd, x, m.pc + size))
    ensures Pattern(x) == Pattern(X(m, rs1)) | Pattern(X(m, rs2))
  {
    x := BitOr(X(m, rs1), X(m, rs2));
    BitwiseOf(X(m, rs1), X(m, rs2));
    OrGives(m.regs, Or(rd, rs1, rs2));
    OnRegisters(m, Or(rd, rs1, rs2), size, rd, x);
  }

  lemma XorLaw(m: Machine, rd: Reg, rs1: Reg, rs2: Reg, size: int) returns (x: u32)
    requires m.Valid()
    ensures Execute(m, Xor(rd, rs1, rs2), size) == Ok(Wrote(m, rd, x, m.pc + size))
    ensures Pattern(x) == Pattern(X(m, rs1)) ^ Pattern(X(m, rs2))
  {
    x := BitXor(X(m, rs1), X(m, rs2));
    BitwiseOf(X(m, rs1), X(m, rs2));
    XorGives(m.regs, Xor(rd, rs1, rs2));
    OnRegisters(m, Xor(rd, rs1, rs2), size, rd, x);
  }

  lemma AndiGives(regs: seq<u32>, pc: u32, op: Op)
    requires |regs| == 32 && op.Andi?
    ensures OfRegisters(regs, op).None?
    ensures Gives(OfImmediate(regs, pc, op), op.rd, BitAnd(Get(regs, op.rs1), Value(op.imm)))
  {
  }

  lemma OriGives(regs: seq<u32>, pc: u32, op: Op)
    requires |regs| == 32 && op.Ori?
    ensures OfRegisters(regs, op).None?
    ensures Gives(OfImmediate(regs, pc, op), op.rd, BitOr(Get(regs, op.rs1), Value(op.imm)))
  {
  }

  lemma XoriGives(regs: seq<u32>, pc: u32, op: Op)
    requires |regs| == 32 && op.Xori?
    ensures OfRegisters(regs, op).None?
    ensures Gives(OfImmediate(regs, pc, op), op.rd, BitXor(Get(regs, op.rs1), Value(op.imm)))
  {
  }

  /** Bit by bit, of a register and the immediate. */
  lemma AndiLaw(m: Machine, rd: Reg, rs1: Reg, imm: bv32, size: int) returns (x: u32)
    requires m.Valid()
    ensures Execute(m, Andi(rd, rs1, imm), size) == Ok(Wrote(m, rd, x, m.pc + size))
    ensures Pattern(x) == Pattern(X(m, rs1)) & imm
  {
    x := AndWithImmediate(X(m, rs1), imm);
    AndiGives(m.regs, m.pc, Andi(rd, rs1, imm));
    OnImmediate(m, Andi(rd, rs1, imm), size, rd, x);
  }

  lemma OriLaw(m: Machine, rd: Reg, rs1: Reg, imm: bv32, size: int) returns (x: u32)
    requires m.Valid()
    ensures Execute(m, Ori(rd, rs1, imm), size) == Ok(Wrote(m, rd, x, m.pc + size))
    ensures Pattern(x) == Pattern(X(m, rs1)) | imm
  {
    x := OrWithImmediate(X(m, rs1), imm);
    OriGives(m.regs, m.pc, Ori(rd, rs1, imm));
    OnImmediate(m, Ori(rd, rs1, imm), size, rd, x);
  }

  lemma XoriLaw(m: Machine, rd: Reg, rs1: Reg, imm: bv32, size: int) returns (x: u32)
    requires m.Valid()
    ensures Execute(m, Xori(rd, rs1, imm), size) == Ok(Wrote(m, rd, x, m.pc + size))
    ensures Pattern(x) == Pattern(X(m, rs1)) ^ imm
  {
    x := XorWithImmediate(X(m, rs1), imm);
    XoriGives(m.regs, m.pc, Xori(rd, rs1, imm));
    OnImmediate(m, Xori(rd, rs1, imm), size, rd, x);
  }

  /** The product with the power of two, modulo 2^32; the exponent are the low five bits of a register. */
  lemma SllLaw(m: Machine, rd: Reg, rs1: Reg, rs2: Reg, size: int)
    requires m.Valid()
    ensures Execute(m, Sll(rd, rs1, rs2), size)
         == Ok(Wrote(m, rd, X(m, rs1) * Pow2(X(m, rs2) % 32) % TWO_32, m.pc + size))
  {
    OnRegisters(m, Sll(rd, rs1, rs2), size, rd, ShiftLeft(X(m, rs1), X(m, rs2) % 32));
  }

  /** The quotient by the power of two, rounded down. */
  lemma SrlLaw(m: Machine, rd: Reg, rs1: Reg, rs2: Reg, size: int) returns (x: u32)
    requires m.Valid()
    ensures Execute(m, Srl(rd, rs1, rs2), size) == Ok(Wrote(m, rd, x, m.pc + size))
    ensures var p := Pow2(X(m, rs2) % 32); x * p <= X(m, rs1) < x * p + p
  {
    x := ShiftRight(X(m, rs1), X(m, rs2) % 32);
    ShiftLaws(X(m, rs1), X(m, rs2) % 32);
    OnRegisters(m, Srl(rd, rs1, rs2), size, rd, x);
  }

  /** The signed quotient by the power of two, rounded down. */
  lemma SraLaw(m: Machine, rd: Reg, rs1: Reg, rs2: Reg, size: int) returns (x: u32)
    requires m.Valid()
    ensures Execute(m, Sra(rd, rs1, rs2), size) == Ok(Wrote(m, rd, x, m.pc + size))
    ensures var p := Pow2(X(m, rs2) % 32); Signed(x) * p <= Signed(X(m, rs1)) < Signed(x) * p + p
  {
    x := ShiftRightSigned(X(m, rs1), X(m, rs2) % 32);
    ShiftLaws(X(m, rs1), X(m, rs2) % 32);
    OnRegisters(m, Sra(rd, rs1, rs2), size, rd, x);
  }

  /** The product with the power of two, modulo 2^32; the exponent are the low five bits of the immediate. */
  lemma SlliLaw(m: Machine, rd: Reg, rs1: Reg, imm: bv32, size: int)
    requires m.Valid()
    ensures Execute(m, Slli(rd, rs1, imm), size)
         == Ok(Wrote(m, rd, X(m, rs1) * Pow2(Value(imm & 0x1f)) % TWO_32, m.pc + size))
  {
    OnImmediate(m, Slli(rd, rs1, imm), size, rd, ShiftLeft(X(m, rs1), Value(imm & 0x1f)));
  }

  /** The quotient by the power of two, rounded down. */
  lemma SrliLaw(m: Machine, rd: Reg, rs1: Reg, imm: bv32, size: int) returns (x: u32)
    requires m.Valid()
    ensures Execute(m, Srli(rd, rs1, imm), size) == Ok(Wrote(m, rd, x, m.pc + size))
    ensures var p := Pow2(Value(imm & 0x1f)); x * p <= X(m, rs1) < x * p + p
  {
    x := ShiftRight(X(m, rs1), Value(imm & 0x1f));
    ShiftLaws(X(m, rs1), Value(imm & 0x1f));
    OnImmediate(m, Srli(rd, rs1, imm), size, rd, x);
  }

  /** The signed quotient by the power of two, rounded down. */
  lemma SraiLaw(m: Machine, rd: Reg, rs1: Reg, imm: bv32, size: int) returns (x: u32)
    requires m.Valid()
    ensures Execute(m, Srai(rd, rs1, imm), size) == Ok(Wrote(m, rd, x, m.pc + size))
    ensures var p := Pow2(Value(imm & 0x1f)); Signed(x) * p <= Signed(X(m, rs1)) < Signed(x) * p + p
  {
    x := ShiftRightSigned(X(m, rs1), Value(imm & 0x1f));
    ShiftLaws(X(m, rs1), Value(imm & 0x1f));
    OnImmediate(m, Srai(rd, rs1, imm), size, rd, x);
  }

  // ---------------------------------------------------------------------------------------
  // Comparisons
  // ---------------------------------------------------------------------------------------

  /** One exactly if the first operand is smaller, as signed numbers. */
  lemma SltLaw(m: Machine, rd: Reg, rs1: Reg, rs2: Reg, size: int)
    requires m.Valid()
    ensures Execute(m, Slt(rd, rs1, rs2), size)
         == Ok(Wrote(m, rd, if Signed(X(m, rs1)) < Signed(X(m, rs2)) then 1 else 0, m.pc + size))
  {
    OnRegisters(m, Slt(rd, rs1, rs2), size, rd, if Signed(X(m, rs1)) < Signed(X(m, rs2)) then 1 else 0);
  }

  /** One exactly if the first operand is smaller, as unsigned numbers. */
  lemma SltuLaw(m: Machine, rd: Reg, rs1: Reg, rs2: Reg, size: int)
    requires m.Valid()
    ensures Execute(m, Sltu(rd, rs1, rs2), size)
         == Ok(Wrote(m, rd, if X(m, rs1) < X(m, rs2) then 1 else 0, m.pc + size))
  {
    OnRegisters(m, Sltu(rd, rs1, rs2), size, rd, if X(m, rs1) < X(m, rs2) then 1 else 0);
  }

  lemma SltiLaw(m: Machine, rd: Reg, rs1: Reg, imm: bv32, size: int)
    requires m.Valid()
    ensures Execute(m, Slti(rd, rs1, imm), size)
         == Ok(Wrote(m, rd, if Signed(X(m, rs1)) < Signed(Value(imm)) then 1 else 0, m.pc + size))
  {
    OnImmediate(m, Slti(rd, rs1, imm), size, rd, if Signed(X(m, rs1)) < Signed(Value(imm)) then 1 else 0);
  }

  lemma SltiuLaw(m: Machine, rd: Reg, rs1: Reg, imm: bv32, size: int)
    requires m.Valid()
    ensures Execute(m, Sltiu(rd, rs1, imm), size)
         == Ok(Wrote(m, rd, if X(m, rs1) < Value(imm) then 1 else 0, m.pc + size))
  {
    OnImmediate(m, Sltiu(rd, rs1, imm), size, rd, if X(m, rs1) < Value(imm) then 1 else 0);
  }

  // ---------------------------------------------------------------------------------------
  // Multiplication and division
  // ---------------------------------------------------------------------------------------

  /** The product modulo 2^32. */
  lemma MulLaw(m: Machine, rd: Reg, rs1: Reg, rs2: Reg, size: int)
    requires m.Valid()
    ensures Execute(m, Mul(rd, rs1, rs2), size) == Ok(Wrote(m, rd, X(m, rs1) as int * X(m, rs2) % TWO_32, m.pc + size))
  {
    OnRegisters(m, Mul(rd, rs1, rs2), size, rd, X(m, rs1) as int * X(m, rs2) % TWO_32);
  }

  /** The upper half of the product of unsigned numbers. */
  lemma MulhuLaw(m: Machine, rd: Reg, rs1: Reg, rs2: Reg, size: int) returns (x: u32)
    requires m.Valid()
    ensures Execute(m, Mulhu(rd, rs1, rs2), size) == Ok(Wrote(m, rd, x, m.pc + size))
    ensures x as int * TWO_32 + X(m, rs1) as int * X(m, rs2) % TWO_32 == X(m, rs1) as int * X(m, rs2)
  {
    x := MultiplyHighUnsigned(X(m, rs1), X(m, rs2));
    MultiplyLaws(X(m, rs1), X(m, rs2));
    OnRegisters(m, Mulhu(rd, rs1, rs2), size, rd, x);
  }

  /** The upper half of the product of signed numbers; the lower half is that of the unsigned ones. */
  lemma MulhLaw(m: Machine, rd: Reg, rs1: Reg, rs2: Reg, size: int) returns (x: u32)
    requires m.Valid()
    ensures Execute(m, Mulh(rd, rs1, rs2), size) == Ok(Wrote(m, rd, x, m.pc + size))
    ensures Signed(x) * TWO_32 + X(m, rs1) as int * X(m, rs2) % TWO_32 == Signed(X(m, rs1)) * Signed(X(m, rs2))
  {
    x := MultiplyHigh(X(m, rs1), X(m, rs2));
    MultiplyLaws(X(m, rs1), X(m, rs2));
    OnRegisters(m, Mulh(rd, rs1, rs2), size, rd, x);
  }

  /** The same with a signed and an unsigned factor. */
  lemma MulhsuLaw(m: Machine, rd: Reg, rs1: Reg, rs2: Reg, size: int) returns (x: u32)
    requires m.Valid()
    ensures Execute(m, Mulhsu(rd, rs1, rs2), size) == Ok(Wrote(m, rd, x, m.pc + size))
    ensures Signed(x) * TWO_32 + X(m, rs1) as int * X(m, rs2) % TWO_32 == Signed(X(m, rs1)) * X(m, rs2)
  {
    x := MultiplyHighSignedUnsigned(X(m, rs1), X(m, rs2));
    MultiplyLaws(X(m, rs1), X(m, rs2));
    OnRegisters(m, Mulhsu(rd, rs1, rs2), size, rd, x);
  }

  /** Quotient and remainder of unsigned numbers; 2^32 - 1 and the dividend if the divisor is zero. */
  lemma DivuRemuLaw(m: Machine, rd: Reg, rs1: Reg, rs2: Reg, size: int) returns (q: u32, r: u32)
    requires m.Valid()
    ensures Execute(m, Divu(rd, rs1, rs2), size) == Ok(Wrote(m, rd, q, m.pc + size))
    ensures Execute(m, Remu(rd, rs1, rs2), size) == Ok(Wrote(m, rd, r, m.pc + size))
    ensures if X(m, rs2) == 0 then q == TWO_32 - 1 && r == X(m, rs1)
            else X(m, rs1) == X(m, rs2) as int * q + r && r < X(m, rs2)
  {
    q, r := DivUnsigned(X(m, rs1), X(m, rs2)), RemUnsigned(X(m, rs1), X(m, rs2));
    DivideUnsignedLaws(X(m, rs1), X(m, rs2));
    OnRegisters(m, Divu(rd, rs1, rs2), size, rd, q);
    OnRegisters(m, Remu(rd, rs1, rs2), size, rd, r);
  }

  /** Quotient and remainder of signed numbers, with the two exceptions of section 7.2. */
  ghost predicate SignedDivision(a: int, b: int, q: int, r: int) {
    if b == 0 then q == -1 && r == a
    else if a == -0x8000_0000 && b == -1 then q == a && r == 0
    else a == b * q + r && Abs(r) < Abs(b) && (r == 0 || (r < 0 <==> a < 0))
  }

  lemma SignedDivisionOf(a: u32, b: u32)
    ensures SignedDivision(Signed(a), Signed(b), Signed(DivSigned(a, b)), Signed(RemSigned(a, b)))
  {
    DivideSignedLaws(a, b);
  }

  /** The quotient is rounded towards zero, and the remainder has the sign of the dividend. */
  lemma DivRemLaw(m: Machine, rd: Reg, rs1: Reg, rs2: Reg, size: int) returns (q: u32, r: u32)
    requires m.Valid()
    ensures Execute(m, Div(rd, rs1, rs2), size) == Ok(Wrote(m, rd, q, m.pc + size))
    ensures Execute(m, Rem(rd, rs1, rs2), size) == Ok(Wrote(m, rd, r, m.pc + size))
    ensures SignedDivision(Signed(X(m, rs1)), Signed(X(m, rs2)), Signed(q), Signed(r))
  {
    q, r := DivSigned(X(m, rs1), X(m, rs2)), RemSigned(X(m, rs1), X(m, rs2));
    SignedDivisionOf(X(m, rs1), X(m, rs2));
    OnRegisters(m, Div(rd, rs1, rs2), size, rd, q);
    OnRegisters(m, Rem(rd, rs1, rs2), size, rd, r);
  }

  // ---------------------------------------------------------------------------------------
  // Control transfer
  // ---------------------------------------------------------------------------------------

  lemma BeqLaw(m: Machine, rs1: Reg, rs2: Reg, imm: bv32, size: int)
    requires m.Valid()
    ensures Execute(m, Beq(rs1, rs2, imm), size) == Ok(JumpedIf(m, X(m, rs1) == X(m, rs2), imm, size))
  {
    OnCondition(m, Beq(rs1, rs2, imm), size, X(m, rs1) == X(m, rs2), imm);
  }

  lemma BneLaw(m: Machine, rs1: Reg, rs2: Reg, imm: bv32, size: int)
    requires m.Valid()
    ensures Execute(m, Bne(rs1, rs2, imm), size) == Ok(JumpedIf(m, X(m, rs1) != X(m, rs2), imm, size))
  {
    OnCondition(m, Bne(rs1, rs2, imm), size, X(m, rs1) != X(m, rs2), imm);
  }

  lemma BltLaw(m: Machine, rs1: Reg, rs2: Reg, imm: bv32, size: int)
    requires m.Valid()
    ensures Execute(m, Blt(rs1, rs2, imm), size) == Ok(JumpedIf(m, Signed(X(m, rs1)) < Signed(X(m, rs2)), imm, size))
  {
    OnCondition(m, Blt(rs1, rs2, imm), size, Signed(X(m, rs1)) < Signed(X(m, rs2)), imm);
  }

  lemma BgeLaw(m: Machine, rs1: Reg, rs2: Reg, imm: bv32, size: int)
    requires m.Valid()
    ensures Execute(m, Bge(rs1, rs2, imm), size) == Ok(JumpedIf(m, Signed(X(m, rs1)) >= Signed(X(m, rs2)), imm, size))
  {
    OnCondition(m, Bge(rs1, rs2, imm), size, Signed(X(m, rs1)) >= Signed(X(m, rs2)), imm);
  }

  lemma BltuLaw(m: Machine, rs1: Reg, rs2: Reg, imm: bv32, size: int)
    requires m.Valid()
    ensures Execute(m, Bltu(rs1, rs2, imm), size) == Ok(JumpedIf(m, X(m, rs1) < X(m, rs2), imm, size))
  {
    OnCondition(m, Bltu(rs1, rs2, imm), size, X(m, rs1) < X(m, rs2), imm);
  }

  lemma BgeuLaw(m: Machine, rs1: Reg, rs2: Reg, imm: bv32, size: int)
    requires m.Valid()
    ensures Execute(m, Bgeu(rs1, rs2, imm), size) == Ok(JumpedIf(m, X(m, rs1) >= X(m, rs2), imm, size))
  {
    OnCondition(m, Bgeu(rs1, rs2, imm), size, X(m, rs1) >= X(m, rs2), imm);
  }

  /** The instructions that jump always, access memory, do nothing or fail. */
  predicate IsOther(op: Op) {
    || op.Jal? || op.Jalr? || op.Fence? || op.Ecall? || op.Break? || op.Unknown?
    || op.Lb? || op.Lh? || op.Lw? || op.Lbu? || op.Lhu? || op.Sb? || op.Sh? || op.Sw?
    || op.LrW? || op.ScW? || op.Amo?
  }

  lemma ComputesNothing(m: Machine, op: Op)
    requires m.Valid() && IsOther(op)
    ensures Computed(m, op).None? && Branch(m.regs, op).None?
  {
  }

  lemma Others(m: Machine, op: Op, size: int)
    requires m.Valid() && IsOther(op)
    ensures Execute(m, op, size) == ExecuteOther(m, op, size)
  {
    ComputesNothing(m, op);
  }

  lemma JumpsWrite(m: Machine, rd: Reg, offset: u32, target: u32, size: int)
    requires m.Valid()
    ensures ExecuteJal(m, rd, offset, size) == Wrote(m, rd, (m.pc + size) % TWO_32, m.pc + offset)
    ensures ExecuteJalr(m, rd, target, size) == Wrote(m, rd, (m.pc + size) % TWO_32, target - target % 2)
  {
  }

  /** The jump is relative; the address of the next instruction is written. */
  lemma JalLaw(m: Machine, rd: Reg, imm: bv32, size: int)
    requires m.Valid()
    ensures Execute(m, Jal(rd, imm), size) == Ok(Wrote(m, rd, (m.pc + size) % TWO_32, m.pc + Value(imm)))
  {
    Others(m, Jal(rd, imm), size);
    JumpsWrite(m, rd, Value(imm), 0, size);
  }

  /** The target is a sum modulo 2^32 without its lowest bit. */
  lemma JalrLaw(m: Machine, rd: Reg, rs1: Reg, imm: bv32, size: int)
    requires m.Valid()
    ensures var target := AddressOf(m, rs1, imm);
            Execute(m, Jalr(rd, rs1, imm), size) == Ok(Wrote(m, rd, (m.pc + size) % TWO_32, target - target % 2))
  {
    Others(m, Jalr(rd, rs1, imm), size);
    JumpsWrite(m, rd, 0, AddressOf(m, rs1, imm), size);
  }

  lemma FenceLaw(m: Machine, size: int)
    requires m.Valid()
    ensures Execute(m, Fence, size) == Ok(WentTo(m, m.pc + size))
  {
    Others(m, Fence, size);
  }

  /** Without a handler ECALL is an error, as are EBREAK and every word that is not an instruction. */
  lemma UnsupportedLaw(m: Machine, op: Op, size: int)
    requires m.Valid() && (op.Ecall? || op.Break? || op.Unknown?)
    ensures Execute(m, op, size)
         == Err(Generic(if op.Ecall? then "No ECALL handler"
                        else if op.Break? then "BREAK instruction is not supported" else "Unknown instruction"))
  {
    Others(m, op, size);
  }

  // ---------------------------------------------------------------------------------------
  // Memory
  // ---------------------------------------------------------------------------------------

  /** The segment that an access goes to: the first one that contains the address. */
  function SegmentAt(m: Machine, at: u32): (s: Option<Flat>)
    requires m.Valid()
    ensures s.Some? ==> s.value.Valid()
  {
    if m.stack.start <= at < m.stack.start + m.stack.size then Some(m.stack)
    else if m.data.start <= at < m.data.start + m.data.size then Some(m.data)
    else if m.code.start <= at < m.code.start + m.code.size then Some(m.code)
    else None
  }

  /** The byte that a segment stores at an address; its pages begin at a multiple of 256. */
  function ByteAt(s: Flat, at: int): u8 {
    var k := at - (s.start - s.start % 256);
    if 0 <= k < |s.bytes| then s.bytes[k] else 0
  }

  /** Why an access of `width` bytes to the segment at its address fails, if it does. */
  function FaultAt(s: Option<Flat>, at: u32, width: nat): Option<MemoryError>
    requires width > 0
  {
    if s.None? || at + width > s.value.start + s.value.size then Some(AddressOutOfBounds)
    else if at % width != 0 then Some(UnalignedAddress)
    else if at - (s.value.start - s.value.start % 256) >= |s.value.bytes| then Some(PageNotFound)
    else None
  }

  /** A word is read from its segment, lowest byte first. */
  lemma LoadLaw(m: Machine, at: u32, width: nat)
    requires m.Valid() && (width == 1 || width == 2 || width == 4)
    ensures var fault := FaultAt(SegmentAt(m, at), at, width);
            fault.Some? ==> Load(m, at, width) == Err(MemoryFault(fault.value))
    ensures FaultAt(SegmentAt(m, at), at, width).None? ==>
              var s := SegmentAt(m, at).value;
              && Load(m, at, width).Ok?
              && Load(m, at, width).value == ByteAt(s, at)
                 + (if width >= 2 then 256 * ByteAt(s, at + 1) else 0)
                 + (if width == 4 then 65536 * ByteAt(s, at + 2) + 16777216 * ByteAt(s, at + 3) else 0)
  {
    if FaultAt(SegmentAt(m, at), at, width).None? {
      ReadBytesOf(SegmentAt(m, at).value, at, width);
    }
  }

  lemma ReadBytesOf(s: Flat, at: u32, width: nat)
    requires s.Valid() && (width == 1 || width == 2 || width == 4) && s.Refusal(at, width).None?
    ensures s.Read(at, width).Ok?
    ensures s.Read(at, width).value == ByteAt(s, at)
            + (if width >= 2 then 256 * ByteAt(s, at + 1) else 0)
            + (if width == 4 then 65536 * ByteAt(s, at + 2) + 16777216 * ByteAt(s, at + 3) else 0)
  {
    s.AllowedInside(at, width);
    var word := s.bytes[at - s.Base()..at - s.Base() + width];
    if width == 1 {
      LE1(word);
    } else if width == 2 {
      LE2(word);
    } else {
      LE4(word);
    }
  }

  /** Byte `k` of a number. */
  function Digit(value: nat, k: nat): u8 {
    if k == 0 then value % 256 else if k == 1 then value / 256 % 256
    else if k == 2 then value / 65536 % 256 else value / 16777216 % 256
  }

  lemma DigitsOf(value: nat, width: nat)
    requires (width == 1 && value < 256) || width == 2 || width == 4
    ensures forall k :: 0 <= k < width ==> ToLE(value, width)[k] == Digit(value, k)
  {
    if width == 1 {
      ToLE1(value);
    } else if width == 2 {
      ToLE2(value);
    } else {
      ToLE4(value);
    }
  }

  /** A segment after a store: the bytes of the value, and everything else as before. */
  ghost predicate Stored(before: Flat, after: Flat, at: u32, width: nat, value: nat) {
    && after == before.(bytes := after.bytes) && |after.bytes| == |before.bytes|
    && forall a: int :: ByteAt(after, a) == if at <= a < at + width then Digit(value, a - at) else ByteAt(before, a)
  }

  lemma WriteStores(s: Flat, at: u32, width: nat, value: nat)
    requires s.Valid() && ((width == 1 && value < 256) || width == 2 || width == 4)
    requires s.Refusal(at, width).None?
    ensures s.Write(at, width, value).1.None? && Stored(s, s.Write(at, width, value).0, at, width, value)
  {
    s.AllowedInside(at, width);
    DigitsOf(value, width);
  }

  /** The segment that a store goes to: the code is never written. */
  function WritableAt(m: Machine, at: u32): (s: Option<Flat>)
    requires m.Valid()
    ensures s.Some? ==> s.value.Valid()
  {
    if m.stack.start <= at < m.stack.start + m.stack.size then Some(m.stack)
    else if m.data.start <= at < m.data.start + m.data.size then Some(m.data)
    else None
  }

  /** A store changes the bytes of one segment, the stack or else the data, and may end the reservation. */
  lemma StoreLaw(m: Machine, at: u32, width: nat, value: nat)
    requires m.Valid() && ((width == 1 && value < 256) || width == 2 || width == 4)
    ensures var fault := FaultAt(WritableAt(m, at), at, width);
            fault.Some? ==> Store(m, at, width, value) == Err(MemoryFault(fault.value))
    ensures FaultAt(WritableAt(m, at), at, width).None? ==>
              && Store(m, at, width, value).Ok?
              && var next := Store(m, at, width, value).value;
              && next == m.(stack := next.stack, data := next.data, reservation := next.reservation)
              && if m.stack.start <= at < m.stack.start + m.stack.size
                 then next.data == m.data && Stored(m.stack, next.stack, at, width, value)
                 else next.stack == m.stack && Stored(m.data, next.data, at, width, value)
  {
    if FaultAt(WritableAt(m, at), at, width).None? {
      WriteStores(WritableAt(m, at).value, at, width, value);
    }
  }

  /** How a load ends: with an error, or with `x` in register `rd`. */
  ghost predicate Loads(m: Machine, r: Result<Machine, CpuError>, rd: Reg, at: u32, width: nat, x: u32, size: int)
    requires m.Valid() && (width == 1 || width == 2 || width == 4)
  {
    if at % width != 0 then r == Err(Generic(if width == 2 then "Unaligned 16-bit read" else "Unaligned 32-bit read"))
    else match Load(m, at, width)
      case Ok(_) => r == Ok(Wrote(m, rd, x, m.pc + size))
      case Err(e) => r == Err(e)
  }

  /** What the `width` bytes at an address stand for; zero if they cannot be read. */
  function WordAt(m: Machine, at: u32, width: nat): u32
    requires m.Valid() && (width == 1 || width == 2 || width == 4)
  {
    match Load(m, at, width)
    case Ok(value) => value
    case Err(_) => 0
  }

  lemma WordFits(m: Machine, at: u32, width: nat)
    requires m.Valid() && (width == 1 || width == 2 || width == 4)
    ensures width == 1 ==> WordAt(m, at, width) < TWO_8
    ensures width == 2 ==> WordAt(m, at, width) < TWO_16
  {
    Pow256Widths();
  }

  predicate IsLoad(op: Op) {
    op.Lb? || op.Lh? || op.Lw? || op.Lbu? || op.Lhu?
  }

  lemma OtherLoads(m: Machine, op: Op, size: int)
    requires m.Valid() && IsLoad(op)
    ensures LoadOf(op).Some?
    ensures var (rd, rs1, imm, width, signed) := LoadOf(op).value;
            Execute(m, op, size) == ExecuteLoad(m, rd, Address(m.regs, rs1, imm), width, signed, size)
  {
    Others(m, op, size);
  }

  lemma LoadEnds(m: Machine, rd: Reg, at: u32, width: nat, signed: bool, x: u32, size: int)
    requires m.Valid() && (width == 1 || width == 2 || width == 4) && x == Extended(WordAt(m, at, width), width, signed)
    ensures Loads(m, ExecuteLoad(m, rd, at, width, signed, size), rd, at, width, x, size)
  {
    RetireWrites(m, rd, x, size);
  }

  lemma OnLoad(m: Machine, op: Op, rd: Reg, at: u32, width: nat, signed: bool, size: int) returns (x: u32)
    requires m.Valid() && IsLoad(op) && LoadOf(op).Some?
    requires LoadOf(op).value.0 == rd && LoadOf(op).value.3 == width && LoadOf(op).value.4 == signed
    requires Address(m.regs, LoadOf(op).value.1, LoadOf(op).value.2) == at
    ensures x == Extended(WordAt(m, at, width), width, signed)
    ensures Loads(m, Execute(m, op, size), rd, at, width, x, size)
  {
    x := Extended(WordAt(m, at, width), width, signed);
    OtherLoads(m, op, size);
    LoadEnds(m, rd, at, width, signed, x, size);
  }

  /** The signed number that a byte stands for. */
  lemma LbLaw(m: Machine, rd: Reg, rs1: Reg, imm: bv32, size: int) returns (x: u32)
    requires m.Valid()
    ensures Loads(m, Execute(m, Lb(rd, rs1, imm), size), rd, AddressOf(m, rs1, imm), 1, x, size)
    ensures -0x80 <= Signed(x) < 0x80 && (Signed(x) - WordAt(m, AddressOf(m, rs1, imm), 1)) % 0x100 == 0
  {
    WordFits(m, AddressOf(m, rs1, imm), 1);
    x := OnLoad(m, Lb(rd, rs1, imm), rd, AddressOf(m, rs1, imm), 1, true, size);
  }

  /** The signed number that two bytes stand for. */
  lemma LhLaw(m: Machine, rd: Reg, rs1: Reg, imm: bv32, size: int) returns (x: u32)
    requires m.Valid()
    ensures Loads(m, Execute(m, Lh(rd, rs1, imm), size), rd, AddressOf(m, rs1, imm), 2, x, size)
    ensures -0x8000 <= Signed(x) < 0x8000 && (Signed(x) - WordAt(m, AddressOf(m, rs1, imm), 2)) % 0x1_0000 == 0
  {
    WordFits(m, AddressOf(m, rs1, imm), 2);
    x := OnLoad(m, Lh(rd, rs1, imm), rd, AddressOf(m, rs1, imm), 2, true, size);
  }

  lemma LwLaw(m: Machine, rd: Reg, rs1: Reg, imm: bv32, size: int)
    requires m.Valid()
    ensures var at := AddressOf(m, rs1, imm);
            Loads(m, Execute(m, Lw(rd, rs1, imm), size), rd, at, 4, WordAt(m, at, 4), size)
  {
    var x := OnLoad(m, Lw(rd, rs1, imm), rd, AddressOf(m, rs1, imm), 4, true, size);
  }

  lemma LbuLaw(m: Machine, rd: Reg, rs1: Reg, imm: bv32, size: int)
    requires m.Valid()
    ensures var at := AddressOf(m, rs1, imm);
            Loads(m, Execute(m, Lbu(rd, rs1, imm), size), rd, at, 1, WordAt(m, at, 1), size)
  {
    var x := OnLoad(m, Lbu(rd, rs1, imm), rd, AddressOf(m, rs1, imm), 1, false, size);
  }

  lemma LhuLaw(m: Machine, rd: Reg, rs1: Reg, imm: bv32, size: int)
    requires m.Valid()
    ensures var at := AddressOf(m, rs1, imm);
            Loads(m, Execute(m, Lhu(rd, rs1, imm), size), rd, at, 2, WordAt(m, at, 2), size)
  {
    var x := OnLoad(m, Lhu(rd, rs1, imm), rd, AddressOf(m, rs1, imm), 2, false, size);
  }

  /** How a store ends: with an error, or with `value` stored and the program counter moved on. */
  ghost predicate Stores(m: Machine, r: Result<Machine, CpuError>, at: u32, width: nat, value: nat, size: int)
    requires m.Valid() && (width == 1 || width == 2 || width == 4)
  {
    if at % width != 0 then r == Err(Generic(if width == 2 then "Unaligned 16-bit write" else "Unaligned 32-bit write"))
    else match Store(m, at, width, value)
      case Ok(next) => r == Ok(WentTo(next, m.pc + size))
      case Err(e) => r == Err(e)
  }

  lemma OtherStores(m: Machine, op: Op, size: int)
    requires m.Valid() && (op.Sb? || op.Sh? || op.Sw?)
    ensures StoreOf(op).Some?
    ensures var (rs1, rs2, imm, width) := StoreOf(op).value;
            Execute(m, op, size) ==
            ExecuteStore(m, Address(m.regs, rs1, imm), width, Truncated(Get(m.regs, rs2), width), size)
  {
    Others(m, op, size);
  }

  lemma StoreEnds(m: Machine, at: u32, width: nat, value: nat, size: int)
    requires m.Valid() && (width == 1 || width == 2 || width == 4)
    ensures Stores(m, ExecuteStore(m, at, width, value, size), at, width, value, size)
  {
  }

  lemma OnStore(m: Machine, op: Op, at: u32, width: nat, value: nat, size: int)
    requires m.Valid() && (op.Sb? || op.Sh? || op.Sw?) && StoreOf(op).Some?
    requires StoreOf(op).value.3 == width && at == Address(m.regs, StoreOf(op).value.0, StoreOf(op).value.2)
    requires value == Truncated(Get(m.regs, StoreOf(op).value.1), width)
    ensures Stores(m, Execute(m, op, size), at, width, value, size)
  {
    OtherStores(m, op, size);
    StoreEnds(m, at, width, value, size);
  }

  /** The lowest byte of a register is stored. */
  lemma SbLaw(m: Machine, rs1: Reg, rs2: Reg, imm: bv32, size: int)
    requires m.Valid()
    ensures Stores(m, Execute(m, Sb(rs1, rs2, imm), size), AddressOf(m, rs1, imm), 1, X(m, rs2) % 0x100, size)
  {
    OnStore(m, Sb(rs1, rs2, imm), AddressOf(m, rs1, imm), 1, X(m, rs2) % 0x100, size);
  }

  /** The two lowest bytes. */
  lemma ShLaw(m: Machine, rs1: Reg, rs2: Reg, imm: bv32, size: int)
    requires m.Valid()
    ensures Stores(m, Execute(m, Sh(rs1, rs2, imm), size), AddressOf(m, rs1, imm), 2, X(m, rs2) % 0x1_0000, size)
  {
    OnStore(m, Sh(rs1, rs2, imm), AddressOf(m, rs1, imm), 2, X(m, rs2) % 0x1_0000, size);
  }

  /** All four. */
  lemma SwLaw(m: Machine, rs1: Reg, rs2: Reg, imm: bv32, size: int)
    requires m.Valid()
    ensures Stores(m, Execute(m, Sw(rs1, rs2, imm), size), AddressOf(m, rs1, imm), 4, X(m, rs2), size)
  {
    OnStore(m, Sw(rs1, rs2, imm), AddressOf(m, rs1, imm), 4, X(m, rs2), size);
  }

  // ---------------------------------------------------------------------------------------
  // Atomics
  // ---------------------------------------------------------------------------------------

  lemma Atomics(m: Machine, op: Op, size: int)
    requires m.Valid() && (op.LrW? || op.ScW? || op.Amo?)
    ensures Execute(m, op, size) == ExecuteAtomic(m, op, size)
  {
    Others(m, op, size);
  }

  /** LR.W loads a word and reserves its address. */
  lemma LrLaw(m: Machine, rd: Reg, rs1: Reg, size: int)
    requires m.Valid()
    ensures var at := X(m, rs1);
            Execute(m, LrW(rd, rs1), size) ==
            if at % 4 != 0 then Err(Generic("Unaligned LR.W address"))
            else match Load(m, at, 4)
              case Ok(value) => Ok(Wrote(m, rd, value, m.pc + size).(reservation := Some(at)))
              case Err(e) => Err(e)
  {
    Atomics(m, LrW(rd, rs1), size);
  }

  /** SC.W stores and writes zero exactly if its address is reserved, and otherwise writes one; the reservation ends. */
  lemma ScLaw(m: Machine, rd: Reg, rs1: Reg, rs2: Reg, size: int)
    requires m.Valid()
    ensures var at := X(m, rs1);
            Execute(m, ScW(rd, rs1, rs2), size) ==
            if at % 4 != 0 then Err(Generic("Unaligned SC.W address"))
            else if m.reservation != Some(at) then Ok(Wrote(m, rd, 1, m.pc + size).(reservation := None))
            else match Store(m, at, 4, X(m, rs2))
              case Ok(next) => Ok(Wrote(next, rd, 0, m.pc + size).(reservation := None))
              case Err(e) => Err(e)
  {
    Atomics(m, ScW(rd, rs1, rs2), size);
  }

  /** What an atomic operation on the word `word` and the register content `x` stores. */
  ghost predicate Combines(kind: AmoKind, word: u32, x: u32, stored: u32) {
    match kind
    case Swap => stored == x
    case AddTo => stored == (word + x) % TWO_32
    case XorTo => Pattern(stored) == Pattern(word) ^ Pattern(x)
    case AndTo => Pattern(stored) == Pattern(word) & Pattern(x)
    case OrTo => Pattern(stored) == Pattern(word) | Pattern(x)
    case MinOf => stored in {word, x} && Signed(stored) <= Signed(word) && Signed(stored) <= Signed(x)
    case MaxOf => stored in {word, x} && Signed(stored) >= Signed(word) && Signed(stored) >= Signed(x)
    case MinuOf => stored in {word, x} && stored <= word && stored <= x
    case MaxuOf => stored in {word, x} && stored >= word && stored >= x
  }

  lemma CombinedCombines(kind: AmoKind, word: u32, x: u32)
    ensures Combines(kind, word, x, Combined(kind, word, x))
  {
    BitwiseOf(word, x);
  }

  lemma OnAmo(m: Machine, kind: AmoKind, rd: Reg, rs1: Reg, rs2: Reg, size: int)
    requires m.Valid()
    ensures Execute(m, Amo(kind, rd, rs1, rs2), size) == ExecuteAmo(m, kind, rd, X(m, rs1), X(m, rs2), size)
  {
    Atomics(m, Amo(kind, rd, rs1, rs2), size);
  }

  /** AMOs write the word that was there and store what their kind says; `stored` is free if the word cannot be read. */
  lemma AmoLaw(m: Machine, kind: AmoKind, rd: Reg, rs1: Reg, rs2: Reg, size: int) returns (stored: u32)
    requires m.Valid()
    ensures Combines(kind, WordAt(m, X(m, rs1), 4), X(m, rs2), stored)
    ensures var (at, r) := (X(m, rs1), Execute(m, Amo(kind, rd, rs1, rs2), size));
            if at % 4 != 0 then r == Err(Generic("Unaligned " + AmoName(kind) + " address"))
            else if Load(m, at, 4).Err? then r == Err(Load(m, at, 4).error)
            else match Store(m, at, 4, stored)
              case Ok(next) => r == Ok(Wrote(next, rd, WordAt(m, at, 4), m.pc + size))
              case Err(e) => r == Err(e)
  {
    var word := WordAt(m, X(m, rs1), 4);
    stored := Combined(kind, word, X(m, rs2));
    CombinedCombines(kind, word, X(m, rs2));
    OnAmo(m, kind, rd, rs1, rs2, size);
    if X(m, rs1) % 4 == 0 && Load(m, X(m, rs1), 4).Ok? {
      AmoWrites(m, kind, rd, X(m, rs1), X(m, rs2), size);
    }
  }

  lemma AmoWrites(m: Machine, kind: AmoKind, rd: Reg, at: u32, x: u32, size: int)
    requires m.Valid() && at % 4 == 0 && Load(m, at, 4).Ok?
    ensures ExecuteAmo(m, kind, rd, at, x, size) ==
            match Store(m, at, 4, Combined(kind, Load(m, at, 4).value, x))
            case Ok(next) => Ok(Wrote(next, rd, Load(m, at, 4).value, m.pc + size))
            case Err(e) => Err(e)
  {
    var stored := Store(m, at, 4, Combined(kind, Load(m, at, 4).value, x));
    if stored.Ok? {
      RetireWrites(stored.value, rd, Load(m, at, 4).value, size);
    }
  }

  // ---------------------------------------------------------------------------------------
  // Fetching
  // ---------------------------------------------------------------------------------------

  lemma LowHalf(v: int, low: int, high: int)
    requires v == low + 65536 * high && 0 <= low < 65536
    ensures v % 65536 == low && v % 4 == low % 4
  {
  }

  /** The two bytes at an address, lowest byte first. */
  function HalfAt(s: Flat, at: int): nat {
    ByteAt(s, at) + 256 * ByteAt(s, at + 1)
  }

  lemma ReadsHalf(s: Flat, at: u32)
    requires s.Valid() && ReadFrom(s, at, 2).Ok?
    ensures ReadFrom(s, at, 2).value == HalfAt(s, at) && s.Contains(at)
  {
    ReadBytesOf(s, at, 2);
  }

  /** What is fetched begins with the two bytes at the program counter, and the next two follow if they belong to it. */
  lemma FetchLaw(code: Flat, pc: u32)
    requires code.Valid() && Fetch(code, pc).Ok?
    ensures Fetch(code, pc).value % 65536 == HalfAt(code, pc)
    ensures Fetch(code, pc).value % 4 == 3 ==> Fetch(code, pc).value == HalfAt(code, pc) + 65536 * HalfAt(code, pc + 2)
  {
    var v := Fetch(code, pc).value;
    if pc % 4 == 0 && code.Contains(Wrap(pc + 3)) {
      ReadBytesOf(code, pc, 4);
      LowHalf(v, HalfAt(code, pc), HalfAt(code, pc + 2));
    } else {
      HalvesLaw(code, pc);
    }
  }

  lemma HalvesLaw(code: Flat, pc: u32)
    requires code.Valid() && FetchHalves(code, pc).Ok?
    ensures FetchHalves(code, pc).value % 65536 == HalfAt(code, pc)
    ensures FetchHalves(code, pc).value % 4 == 3 ==>
              FetchHalves(code, pc).value == HalfAt(code, pc) + 65536 * HalfAt(code, pc + 2)
  {
    ReadsHalf(code, pc);
    if HalfAt(code, pc) % 4 == 3 {
      assert Wrap(pc + 2) == pc + 2;
      ReadsHalf(code, pc + 2);
      LowHalf(FetchHalves(code, pc).value, HalfAt(code, pc), HalfAt(code, pc + 2));
    }
  }
}
