/**
 The 32-bit encodings of the instructions, as the listings of chapter 24 of the RISC-V Unprivileged ISA
 20191213 give them, and the proof that the decoder inverts them: it returns an instruction exactly for
 the words that encode it.
 */
module RiscvEncoding {
  import opened RiscvDecode
  import opened RvcExpansion

  /** An instruction by the type of its encoding, with its operands. */
  datatype Layout =
    | R(f7: bv7, rs2: Reg, rs1: Reg, f3: bv3, rd: Reg, opcode: bv7)
    | I(imm: bv32, rs1: Reg, f3: bv3, rd: Reg, opcode: bv7)
    | S(imm: bv32, rs2: Reg, rs1: Reg, f3: bv3, opcode: bv7)
    | B(imm: bv32, rs2: Reg, rs1: Reg, f3: bv3, opcode: bv7)
    | U(imm: bv32, rd: Reg, opcode: bv7)
    | J(imm: bv32, rd: Reg, opcode: bv7)
    | Fixed(word: bv32)

  /** The listing. AMOs have five bits of function in place of the seven, and then the bits `aq` and `rl`. */
  function LayoutOf(op: Op): Layout {
    match op
    case Lui(rd, imm) => U(imm, rd, 0x37)
    case Auipc(rd, imm) => U(imm, rd, 0x17)
    case Jal(rd, imm) => J(imm, rd, 0x6f)
    case Jalr(rd, rs1, imm) => I(imm, rs1, 0, rd, 0x67)
    case Beq(rs1, rs2, imm) => B(imm, rs2, rs1, 0, 0x63)
    case Bne(rs1, rs2, imm) => B(imm, rs2, rs1, 1, 0x63)
    case Blt(rs1, rs2, imm) => B(imm, rs2, rs1, 4, 0x63)
    case Bge(rs1, rs2, imm) => B(imm, rs2, rs1, 5, 0x63)
    case Bltu(rs1, rs2, imm) => B(imm, rs2, rs1, 6, 0x63)
    case Bgeu(rs1, rs2, imm) => B(imm, rs2, rs1, 7, 0x63)
    case Lb(rd, rs1, imm) => I(imm, rs1, 0, rd, 0x03)
    case Lh(rd, rs1, imm) => I(imm, rs1, 1, rd, 0x03)
    case Lw(rd, rs1, imm) => I(imm, rs1, 2, rd, 0x03)
    case Lbu(rd, rs1, imm) => I(imm, rs1, 4, rd, 0x03)
    case Lhu(rd, rs1, imm) => I(imm, rs1, 5, rd, 0x03)
    case Sb(rs1, rs2, imm) => S(imm, rs2, rs1, 0, 0x23)
    case Sh(rs1, rs2, imm) => S(imm, rs2, rs1, 1, 0x23)
    case Sw(rs1, rs2, imm) => S(imm, rs2, rs1, 2, 0x23)
    case Addi(rd, rs1, imm) => I(imm, rs1, 0, rd, 0x13)
    case Slti(rd, rs1, imm) => I(imm, rs1, 2, rd, 0x13)
    case Sltiu(rd, rs1, imm) => I(imm, rs1, 3, rd, 0x13)
    case Xori(rd, rs1, imm) => I(imm, rs1, 4, rd, 0x13)
    case Ori(rd, rs1, imm) => I(imm, rs1, 6, rd, 0x13)
    case Andi(rd, rs1, imm) => I(imm, rs1, 7, rd, 0x13)
    case Slli(rd, rs1, imm) => I(imm & 0x1f, rs1, 1, rd, 0x13)
    case Srli(rd, rs1, imm) => I(imm & 0x1f, rs1, 5, rd, 0x13)
    case Srai(rd, rs1, imm) => I(0x400 | (imm & 0x1f), rs1, 5, rd, 0x13)
    case Add(rd, rs1, rs2) => R(0x00, rs2, rs1, 0, rd, 0x33)
    case Sub(rd, rs1, rs2) => R(0x20, rs2, rs1, 0, rd, 0x33)
    case Sll(rd, rs1, rs2) => R(0x00, rs2, rs1, 1, rd, 0x33)
    case Slt(rd, rs1, rs2) => R(0x00, rs2, rs1, 2, rd, 0x33)
    case Sltu(rd, rs1, rs2) => R(0x00, rs2, rs1, 3, rd, 0x33)
    case Xor(rd, rs1, rs2) => R(0x00, rs2, rs1, 4, rd, 0x33)
    case Srl(rd, rs1, rs2) => R(0x00, rs2, rs1, 5, rd, 0x33)
    case Sra(rd, rs1, rs2) => R(0x20, rs2, rs1, 5, rd, 0x33)
    case Or(rd, rs1, rs2) => R(0x00, rs2, rs1, 6, rd, 0x33)
    case And(rd, rs1, rs2) => R(0x00, rs2, rs1, 7, rd, 0x33)
    case Mul(rd, rs1, rs2) => R(0x01, rs2, rs1, 0, rd, 0x33)
    case Mulh(rd, rs1, rs2) => R(0x01, rs2, rs1, 1, rd, 0x33)
    case Mulhsu(rd, rs1, rs2) => R(0x01, rs2, rs1, 2, rd, 0x33)
    case Mulhu(rd, rs1, rs2) => R(0x01, rs2, rs1, 3, rd, 0x33)
    case Div(rd, rs1, rs2) => R(0x01, rs2, rs1, 4, rd, 0x33)
    case Divu(rd, rs1, rs2) => R(0x01, rs2, rs1, 5, rd, 0x33)
    case Rem(rd, rs1, rs2) => R(0x01, rs2, rs1, 6, rd, 0x33)
    case Remu(rd, rs1, rs2) => R(0x01, rs2, rs1, 7, rd, 0x33)
    case LrW(rd, rs1) => R(0x02 << 2, 0, rs1, 2, rd, 0x2f)
    case ScW(rd, rs1, rs2) => R(0x03 << 2, rs2, rs1, 2, rd, 0x2f)
    case Amo(kind, rd, rs1, rs2) => R((Funct5(kind) as bv7) << 2, rs2, rs1, 2, rd, 0x2f)
    case Fence => Fixed(0x0000_000f)
    case Ecall => Fixed(0x0000_0073)
    case Break => Fixed(0x0010_0073)
    case Unknown => Fixed(0)
  }

  function Funct5(kind: AmoKind): bv5 {
    match kind
    case Swap => 0x01
    case AddTo => 0x00
    case XorTo => 0x04
    case AndTo => 0x0c
    case OrTo => 0x08
    case MinOf => 0x10
    case MaxOf => 0x14
    case MinuOf => 0x18
    case MaxuOf => 0x1c
  }

  function Assembled(l: Layout): bv32 {
    match l
    case R(f7, rs2, rs1, f3, rd, opcode) => RType(f7 as bv32, rs2, rs1, f3 as bv32, rd, opcode as bv32)
    case I(imm, rs1, f3, rd, opcode) => IType(imm, rs1, f3 as bv32, rd, opcode as bv32)
    case S(imm, rs2, rs1, f3, opcode) => SType(imm, rs2, rs1, f3 as bv32, opcode as bv32)
    case B(imm, rs2, rs1, f3, opcode) => BType(imm, rs2, rs1, f3 as bv32, opcode as bv32)
    case U(imm, rd, opcode) => UType(imm, rd, opcode as bv32)
    case J(imm, rd, opcode) => JType(imm, rd, opcode as bv32)
    case Fixed(word) => word
  }

  /** The word of an instruction, with zeros in the fields that execution ignores. */
  function Encoded(op: Op): bv32 {
    Assembled(LayoutOf(op))
  }

  /** The bits of a word that the decoder looks at: not `aq` and `rl`, and of a fence only the opcode and funct3. */
  function Relevant(op: Op): bv32 {
    if op.Fence? then 0x0000_707f
    else if op.LrW? || op.ScW? || op.Amo? then 0xf9ff_ffff
    else 0xffff_ffff
  }

  /** The immediate fits the format. */
  predicate Fits(l: Layout) {
    match l
    case I(imm, _, _, _, _) => imm == SignExtend(imm & 0xfff, 12)
    case S(imm, _, _, _, _) => imm == SignExtend(imm & 0xfff, 12)
    case B(imm, _, _, _, _) => imm == SignExtend(imm & 0x1ffe, 13)
    case J(imm, _, _) => imm == SignExtend(imm & 0x1f_fffe, 21)
    case U(imm, _, _) => imm & 0xfff == 0
    case _ => true
  }

  /** Shift amounts have five bits; decoding leaves bit 10, which marks `Srai`, in its immediate. */
  predicate Encodable(op: Op) {
    if op.Slli? || op.Srli? then op.imm < 32
    else if op.Srai? then op.imm & 0xffff_ffe0 == 0x400
    else !op.Unknown? && Fits(LayoutOf(op))
  }

  // ---------------------------------------------------------------------------------------
  // Taking words apart
  // ---------------------------------------------------------------------------------------

  function Opcode(i: bv32): bv7 {
    (i & 0x7f) as bv7
  }

  function Function3(i: bv32): bv3 {
    ((i >> 12) & 0x7) as bv3
  }

  function Function7(i: bv32): bv7 {
    (i >> 25) as bv7
  }

  /** The parts of a word, read as each of the types. */
  function PartsR(i: bv32): Layout {
    R(Function7(i), Rs2(i), Rs1(i), Function3(i), Rd(i), Opcode(i))
  }

  function PartsI(i: bv32): Layout {
    I(IImm(i), Rs1(i), Function3(i), Rd(i), Opcode(i))
  }

  function PartsS(i: bv32): Layout {
    S(SImm(i), Rs2(i), Rs1(i), Function3(i), Opcode(i))
  }

  function PartsB(i: bv32): Layout {
    B(BImm(i), Rs2(i), Rs1(i), Function3(i), Opcode(i))
  }

  function PartsU(i: bv32): Layout {
    U(UImm(i), Rd(i), Opcode(i))
  }

  function PartsJ(i: bv32): Layout {
    J(JImm(i), Rd(i), Opcode(i))
  }

  /** The parts make up the word again, and their immediates fit. */
  lemma JoinR(i: bv32)
    ensures Assembled(PartsR(i)) == i
  {
  }

  /** The immediate of type I, without its sign. */
  lemma LowI(i: bv32) returns (low: bv32)
    ensures low == i >> 20 && low & 0xfff == low
    ensures i & 0xfff0_0000 == (low & 0xfff) << 20
  {
    low := i >> 20;
  }

  lemma ExtendedI(low: bv32, imm: bv32)
    requires low & 0xfff == low && imm == SignExtend(low & 0xfff, 12)
    ensures imm & 0xfff == low && imm == SignExtend(imm & 0xfff, 12)
  {
    if low & 0x800 == 0 {
      assert imm == low;
    } else {
      assert imm == low | 0xffff_f000;
    }
  }

  lemma WholeI(i: bv32, imm: bv32, low: bv32)
    requires imm & 0xfff == low && low == i >> 20
    ensures Assembled(I(imm, Rs1(i), Function3(i), Rd(i), Opcode(i))) == i
  {
  }

  lemma JoinI(i: bv32)
    ensures Assembled(PartsI(i)) == i && IImm(i) == SignExtend(IImm(i) & 0xfff, 12)
  {
    var low := LowI(i);
    IImmDecoded(low, i);
    ExtendedI(low, IImm(i));
    WholeI(i, IImm(i), low);
  }

  /** The immediate of type S, without its sign. */
  lemma LowS(i: bv32) returns (low: bv32)
    ensures low == ((i >> 20) & 0xfe0) | ((i >> 7) & 0x1f) && low & 0xfff == low
    ensures i & 0xfe00_0000 == (low & 0xfe0) << 20 && i & 0xf80 == (low & 0x1f) << 7
  {
    low := ((i >> 20) & 0xfe0) | ((i >> 7) & 0x1f);
  }

  lemma ExtendedS(low: bv32, imm: bv32)
    requires low & 0xfff == low && imm == SignExtend(low & 0xfff, 12)
    ensures imm & 0xfff == low && imm == SignExtend(imm & 0xfff, 12)
  {
    if low & 0x800 == 0 {
      assert imm == low;
    } else {
      assert imm == low | 0xffff_f000;
    }
  }

  lemma WholeS(i: bv32, imm: bv32, low: bv32)
    requires imm & 0xfff == low && low == ((i >> 20) & 0xfe0) | ((i >> 7) & 0x1f)
    ensures Assembled(S(imm, Rs2(i), Rs1(i), Function3(i), Opcode(i))) == i
  {
  }

  lemma JoinS(i: bv32)
    ensures Assembled(PartsS(i)) == i && SImm(i) == SignExtend(SImm(i) & 0xfff, 12)
  {
    var low := LowS(i);
    SImmDecoded(low, i);
    ExtendedS(low, SImm(i));
    WholeS(i, SImm(i), low);
  }

  /** The immediate of type B, without its sign. */
  lemma LowB(i: bv32) returns (low: bv32)
    ensures low == ((i >> 19) & 0x1000) | ((i << 4) & 0x800) | ((i >> 20) & 0x7e0) | ((i >> 7) & 0x1e)
    ensures low & 0x1ffe == low
    ensures i & 0x8000_0000 == (low & 0x1000) << 19 && i & 0x7e00_0000 == (low & 0x7e0) << 20
    ensures i & 0xf00 == (low & 0x1e) << 7 && i & 0x80 == (low & 0x800) >> 4
  {
    low := ((i >> 19) & 0x1000) | ((i << 4) & 0x800) | ((i >> 20) & 0x7e0) | ((i >> 7) & 0x1e);
  }

  lemma ExtendedB(low: bv32, imm: bv32)
    requires low & 0x1ffe == low && imm == SignExtend(low & 0x1ffe, 13)
    ensures imm & 0x1ffe == low && imm == SignExtend(imm & 0x1ffe, 13)
  {
    if low & 0x1000 == 0 {
      assert imm == low;
    } else {
      assert imm == low | 0xffff_e000;
    }
  }

  lemma WholeB(i: bv32, imm: bv32, low: bv32)
    requires imm & 0x1ffe == low
    requires low == ((i >> 19) & 0x1000) | ((i << 4) & 0x800) | ((i >> 20) & 0x7e0) | ((i >> 7) & 0x1e)
    ensures Assembled(B(imm, Rs2(i), Rs1(i), Function3(i), Opcode(i))) == i
  {
  }

  lemma JoinB(i: bv32)
    ensures Assembled(PartsB(i)) == i && BImm(i) == SignExtend(BImm(i) & 0x1ffe, 13)
  {
    var low := LowB(i);
    BImmDecoded(low, i);
    ExtendedB(low, BImm(i));
    WholeB(i, BImm(i), low);
  }

  lemma JoinU(i: bv32)
    ensures Assembled(PartsU(i)) == i && UImm(i) & 0xfff == 0
  {
  }

  /** The immediate of type J, without its sign. */
  function LowJ(i: bv32): bv32 {
    ((i >> 11) & 0x10_0000) | (i & 0xf_f000) | ((i >> 9) & 0x800) | ((i >> 20) & 0x7fe)
  }

  lemma LowJOuter(i: bv32)
    ensures i & 0x8000_0000 == (LowJ(i) & 0x10_0000) << 11 && i & 0x7fe0_0000 == (LowJ(i) & 0x7fe) << 20
  {
  }

  lemma LowJInner(i: bv32)
    ensures i & 0x10_0000 == (LowJ(i) & 0x800) << 9 && i & 0xf_f000 == LowJ(i) & 0xf_f000
    ensures LowJ(i) & 0x1f_fffe == LowJ(i)
  {
  }

  lemma PositiveJ(low: bv32)
    requires low & 0x1f_fffe == low && low & 0x10_0000 == 0
    ensures SignExtend(low, 21) == low
  {
  }

  lemma NegativeJ(low: bv32)
    requires low & 0x1f_fffe == low && low & 0x10_0000 != 0
    ensures SignExtend(low, 21) == low | 0xffe0_0000
  {
  }

  lemma MaskedJ(low: bv32)
    requires low & 0x1f_fffe == low
    ensures (low | 0xffe0_0000) & 0x1f_fffe == low
  {
  }

  lemma ExtendedJ(low: bv32, imm: bv32)
    requires low & 0x1f_fffe == low && imm == SignExtend(low, 21)
    ensures imm & 0x1f_fffe == low
  {
    if low & 0x10_0000 == 0 {
      PositiveJ(low);
    } else {
      NegativeJ(low);
      MaskedJ(low);
    }
  }

  lemma WholeJ(i: bv32, imm: bv32)
    requires imm & 0x1f_fffe == LowJ(i)
    ensures Assembled(J(imm, Rd(i), Opcode(i))) == i
  {
  }

  lemma FitsJ(i: bv32, low: bv32, imm: bv32)
    requires low == LowJ(i) && imm == JImm(i)
    ensures imm & 0x1f_fffe == low && imm == SignExtend(low, 21)
  {
    LowJOuter(i);
    LowJInner(i);
    JImmDecoded(low, i);
    ExtendedJ(low, imm);
  }

  lemma JoinJ(i: bv32)
    ensures Assembled(PartsJ(i)) == i && JImm(i) == SignExtend(JImm(i) & 0x1f_fffe, 21)
  {
    FitsJ(i, LowJ(i), JImm(i));
    WholeJ(i, JImm(i));
  }

  /** Taking apart what was put together gives the parts back. */
  lemma SplitR(f7: bv7, rs2: Reg, rs1: Reg, f3: bv3, rd: Reg, opcode: bv7, l: Layout, i: bv32)
    requires l == R(f7, rs2, rs1, f3, rd, opcode) && i == Assembled(l) && Fits(l)
    ensures PartsR(i) == l
  {
  }

  lemma TakeApartR(l: Layout, i: bv32)
    requires l.R? && i == Assembled(l) && Fits(l)
    ensures PartsR(i) == l
  {
    var R(f7, rs2, rs1, f3, rd, opcode) := l;
    SplitR(f7, rs2, rs1, f3, rd, opcode, l, i);
  }

  lemma SplitI(imm: bv32, rs1: Reg, f3: bv3, rd: Reg, opcode: bv7, i: bv32)
    requires i == IType(imm, rs1, f3 as bv32, rd, opcode as bv32) && imm == SignExtend(imm & 0xfff, 12)
    ensures PartsI(i) == I(imm, rs1, f3, rd, opcode)
  {
    IFields(imm, rs1, f3 as bv32, rd, opcode as bv32);
    IImmDecoded(imm, i);
  }

  lemma TakeApartI(l: Layout, i: bv32)
    requires l.I? && i == Assembled(l) && Fits(l)
    ensures PartsI(i) == l
  {
    var I(imm, rs1, f3, rd, opcode) := l;
    SplitI(imm, rs1, f3, rd, opcode, i);
  }

  lemma SplitS(imm: bv32, rs2: Reg, rs1: Reg, f3: bv3, opcode: bv7, i: bv32)
    requires i == SType(imm, rs2, rs1, f3 as bv32, opcode as bv32) && imm == SignExtend(imm & 0xfff, 12)
    ensures PartsS(i) == S(imm, rs2, rs1, f3, opcode)
  {
    SFields(imm, rs2, rs1, f3 as bv32, opcode as bv32);
    SImmDecoded(imm, i);
  }

  lemma TakeApartS(l: Layout, i: bv32)
    requires l.S? && i == Assembled(l) && Fits(l)
    ensures PartsS(i) == l
  {
    var S(imm, rs2, rs1, f3, opcode) := l;
    SplitS(imm, rs2, rs1, f3, opcode, i);
  }

  lemma SplitB(imm: bv32, rs2: Reg, rs1: Reg, f3: bv3, opcode: bv7, i: bv32)
    requires i == BType(imm, rs2, rs1, f3 as bv32, opcode as bv32) && imm == SignExtend(imm & 0x1ffe, 13)
    ensures PartsB(i) == B(imm, rs2, rs1, f3, opcode)
  {
    BFields(imm, rs2, rs1, f3 as bv32, opcode as bv32);
    BImmDecoded(imm, i);
  }

  lemma TakeApartB(l: Layout, i: bv32)
    requires l.B? && i == Assembled(l) && Fits(l)
    ensures PartsB(i) == l
  {
    var B(imm, rs2, rs1, f3, opcode) := l;
    SplitB(imm, rs2, rs1, f3, opcode, i);
  }

  lemma SplitU(imm: bv32, rd: Reg, opcode: bv7, l: Layout, i: bv32)
    requires l == U(imm, rd, opcode) && i == Assembled(l) && Fits(l)
    ensures PartsU(i) == l
  {
  }

  lemma TakeApartU(l: Layout, i: bv32)
    requires l.U? && i == Assembled(l) && Fits(l)
    ensures PartsU(i) == l
  {
    var U(imm, rd, opcode) := l;
    SplitU(imm, rd, opcode, l, i);
  }

  lemma SplitJ(imm: bv32, rd: Reg, opcode: bv7, i: bv32)
    requires i == JType(imm, rd, opcode as bv32) && imm == SignExtend(imm & 0x1f_fffe, 21)
    ensures PartsJ(i) == J(imm, rd, opcode)
  {
    JFields(imm, rd, opcode as bv32);
    JImmDecoded(imm, i);
  }

  lemma FieldsOfJ(imm: bv32, rd: Reg, opcode: bv7, l: Layout, i: bv32)
    requires l == J(imm, rd, opcode) && i == Assembled(l) && Fits(l)
    ensures i == JType(imm, rd, opcode as bv32) && imm == SignExtend(imm & 0x1f_fffe, 21)
  {
  }

  lemma TakeApartJ(l: Layout, i: bv32)
    requires l.J? && i == Assembled(l) && Fits(l)
    ensures PartsJ(i) == l
  {
    var J(imm, rd, opcode) := l;
    FieldsOfJ(imm, rd, opcode, l, i);
    SplitJ(imm, rd, opcode, i);
  }

  // ---------------------------------------------------------------------------------------
  // The decoder against the listing, type by type
  // ---------------------------------------------------------------------------------------

  lemma SumsDecode(op: Op, i: bv32)
    requires (op.Add? || op.Sub? || op.Sll?) && LayoutOf(op) == PartsR(i)
    ensures DecodeUncompressed(i) == op
  {
  }

  lemma OrdersDecode(op: Op, i: bv32)
    requires (op.Slt? || op.Sltu? || op.Xor?) && LayoutOf(op) == PartsR(i)
    ensures DecodeUncompressed(i) == op
  {
  }

  lemma ShiftsDecode(op: Op, i: bv32)
    requires (op.Srl? || op.Sra?) && LayoutOf(op) == PartsR(i)
    ensures DecodeUncompressed(i) == op
  {
  }

  lemma LogicDecode(op: Op, i: bv32)
    requires (op.Or? || op.And?) && LayoutOf(op) == PartsR(i)
    ensures DecodeUncompressed(i) == op
  {
  }

  lemma ProductsDecode(op: Op, i: bv32)
    requires (op.Mul? || op.Mulh? || op.Mulhsu? || op.Mulhu?) && LayoutOf(op) == PartsR(i)
    ensures DecodeUncompressed(i) == op
  {
  }

  lemma QuotientsDecode(op: Op, i: bv32)
    requires (op.Div? || op.Divu?) && LayoutOf(op) == PartsR(i)
    ensures DecodeUncompressed(i) == op
  {
  }

  lemma RemaindersDecode(op: Op, i: bv32)
    requires (op.Rem? || op.Remu?) && LayoutOf(op) == PartsR(i)
    ensures DecodeUncompressed(i) == op
  {
  }

  lemma SignedBranchesDecode(op: Op, i: bv32)
    requires (op.Beq? || op.Bne? || op.Blt? || op.Bge?) && LayoutOf(op) == PartsB(i)
    ensures DecodeUncompressed(i) == op
  {
  }

  lemma UnsignedBranchesDecode(op: Op, i: bv32)
    requires (op.Bltu? || op.Bgeu?) && LayoutOf(op) == PartsB(i)
    ensures DecodeUncompressed(i) == op
  {
  }

  lemma SignedLoadsDecode(op: Op, i: bv32)
    requires (op.Lb? || op.Lh? || op.Lw?) && LayoutOf(op) == PartsI(i)
    ensures DecodeUncompressed(i) == op
  {
  }

  lemma UnsignedLoadsDecode(op: Op, i: bv32)
    requires (op.Lbu? || op.Lhu? || op.Jalr?) && LayoutOf(op) == PartsI(i)
    ensures DecodeUncompressed(i) == op
  {
  }

  lemma StoresDecode(op: Op, i: bv32)
    requires IsStore(op) && LayoutOf(op) == PartsS(i)
    ensures DecodeUncompressed(i) == op
  {
  }

  lemma ComparisonsDecode(op: Op, i: bv32)
    requires (op.Addi? || op.Slti? || op.Sltiu?) && LayoutOf(op) == PartsI(i)
    ensures DecodeUncompressed(i) == op
  {
  }

  lemma BitsDecode(op: Op, i: bv32)
    requires (op.Xori? || op.Ori? || op.Andi?) && LayoutOf(op) == PartsI(i)
    ensures DecodeUncompressed(i) == op
  {
  }

  lemma UppersDecode(op: Op, i: bv32)
    requires IsUpper(op) && LayoutOf(op) == PartsU(i)
    ensures DecodeUncompressed(i) == op
  {
  }

  lemma JalDecodes(op: Op, i: bv32)
    requires op.Jal? && LayoutOf(op) == PartsJ(i)
    ensures DecodeUncompressed(i) == op
  {
  }

  /** Shifts by an immediate carry their funct7 in it. */
  lemma SlliDecodes(op: Op, i: bv32)
    requires op.Slli? && op.imm < 32 && LayoutOf(op) == PartsI(i)
    ensures DecodeUncompressed(i) == op
  {
  }

  lemma SrliDecodes(op: Op, i: bv32)
    requires op.Srli? && op.imm < 32 && LayoutOf(op) == PartsI(i)
    ensures DecodeUncompressed(i) == op
  {
  }

  lemma SraiDecodes(op: Op, i: bv32)
    requires op.Srai? && op.imm & 0xffff_ffe0 == 0x400 && LayoutOf(op) == PartsI(i)
    ensures DecodeUncompressed(i) == op
  {
  }

  lemma EcallWord()
    ensures DecodeUncompressed(0x0000_0073) == Ecall
  {
  }

  lemma BreakWord()
    ensures DecodeUncompressed(0x0010_0073) == Break
  {
  }

  lemma FenceWords(i: bv32)
    requires i & 0x707f == 0x0000_000f
    ensures DecodeUncompressed(i) == Fence
  {
  }

  /** The five bits of function of an atomic. */
  function Function5(i: bv32): bv5 {
    (i >> 27) as bv5
  }

  /** A word without the bits `aq` and `rl`. */
  function WithoutOrder(i: bv32): bv32 {
    i & 0xf9ff_ffff
  }

  function UnorderedParts(i: bv32): Layout {
    R((Function5(i) as bv7) << 2, Rs2(i), Rs1(i), Function3(i), Rd(i), Opcode(i))
  }

  lemma OrderIgnored(i: bv32)
    ensures PartsR(WithoutOrder(i)) == UnorderedParts(i)
  {
  }

  lemma LrDecodes(op: Op, i: bv32)
    requires op.LrW? && LayoutOf(op) == UnorderedParts(i)
    ensures DecodeUncompressed(i) == op
  {
  }

  lemma ScDecodes(op: Op, i: bv32)
    requires op.ScW? && LayoutOf(op) == UnorderedParts(i)
    ensures DecodeUncompressed(i) == op
  {
  }

  lemma AmoDecodes(op: Op, i: bv32)
    requires op.Amo? && op.kind in {Swap, AddTo, XorTo, AndTo, OrTo} && LayoutOf(op) == UnorderedParts(i)
    ensures DecodeUncompressed(i) == op
  {
  }

  lemma OrderAmoDecodes(op: Op, i: bv32)
    requires op.Amo? && op.kind in {MinOf, MaxOf, MinuOf, MaxuOf} && LayoutOf(op) == UnorderedParts(i)
    ensures DecodeUncompressed(i) == op
  {
  }

  lemma ExchangesAreR(i: bv32, op: Op)
    requires op == DecodeAtomic(i) && op != Unknown && i & 0x707f == 0x202f && Function5(i) < 2
    ensures IsAtomic(op) && LayoutOf(op) == UnorderedParts(i)
  {
  }

  lemma LinksAreR(i: bv32, op: Op)
    requires op == DecodeAtomic(i) && op != Unknown && i & 0x707f == 0x202f && 2 <= Function5(i) < 4
    ensures IsAtomic(op) && LayoutOf(op) == UnorderedParts(i)
  {
  }

  lemma BitwiseAmosAreR(i: bv32, op: Op)
    requires op == DecodeAtomic(i) && op != Unknown && i & 0x707f == 0x202f && 4 <= Function5(i) < 0x10
    ensures IsAtomic(op) && LayoutOf(op) == UnorderedParts(i)
  {
  }

  lemma OrderAmosAreR(i: bv32, op: Op)
    requires op == DecodeAtomic(i) && op != Unknown && i & 0x707f == 0x202f && Function5(i) >= 0x10
    ensures IsAtomic(op) && LayoutOf(op) == UnorderedParts(i)
  {
  }

  lemma SumsAreR(i: bv32, op: Op)
    requires op == DecodeRegister(i) && op != Unknown && i & 0x7f == 0x33
    requires Function7(i) != 1 && Function3(i) < 4
    ensures IsRegister(op) && LayoutOf(op) == PartsR(i)
  {
  }

  lemma LogicIsR(i: bv32, op: Op)
    requires op == DecodeRegister(i) && op != Unknown && i & 0x7f == 0x33
    requires Function7(i) != 1 && Function3(i) >= 4
    ensures IsRegister(op) && LayoutOf(op) == PartsR(i)
  {
  }

  lemma ProductsAreR(i: bv32, op: Op)
    requires op == DecodeRegister(i) && op != Unknown && i & 0x7f == 0x33
    requires Function7(i) == 1
    ensures IsRegister(op) && LayoutOf(op) == PartsR(i)
  {
  }

  lemma BranchesAreB(i: bv32, op: Op)
    requires op == DecodeBranch(i) && op != Unknown && i & 0x7f == 0x63
    ensures IsBranch(op) && LayoutOf(op) == PartsB(i)
  {
  }

  lemma NarrowLoadsAreI(i: bv32, op: Op)
    requires op == DecodeLoad(i) && op != Unknown && i & 0x7f == 0x03 && Function3(i) < 2
    ensures IsOffset(op) && LayoutOf(op) == PartsI(i)
  {
  }

  lemma OtherLoadsAreI(i: bv32, op: Op)
    requires op == DecodeLoad(i) && op != Unknown && i & 0x7f == 0x03 && Function3(i) >= 2
    ensures IsOffset(op) && LayoutOf(op) == PartsI(i)
  {
  }

  lemma ComparisonsAreI(i: bv32, op: Op)
    requires op == DecodeImmediate(i) && op != Unknown && i & 0x7f == 0x13 && Function3(i) in {0, 2, 3}
    ensures IsImmediate(op) && LayoutOf(op) == PartsI(i)
  {
  }

  lemma BitsAreI(i: bv32, op: Op)
    requires op == DecodeImmediate(i) && op != Unknown && i & 0x7f == 0x13 && Function3(i) in {4, 6, 7}
    ensures IsImmediate(op) && LayoutOf(op) == PartsI(i)
  {
  }

  lemma LeftShiftsAreI(i: bv32, op: Op)
    requires op == DecodeImmediate(i) && op != Unknown && i & 0x7f == 0x13 && Function3(i) == 1
    ensures IsShift(op) && Encodable(op) && LayoutOf(op) == PartsI(i)
  {
  }

  lemma RightShiftsAreI(i: bv32, op: Op)
    requires op == DecodeImmediate(i) && op != Unknown && i & 0x7f == 0x13 && Function3(i) == 5
    ensures IsShift(op) && Encodable(op) && LayoutOf(op) == PartsI(i)
  {
  }

  // ---------------------------------------------------------------------------------------
  // The decoder against the listing
  // ---------------------------------------------------------------------------------------

  lemma ShiftFits(op: Op)
    requires IsShift(op) && Encodable(op)
    ensures Fits(LayoutOf(op))
  {
  }

  lemma EncodableFits(op: Op)
    requires Encodable(op)
    ensures Fits(LayoutOf(op))
  {
    if IsShift(op) {
      ShiftFits(op);
    }
  }

  predicate IsRegister(op: Op) {
    || op.Add? || op.Sub? || op.Sll? || op.Slt? || op.Sltu? || op.Xor? || op.Srl? || op.Sra? || op.Or? || op.And?
    || op.Mul? || op.Mulh? || op.Mulhsu? || op.Mulhu? || op.Div? || op.Divu? || op.Rem? || op.Remu?
  }

  predicate IsBranch(op: Op) {
    op.Beq? || op.Bne? || op.Blt? || op.Bge? || op.Bltu? || op.Bgeu?
  }

  predicate IsAtomic(op: Op) {
    op.LrW? || op.ScW? || op.Amo?
  }

  predicate IsOffset(op: Op) {
    op.Lb? || op.Lh? || op.Lw? || op.Lbu? || op.Lhu? || op.Jalr?
  }

  predicate IsImmediate(op: Op) {
    op.Addi? || op.Slti? || op.Sltiu? || op.Xori? || op.Ori? || op.Andi?
  }

  predicate IsStore(op: Op) {
    op.Sb? || op.Sh? || op.Sw?
  }

  predicate IsUpper(op: Op) {
    op.Lui? || op.Auipc?
  }

  predicate IsShift(op: Op) {
    op.Slli? || op.Srli? || op.Srai?
  }

  /** The word has the encoding of the instruction, and anything in the ignored fields. */
  predicate Encodes(i: bv32, op: Op) {
    Encodable(op) && i & Relevant(op) == Encoded(op)
  }

  lemma WholeWord(i: bv32)
    ensures i & 0xffff_ffff == i
  {
  }

  lemma NothingIgnored(op: Op, i: bv32)
    requires !op.Fence? && !IsAtomic(op)
    ensures i & Relevant(op) == Encoded(op) <==> i == Assembled(LayoutOf(op))
  {
    WholeWord(i);
  }

  /** Every bit of the encoding counts. */
  predicate IsPlain(op: Op) {
    !op.Fence? && !IsAtomic(op) && !op.Unknown?
  }

  /** The type of the encoding of each instruction. */
  lemma RegisterLayout(op: Op)
    requires IsRegister(op)
    ensures LayoutOf(op).R? && IsPlain(op) && !IsShift(op)
  {
  }

  lemma AtomicLayout(op: Op)
    requires IsAtomic(op)
    ensures LayoutOf(op).R?
  {
  }

  lemma OffsetLayout(op: Op)
    requires IsOffset(op)
    ensures LayoutOf(op).I? && IsPlain(op) && !IsShift(op)
  {
  }

  lemma ImmediateLayout(op: Op)
    requires IsImmediate(op)
    ensures LayoutOf(op).I? && IsPlain(op) && !IsShift(op)
  {
  }

  lemma ShiftLayout(op: Op)
    requires IsShift(op)
    ensures LayoutOf(op).I? && IsPlain(op)
  {
  }

  lemma StoreLayout(op: Op)
    requires IsStore(op)
    ensures LayoutOf(op).S? && IsPlain(op) && !IsShift(op)
  {
  }

  lemma BranchLayout(op: Op)
    requires IsBranch(op)
    ensures LayoutOf(op).B? && IsPlain(op) && !IsShift(op)
  {
  }

  lemma UpperLayout(op: Op)
    requires IsUpper(op)
    ensures LayoutOf(op).U? && IsPlain(op) && !IsShift(op)
  {
  }

  lemma JumpLayout(op: Op)
    requires op.Jal?
    ensures LayoutOf(op).J? && IsPlain(op) && !IsShift(op)
  {
  }

  lemma LayoutAssembles(op: Op, i: bv32, l: Layout)
    requires IsPlain(op) && Encodes(i, op) && l == LayoutOf(op)
    ensures i == Assembled(l) && Fits(l)
  {
    EncodableFits(op);
    NothingIgnored(op, i);
  }

  lemma RegisterParts(op: Op, i: bv32)
    requires IsRegister(op) && Encodes(i, op)
    ensures LayoutOf(op) == PartsR(i)
  {
    var l := LayoutOf(op);
    RegisterLayout(op);
    LayoutAssembles(op, i, l);
    TakeApartR(l, i);
  }

  lemma BranchParts(op: Op, i: bv32)
    requires IsBranch(op) && Encodes(i, op)
    ensures LayoutOf(op) == PartsB(i)
  {
    var l := LayoutOf(op);
    BranchLayout(op);
    LayoutAssembles(op, i, l);
    TakeApartB(l, i);
  }

  lemma OffsetParts(op: Op, i: bv32)
    requires IsOffset(op) && Encodes(i, op)
    ensures LayoutOf(op) == PartsI(i)
  {
    var l := LayoutOf(op);
    OffsetLayout(op);
    LayoutAssembles(op, i, l);
    TakeApartI(l, i);
  }

  lemma ImmediateParts(op: Op, i: bv32)
    requires IsImmediate(op) && Encodes(i, op)
    ensures LayoutOf(op) == PartsI(i)
  {
    var l := LayoutOf(op);
    ImmediateLayout(op);
    LayoutAssembles(op, i, l);
    TakeApartI(l, i);
  }

  lemma ShiftParts(op: Op, i: bv32)
    requires IsShift(op) && Encodes(i, op)
    ensures LayoutOf(op) == PartsI(i)
  {
    var l := LayoutOf(op);
    ShiftLayout(op);
    LayoutAssembles(op, i, l);
    TakeApartI(l, i);
  }

  lemma StoreParts(op: Op, i: bv32)
    requires IsStore(op) && Encodes(i, op)
    ensures LayoutOf(op) == PartsS(i)
  {
    var l := LayoutOf(op);
    StoreLayout(op);
    LayoutAssembles(op, i, l);
    TakeApartS(l, i);
  }

  lemma UpperParts(op: Op, i: bv32)
    requires IsUpper(op) && Encodes(i, op)
    ensures LayoutOf(op) == PartsU(i)
  {
    var l := LayoutOf(op);
    UpperLayout(op);
    LayoutAssembles(op, i, l);
    TakeApartU(l, i);
  }

  lemma JumpParts(op: Op, i: bv32)
    requires op.Jal? && Encodes(i, op)
    ensures LayoutOf(op) == PartsJ(i)
  {
    var l := LayoutOf(op);
    JumpLayout(op);
    LayoutAssembles(op, i, l);
    TakeApartJ(l, i);
  }

  lemma RegisterDecodes(op: Op, i: bv32)
    requires IsRegister(op) && Encodes(i, op)
    ensures DecodeUncompressed(i) == op
  {
    RegisterParts(op, i);
    if op.Add? || op.Sub? || op.Sll? {
      SumsDecode(op, i);
    } else if op.Slt? || op.Sltu? || op.Xor? {
      OrdersDecode(op, i);
    } else if op.Srl? || op.Sra? {
      ShiftsDecode(op, i);
    } else if op.Or? || op.And? {
      LogicDecode(op, i);
    } else if op.Mul? || op.Mulh? || op.Mulhsu? || op.Mulhu? {
      ProductsDecode(op, i);
    } else if op.Div? || op.Divu? {
      QuotientsDecode(op, i);
    } else {
      RemaindersDecode(op, i);
    }
  }

  lemma OffsetDecodes(op: Op, i: bv32)
    requires IsOffset(op) && Encodes(i, op)
    ensures DecodeUncompressed(i) == op
  {
    OffsetParts(op, i);
    if op.Lb? || op.Lh? || op.Lw? {
      SignedLoadsDecode(op, i);
    } else {
      UnsignedLoadsDecode(op, i);
    }
  }

  lemma ImmediateDecodes(op: Op, i: bv32)
    requires IsImmediate(op) && Encodes(i, op)
    ensures DecodeUncompressed(i) == op
  {
    ImmediateParts(op, i);
    if op.Addi? || op.Slti? || op.Sltiu? {
      ComparisonsDecode(op, i);
    } else {
      BitsDecode(op, i);
    }
  }

  lemma ShiftDecodes(op: Op, i: bv32)
    requires IsShift(op) && Encodes(i, op)
    ensures DecodeUncompressed(i) == op
  {
    ShiftParts(op, i);
    if op.Slli? {
      SlliDecodes(op, i);
    } else if op.Srli? {
      SrliDecodes(op, i);
    } else {
      SraiDecodes(op, i);
    }
  }

  lemma BranchDecodes(op: Op, i: bv32)
    requires IsBranch(op) && Encodes(i, op)
    ensures DecodeUncompressed(i) == op
  {
    BranchParts(op, i);
    if op.Bltu? || op.Bgeu? {
      UnsignedBranchesDecode(op, i);
    } else {
      SignedBranchesDecode(op, i);
    }
  }

  lemma AtomicAssembles(op: Op, i: bv32)
    requires IsAtomic(op)
    ensures Encodes(i, op) <==> WithoutOrder(i) == Encoded(op)
  {
    AtomicLayout(op);
  }

  lemma AtomicParts(op: Op, i: bv32)
    requires IsAtomic(op) && Encodes(i, op)
    ensures LayoutOf(op) == UnorderedParts(i)
  {
    var l := LayoutOf(op);
    AtomicLayout(op);
    AtomicAssembles(op, i);
    TakeApartR(l, WithoutOrder(i));
    OrderIgnored(i);
  }

  lemma AtomicDecodes(op: Op, i: bv32)
    requires IsAtomic(op) && Encodes(i, op)
    ensures DecodeUncompressed(i) == op
  {
    AtomicParts(op, i);
    if op.LrW? {
      LrDecodes(op, i);
    } else if op.ScW? {
      ScDecodes(op, i);
    } else if op.kind in {MinOf, MaxOf, MinuOf, MaxuOf} {
      OrderAmoDecodes(op, i);
    } else {
      AmoDecodes(op, i);
    }
  }

  lemma OtherDecodes(op: Op, i: bv32)
    requires (IsStore(op) || IsUpper(op) || op.Jal?) && Encodes(i, op)
    ensures DecodeUncompressed(i) == op
  {
    if op.Jal? {
      JumpParts(op, i);
      JalDecodes(op, i);
    } else if IsUpper(op) {
      UpperParts(op, i);
      UppersDecode(op, i);
    } else {
      StoreParts(op, i);
      StoresDecode(op, i);
    }
  }

  lemma FenceDecodes(op: Op, i: bv32)
    requires op.Fence? && Encodes(i, op)
    ensures DecodeUncompressed(i) == op
  {
    FenceWords(i);
  }

  lemma FixedAre(op: Op, i: bv32)
    requires (op.Ecall? || op.Break?) && Encodes(i, op)
    ensures i == if op.Ecall? then 0x0000_0073 else 0x0010_0073
  {
    WholeWord(i);
  }

  lemma FixedDecode(op: Op, i: bv32)
    requires (op.Ecall? || op.Break?) && Encodes(i, op)
    ensures DecodeUncompressed(i) == op
  {
    FixedAre(op, i);
    EcallWord();
    BreakWord();
  }

  /** Every word with the encoding of an instruction, whatever its ignored fields are, decodes to it. */
  lemma EncodedDecodes(op: Op, i: bv32)
    requires Encodes(i, op)
    ensures DecodeUncompressed(i) == op
  {
    if IsRegister(op) {
      RegisterDecodes(op, i);
    } else if IsBranch(op) {
      BranchDecodes(op, i);
    } else if IsOffset(op) {
      OffsetDecodes(op, i);
    } else if IsImmediate(op) {
      ImmediateDecodes(op, i);
    } else if IsShift(op) {
      ShiftDecodes(op, i);
    } else if IsAtomic(op) {
      AtomicDecodes(op, i);
    } else if op.Fence? {
      FenceDecodes(op, i);
    } else if op.Ecall? || op.Break? {
      FixedDecode(op, i);
    } else {
      OtherDecodes(op, i);
    }
  }

  // ---------------------------------------------------------------------------------------
  // The listing against the decoder
  // ---------------------------------------------------------------------------------------

  lemma JoinedR(i: bv32, l: Layout)
    requires l == PartsR(i)
    ensures Assembled(l) == i && Fits(l)
  {
    JoinR(i);
  }

  lemma JoinedI(i: bv32, l: Layout)
    requires l == PartsI(i)
    ensures Assembled(l) == i && Fits(l)
  {
    JoinI(i);
  }

  lemma JoinedS(i: bv32, l: Layout)
    requires l == PartsS(i)
    ensures Assembled(l) == i && Fits(l)
  {
    JoinS(i);
  }

  lemma JoinedB(i: bv32, l: Layout)
    requires l == PartsB(i)
    ensures Assembled(l) == i && Fits(l)
  {
    JoinB(i);
  }

  lemma JoinedU(i: bv32, l: Layout)
    requires l == PartsU(i)
    ensures Assembled(l) == i && Fits(l)
  {
    JoinU(i);
  }

  lemma JoinedJ(i: bv32, l: Layout)
    requires l == PartsJ(i)
    ensures Assembled(l) == i && Fits(l)
  {
    JoinJ(i);
    FitsAsJ(JImm(i), Rd(i), Opcode(i), l);
  }

  lemma FitsAsJ(imm: bv32, rd: Reg, opcode: bv7, l: Layout)
    requires l == J(imm, rd, opcode) && imm == SignExtend(imm & 0x1f_fffe, 21)
    ensures Fits(l)
  {
  }

  lemma AssembledEncodes(i: bv32, op: Op, l: Layout)
    requires l == LayoutOf(op) && Assembled(l) == i && Fits(l)
    requires IsPlain(op) && (IsShift(op) ==> Encodable(op))
    ensures Encodes(i, op)
  {
    NothingIgnored(op, i);
  }

  /** An instruction with the parts of a word is encoded by it. */
  lemma REncodes(i: bv32, op: Op)
    requires LayoutOf(op) == PartsR(i) && IsRegister(op)
    ensures Encodes(i, op)
  {
    RegisterLayout(op);
    JoinedR(i, LayoutOf(op));
    AssembledEncodes(i, op, LayoutOf(op));
  }

  lemma UnorderedEncodes(i: bv32, op: Op)
    requires LayoutOf(op) == UnorderedParts(i) && IsAtomic(op)
    ensures Encodes(i, op)
  {
    var l := LayoutOf(op);
    OrderIgnored(i);
    JoinedR(WithoutOrder(i), l);
    AtomicAssembles(op, i);
  }

  lemma OffsetEncodes(i: bv32, op: Op)
    requires LayoutOf(op) == PartsI(i) && IsOffset(op)
    ensures Encodes(i, op)
  {
    OffsetLayout(op);
    JoinedI(i, LayoutOf(op));
    AssembledEncodes(i, op, LayoutOf(op));
  }

  lemma ImmediateEncodes(i: bv32, op: Op)
    requires LayoutOf(op) == PartsI(i) && IsImmediate(op)
    ensures Encodes(i, op)
  {
    ImmediateLayout(op);
    JoinedI(i, LayoutOf(op));
    AssembledEncodes(i, op, LayoutOf(op));
  }

  lemma ShiftEncodes(i: bv32, op: Op)
    requires LayoutOf(op) == PartsI(i) && IsShift(op) && Encodable(op)
    ensures Encodes(i, op)
  {
    ShiftLayout(op);
    JoinedI(i, LayoutOf(op));
    AssembledEncodes(i, op, LayoutOf(op));
  }

  lemma SEncodes(i: bv32, op: Op)
    requires LayoutOf(op) == PartsS(i) && IsStore(op)
    ensures Encodes(i, op)
  {
    StoreLayout(op);
    JoinedS(i, LayoutOf(op));
    AssembledEncodes(i, op, LayoutOf(op));
  }

  lemma BEncodes(i: bv32, op: Op)
    requires LayoutOf(op) == PartsB(i) && IsBranch(op)
    ensures Encodes(i, op)
  {
    BranchLayout(op);
    JoinedB(i, LayoutOf(op));
    AssembledEncodes(i, op, LayoutOf(op));
  }

  lemma UEncodes(i: bv32, op: Op)
    requires LayoutOf(op) == PartsU(i) && IsUpper(op)
    ensures Encodes(i, op)
  {
    UpperLayout(op);
    JoinedU(i, LayoutOf(op));
    AssembledEncodes(i, op, LayoutOf(op));
  }

  lemma JEncodes(i: bv32, op: Op)
    requires LayoutOf(op) == PartsJ(i) && op.Jal?
    ensures Encodes(i, op)
  {
    JumpLayout(op);
    JoinedJ(i, LayoutOf(op));
    AssembledEncodes(i, op, LayoutOf(op));
  }

  lemma RegisterWord(i: bv32, op: Op)
    requires op == DecodeRegister(i) && op != Unknown && i & 0x7f == 0x33
    ensures Encodes(i, op)
  {
    if Function7(i) == 1 {
      ProductsAreR(i, op);
    } else if Function3(i) < 4 {
      SumsAreR(i, op);
    } else {
      LogicIsR(i, op);
    }
    REncodes(i, op);
  }

  lemma BranchWord(i: bv32, op: Op)
    requires op == DecodeBranch(i) && op != Unknown && i & 0x7f == 0x63
    ensures Encodes(i, op)
  {
    BranchesAreB(i, op);
    BEncodes(i, op);
  }

  lemma LoadWord(i: bv32, op: Op)
    requires op == DecodeLoad(i) && op != Unknown && i & 0x7f == 0x03
    ensures Encodes(i, op)
  {
    if Function3(i) < 2 {
      NarrowLoadsAreI(i, op);
    } else {
      OtherLoadsAreI(i, op);
    }
    OffsetEncodes(i, op);
  }

  lemma ImmediateWord(i: bv32, op: Op)
    requires op == DecodeImmediate(i) && op != Unknown && i & 0x7f == 0x13
    ensures Encodes(i, op)
  {
    if Function3(i) == 1 {
      LeftShiftsAreI(i, op);
      ShiftEncodes(i, op);
    } else if Function3(i) == 5 {
      RightShiftsAreI(i, op);
      ShiftEncodes(i, op);
    } else {
      if Function3(i) in {0, 2, 3} {
        ComparisonsAreI(i, op);
      } else {
        BitsAreI(i, op);
      }
      ImmediateEncodes(i, op);
    }
  }

  lemma AtomicWord(i: bv32, op: Op)
    requires op == DecodeAtomic(i) && op != Unknown && i & 0x707f == 0x202f
    ensures Encodes(i, op)
  {
    if Function5(i) < 2 {
      ExchangesAreR(i, op);
    } else if Function5(i) < 4 {
      LinksAreR(i, op);
    } else if Function5(i) < 0x10 {
      BitwiseAmosAreR(i, op);
    } else {
      OrderAmosAreR(i, op);
    }
    UnorderedEncodes(i, op);
  }

  lemma StoreWord(i: bv32, op: Op)
    requires op == DecodeUncompressed(i) && op != Unknown && i & 0x7f == 0x23
    ensures IsStore(op) && LayoutOf(op) == PartsS(i)
  {
  }

  lemma UpperWord(i: bv32, op: Op)
    requires op == DecodeUncompressed(i) && (i & 0x7f == 0x37 || i & 0x7f == 0x17)
    ensures IsUpper(op) && LayoutOf(op) == PartsU(i)
  {
  }

  lemma JumpWord(i: bv32, op: Op)
    requires op == DecodeUncompressed(i) && i & 0x7f == 0x6f
    ensures op.Jal? && LayoutOf(op) == PartsJ(i)
  {
  }

  lemma JumpRegisterWord(i: bv32, op: Op)
    requires op == DecodeUncompressed(i) && op != Unknown && i & 0x7f == 0x67
    ensures IsOffset(op) && LayoutOf(op) == PartsI(i)
  {
  }

  lemma FenceWord(i: bv32, op: Op)
    requires op == DecodeUncompressed(i) && op != Unknown && i & 0x7f == 0x0f
    ensures op == Fence && Encodes(i, op)
  {
  }

  lemma SystemWord(i: bv32, op: Op)
    requires op == DecodeUncompressed(i) && op != Unknown && i & 0x7f == 0x73
    ensures (op == Ecall && i == 0x0000_0073) || (op == Break && i == 0x0010_0073)
  {
  }

  lemma EcallEncoded()
    ensures Encoded(Ecall) == 0x0000_0073
  {
  }

  lemma BreakEncoded()
    ensures Encoded(Break) == 0x0010_0073
  {
  }

  lemma FixedEncodable(op: Op)
    requires op.Ecall? || op.Break?
    ensures Encodable(op)
  {
  }

  lemma FixedEncodes(i: bv32, op: Op)
    requires (op == Ecall && i == 0x0000_0073) || (op == Break && i == 0x0010_0073)
    ensures Encodes(i, op)
  {
    EcallEncoded();
    BreakEncoded();
    FixedEncodable(op);
    WholeWord(i);
  }

  /** Which table of the decoder a word is looked up in. */
  lemma Tables(i: bv32, op: Op)
    requires op == DecodeUncompressed(i) && op != Unknown
    ensures i & 0x7f in {0x37, 0x17, 0x6f, 0x67, 0x63, 0x03, 0x23, 0x13, 0x33, 0x2f, 0x0f, 0x73}
    ensures i & 0x7f == 0x63 ==> op == DecodeBranch(i)
    ensures i & 0x7f == 0x03 ==> op == DecodeLoad(i)
    ensures i & 0x7f == 0x13 ==> op == DecodeImmediate(i)
    ensures i & 0x7f == 0x33 ==> op == DecodeRegister(i)
    ensures i & 0x7f == 0x2f ==> op == DecodeAtomic(i) && i & 0x707f == 0x202f
  {
  }

  /** Every word that decodes to an instruction is its encoding, up to the ignored fields. */
  lemma DecodedEncodes(i: bv32, op: Op)
    requires op == DecodeUncompressed(i) && op != Unknown
    ensures Encodes(i, op)
  {
    Tables(i, op);
    var opcode := i & 0x7f;
    if opcode == 0x33 {
      RegisterWord(i, op);
    } else if opcode == 0x63 {
      BranchWord(i, op);
    } else if opcode == 0x03 {
      LoadWord(i, op);
    } else if opcode == 0x13 {
      ImmediateWord(i, op);
    } else if opcode == 0x2f {
      AtomicWord(i, op);
    } else if opcode == 0x23 {
      StoreWord(i, op);
      SEncodes(i, op);
    } else if opcode == 0x37 || opcode == 0x17 {
      UpperWord(i, op);
      UEncodes(i, op);
    } else if opcode == 0x6f {
      JumpWord(i, op);
      JEncodes(i, op);
    } else if opcode == 0x67 {
      JumpRegisterWord(i, op);
      OffsetEncodes(i, op);
    } else if opcode == 0x0f {
      FenceWord(i, op);
    } else {
      SystemWord(i, op);
      FixedEncodes(i, op);
    }
  }

  lemma EncodesOnlyDecoded(i: bv32, op: Op, decoded: Op)
    requires Encodes(i, op) && decoded == DecodeUncompressed(i)
    ensures op == decoded && op != Unknown
  {
    EncodedDecodes(op, i);
  }

  /**
   The decoder and the listing agree on every word: it decodes to an instruction exactly if it has the
   encoding of that instruction, and to `Unknown` exactly if it is the encoding of none.
   */
  lemma DecodesExactly(i: bv32, op: Op)
    ensures op != Unknown ==> (DecodeUncompressed(i) == op <==> Encodes(i, op))
    ensures DecodeUncompressed(i) == Unknown <==> forall o: Op :: !Encodes(i, o)
  {
    var decoded := DecodeUncompressed(i);
    if decoded != Unknown {
      DecodedEncodes(i, decoded);
    }
    forall o: Op | Encodes(i, o) ensures o == decoded && o != Unknown {
      EncodesOnlyDecoded(i, o, decoded);
    }
  }

  lemma AtomicIsRelevant(f5: bv5, rs2: Reg, rs1: Reg, rd: Reg)
    ensures var w := RType((f5 as bv7 << 2) as bv32, rs2, rs1, 2, rd, 0x2f); WithoutOrder(w) == w
  {
  }

  lemma AtomicOnlyRelevant(op: Op)
    requires IsAtomic(op)
    ensures WithoutOrder(Encoded(op)) == Encoded(op)
  {
    if op.LrW? {
      AtomicIsRelevant(0x02, 0, op.rs1, op.rd);
    } else if op.ScW? {
      AtomicIsRelevant(0x03, op.rs2, op.rs1, op.rd);
    } else {
      AtomicIsRelevant(Funct5(op.kind), op.rs2, op.rs1, op.rd);
    }
  }

  lemma OnlyRelevant(op: Op)
    requires Encodable(op)
    ensures Encodes(Encoded(op), op)
  {
    if IsAtomic(op) {
      AtomicOnlyRelevant(op);
      AtomicAssembles(op, Encoded(op));
    } else if op.Fence? {
    } else {
      NothingIgnored(op, Encoded(op));
    }
  }

  /** Decoding inverts encoding, for all registers and all immediates that the format can hold. */
  lemma EncodedRoundTrip(op: Op)
    requires Encodable(op)
    ensures DecodeUncompressed(Encoded(op)) == op
  {
    OnlyRelevant(op);
    EncodedDecodes(op, Encoded(op));
  }
}
