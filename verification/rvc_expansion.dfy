/**
 The compressed instructions of RV32C and the 32-bit instructions they stand for, as section 16.8 of
 the RISC-V Unprivileged ISA 20191213 lists them, and the proof that the decoder agrees.
 */
module RvcExpansion {
  import opened RiscvDecode

  // ---------------------------------------------------------------------------------------
  // Encoding 32-bit instructions
  // ---------------------------------------------------------------------------------------

  function Wide(r: Reg): bv32 {
    r as bv32
  }

  function RType(f7: bv32, rs2: Reg, rs1: Reg, f3: bv32, rd: Reg, opcode: bv32): bv32 {
    (f7 << 25) | (Wide(rs2) << 20) | (Wide(rs1) << 15) | (f3 << 12) | (Wide(rd) << 7) | opcode
  }

  function IType(imm: bv32, rs1: Reg, f3: bv32, rd: Reg, opcode: bv32): bv32 {
    ((imm & 0xfff) << 20) | (Wide(rs1) << 15) | (f3 << 12) | (Wide(rd) << 7) | opcode
  }

  function SType(imm: bv32, rs2: Reg, rs1: Reg, f3: bv32, opcode: bv32): bv32 {
    ((imm & 0xfe0) << 20) | (Wide(rs2) << 20) | (Wide(rs1) << 15) | (f3 << 12) | ((imm & 0x1f) << 7) | opcode
  }

  function BType(imm: bv32, rs2: Reg, rs1: Reg, f3: bv32, opcode: bv32): bv32 {
    ((imm & 0x1000) << 19) | ((imm & 0x7e0) << 20) | (Wide(rs2) << 20) | (Wide(rs1) << 15) | (f3 << 12)
    | ((imm & 0x1e) << 7) | ((imm & 0x800) >> 4) | opcode
  }

  function JType(imm: bv32, rd: Reg, opcode: bv32): bv32 {
    ((imm & 0x10_0000) << 11) | ((imm & 0x7fe) << 20) | ((imm & 0x800) << 9) | (imm & 0xf_f000)
    | (Wide(rd) << 7) | opcode
  }

  function UType(imm: bv32, rd: Reg, opcode: bv32): bv32 {
    (imm & 0xffff_f000) | (Wide(rd) << 7) | opcode
  }

  // ---------------------------------------------------------------------------------------
  // Fields of compressed instructions
  // ---------------------------------------------------------------------------------------

  /** The `width` bits of `w` from position `from` on, moved to position `to`. */
  function Move(w: bv32, from: bv32, width: bv32, to: bv32): bv32
    requires from < 32 && width < 32 && to < 32
  {
    ((w >> from) & ((1 << width) - 1)) << to
  }

  /** `x` as a number of `width` bits with a sign. */
  function SignExtend(x: bv32, width: bv32): bv32
    requires 0 < width < 32
  {
    if (x >> (width - 1)) & 1 == 1 then x | !((1 << width) - 1) else x
  }

  /** A register number of three bits stands for the registers 8 to 15. */
  function Prime(w: bv32, from: bv32): Reg
    requires from < 32
  {
    8 + (Move(w, from, 3, 0) & 0x7) as bv5
  }

  /** A register number of five bits. */
  function Full(w: bv32, from: bv32): Reg
    requires from < 32
  {
    (Move(w, from, 5, 0) & 0x1f) as bv5
  }

  // nzuimm[5:4|9:6|2|3]
  function ImmAddi4spn(w: bv32): bv32 {
    Move(w, 11, 2, 4) | Move(w, 7, 4, 6) | Move(w, 6, 1, 2) | Move(w, 5, 1, 3)
  }

  // uimm[5:3] and uimm[2|6]
  function ImmLw(w: bv32): bv32 {
    Move(w, 10, 3, 3) | Move(w, 6, 1, 2) | Move(w, 5, 1, 6)
  }

  // imm[5] and imm[4:0]
  function Imm6(w: bv32): bv32 {
    SignExtend(Move(w, 12, 1, 5) | Move(w, 2, 5, 0), 6)
  }

  // shamt[5] and shamt[4:0]
  function Shamt(w: bv32): bv32 {
    Move(w, 12, 1, 5) | Move(w, 2, 5, 0)
  }

  // nzimm[9] and nzimm[4|6|8:7|5]
  function ImmAddi16sp(w: bv32): bv32 {
    SignExtend(Move(w, 12, 1, 9) | Move(w, 6, 1, 4) | Move(w, 5, 1, 6) | Move(w, 3, 2, 7) | Move(w, 2, 1, 5), 10)
  }

  // imm[11|4|9:8|10|6|7|3:1|5]
  function ImmJ(w: bv32): bv32 {
    SignExtend(Move(w, 12, 1, 11) | Move(w, 11, 1, 4) | Move(w, 9, 2, 8) | Move(w, 8, 1, 10) | Move(w, 7, 1, 6)
               | Move(w, 6, 1, 7) | Move(w, 3, 3, 1) | Move(w, 2, 1, 5), 12)
  }

  // imm[8|4:3] and imm[7:6|2:1|5]
  function ImmB(w: bv32): bv32 {
    SignExtend(Move(w, 12, 1, 8) | Move(w, 10, 2, 3) | Move(w, 5, 2, 6) | Move(w, 3, 2, 1) | Move(w, 2, 1, 5), 9)
  }

  // uimm[5] and uimm[4:2|7:6]
  function ImmLwsp(w: bv32): bv32 {
    Move(w, 12, 1, 5) | Move(w, 4, 3, 2) | Move(w, 2, 2, 6)
  }

  // uimm[5:2|7:6]
  function ImmSwsp(w: bv32): bv32 {
    Move(w, 9, 4, 2) | Move(w, 7, 2, 6)
  }

  // ---------------------------------------------------------------------------------------
  // Legal encodings and their expansions
  // ---------------------------------------------------------------------------------------

  function Quadrant(w: bv32): bv32 {
    Move(w, 0, 2, 0)
  }

  function Funct3(w: bv32): bv32 {
    Move(w, 13, 3, 0)
  }

  /** The integer instructions of RV32C, hints included, without reserved encodings. */
  predicate Legal(w: bv32) {
    && w <= 0xffff
    && (Quadrant(w) == 0 ==> Legal0(w))
    && (Quadrant(w) == 1 ==> Legal1(w))
    && (Quadrant(w) == 2 ==> Legal2(w))
    && Quadrant(w) != 3
  }

  predicate Legal0(w: bv32) {
    (Funct3(w) == 0 && ImmAddi4spn(w) != 0) || Funct3(w) == 2 || Funct3(w) == 6
  }

  predicate Legal1(w: bv32) {
    && (Funct3(w) == 3 ==> if Full(w, 7) == 2 then ImmAddi16sp(w) != 0 else Imm6(w) != 0)
    && (Funct3(w) == 4 && Move(w, 10, 2, 0) != 2 ==> Move(w, 12, 1, 0) == 0)
  }

  predicate Legal2(w: bv32) {
    || (Funct3(w) == 0 && Move(w, 12, 1, 0) == 0)
    || (Funct3(w) == 2 && Full(w, 7) != 0)
    || (Funct3(w) == 4 && (Full(w, 2) != 0 || Full(w, 7) != 0 || Move(w, 12, 1, 0) == 1))
    || Funct3(w) == 6
  }

  /** The 32-bit instruction of a legal compressed one. */
  function Expand(w: bv32): bv32 {
    if Quadrant(w) == 0 then Expand0(w) else if Quadrant(w) == 1 then Expand1(w) else Expand2(w)
  }

  function Expand0(w: bv32): bv32 {
    if Funct3(w) == 0 then IType(ImmAddi4spn(w), 2, 0, Prime(w, 2), 0x13) // C.ADDI4SPN: addi rd', x2, nzuimm
    else if Funct3(w) == 2 then IType(ImmLw(w), Prime(w, 7), 2, Prime(w, 2), 0x03) // C.LW: lw rd', uimm(rs1')
    else SType(ImmLw(w), Prime(w, 2), Prime(w, 7), 2, 0x23) // C.SW: sw rs2', uimm(rs1')
  }

  function Expand1(w: bv32): bv32 {
    if Funct3(w) == 0 then IType(Imm6(w), Full(w, 7), 0, Full(w, 7), 0x13) // C.NOP, C.ADDI: addi rd, rd, nzimm
    else if Funct3(w) == 1 then JType(ImmJ(w), 1, 0x6f) // C.JAL: jal x1, imm
    else if Funct3(w) == 2 then IType(Imm6(w), 0, 0, Full(w, 7), 0x13) // C.LI: addi rd, x0, imm
    else if Funct3(w) == 3 then
      if Full(w, 7) == 2 then IType(ImmAddi16sp(w), 2, 0, 2, 0x13) // C.ADDI16SP: addi x2, x2, nzimm
      else UType(Imm6(w) << 12, Full(w, 7), 0x37) // C.LUI: lui rd, nzimm
    else if Funct3(w) == 4 then ExpandArithmetic(w)
    else if Funct3(w) == 5 then JType(ImmJ(w), 0, 0x6f) // C.J: jal x0, imm
    else if Funct3(w) == 6 then BType(ImmB(w), 0, Prime(w, 7), 0, 0x63) // C.BEQZ: beq rs1', x0, imm
    else BType(ImmB(w), 0, Prime(w, 7), 1, 0x63) // C.BNEZ: bne rs1', x0, imm
  }

  function ExpandArithmetic(w: bv32): bv32 {
    var (r, rs2) := (Prime(w, 7), Prime(w, 2));
    if Move(w, 10, 2, 0) == 0 then IType(Shamt(w), r, 5, r, 0x13) // C.SRLI: srli rd', rd', shamt
    else if Move(w, 10, 2, 0) == 1 then IType(0x400 | Shamt(w), r, 5, r, 0x13) // C.SRAI: srai rd', rd', shamt
    else if Move(w, 10, 2, 0) == 2 then IType(Imm6(w), r, 7, r, 0x13) // C.ANDI: andi rd', rd', imm
    else if Move(w, 5, 2, 0) == 0 then RType(0x20, rs2, r, 0, r, 0x33) // C.SUB: sub rd', rd', rs2'
    else if Move(w, 5, 2, 0) == 1 then RType(0, rs2, r, 4, r, 0x33) // C.XOR: xor rd', rd', rs2'
    else if Move(w, 5, 2, 0) == 2 then RType(0, rs2, r, 6, r, 0x33) // C.OR: or rd', rd', rs2'
    else RType(0, rs2, r, 7, r, 0x33) // C.AND: and rd', rd', rs2'
  }

  function Expand2(w: bv32): bv32 {
    var (rd, rs2) := (Full(w, 7), Full(w, 2));
    if Funct3(w) == 0 then IType(Shamt(w), rd, 1, rd, 0x13) // C.SLLI: slli rd, rd, shamt
    else if Funct3(w) == 2 then IType(ImmLwsp(w), 2, 2, rd, 0x03) // C.LWSP: lw rd, uimm(x2)
    else if Funct3(w) == 6 then SType(ImmSwsp(w), rs2, 2, 2, 0x23) // C.SWSP: sw rs2, uimm(x2)
    else if Move(w, 12, 1, 0) == 0 then
      if rs2 == 0 then IType(0, rd, 0, 0, 0x67) // C.JR: jalr x0, 0(rs1)
      else RType(0, rs2, 0, 0, rd, 0x33) // C.MV: add rd, x0, rs2
    else
      if rs2 != 0 then RType(0, rs2, rd, 0, rd, 0x33) // C.ADD: add rd, rd, rs2
      else if rd == 0 then 0x0010_0073 // C.EBREAK: ebreak
      else IType(0, rd, 0, 1, 0x67) // C.JALR: jalr x1, 0(rs1)
  }

  /** The hint `C.SLLI` with destination `x0`, which the decoder does not know. */
  predicate IsShiftHint(w: bv32) {
    Quadrant(w) == 2 && Funct3(w) == 0 && Full(w, 7) == 0
  }

  // ---------------------------------------------------------------------------------------
  // Decoding encoded instructions
  // ---------------------------------------------------------------------------------------

  lemma IFields(imm: bv32, rs1: Reg, f3: bv32, rd: Reg, opcode: bv32)
    requires f3 < 8 && opcode < 0x80
    ensures var i := IType(imm, rs1, f3, rd, opcode);
            && Rd(i) == rd && Rs1(i) == rs1 && i & 0x707f == (f3 << 12) | opcode && i & 0x7f == opcode
            && i & 0xfe00_707f == ((imm & 0xfe0) << 20) | (f3 << 12) | opcode
            && i & 0xfff0_0000 == (imm & 0xfff) << 20
  {
  }

  lemma RFields(f7: bv32, rs2: Reg, rs1: Reg, f3: bv32, rd: Reg, opcode: bv32)
    requires f7 < 0x80 && f3 < 8 && opcode < 0x80
    ensures var i := RType(f7, rs2, rs1, f3, rd, opcode);
            && Rd(i) == rd && Rs1(i) == rs1 && Rs2(i) == rs2 && i & 0x7f == opcode
            && i & 0xfe00_707f == (f7 << 25) | (f3 << 12) | opcode
  {
  }

  lemma SFields(imm: bv32, rs2: Reg, rs1: Reg, f3: bv32, opcode: bv32)
    requires f3 < 8 && opcode < 0x80
    ensures var i := SType(imm, rs2, rs1, f3, opcode);
            && Rs1(i) == rs1 && Rs2(i) == rs2 && i & 0x707f == (f3 << 12) | opcode && i & 0x7f == opcode
            && i & 0xfe00_0000 == (imm & 0xfe0) << 20 && i & 0xf80 == (imm & 0x1f) << 7
  {
  }

  lemma BFields(imm: bv32, rs2: Reg, rs1: Reg, f3: bv32, opcode: bv32)
    requires f3 < 8 && opcode < 0x80
    ensures var i := BType(imm, rs2, rs1, f3, opcode);
            && Rs1(i) == rs1 && Rs2(i) == rs2 && i & 0x707f == (f3 << 12) | opcode && i & 0x7f == opcode
            && i & 0x8000_0000 == (imm & 0x1000) << 19 && i & 0x7e00_0000 == (imm & 0x7e0) << 20
            && i & 0xf00 == (imm & 0x1e) << 7 && i & 0x80 == (imm & 0x800) >> 4
  {
  }

  lemma JFields(imm: bv32, rd: Reg, opcode: bv32)
    requires opcode < 0x80
    ensures var i := JType(imm, rd, opcode);
            && Rd(i) == rd && i & 0x7f == opcode
            && i & 0x8000_0000 == (imm & 0x10_0000) << 11 && i & 0x7fe0_0000 == (imm & 0x7fe) << 20
            && i & 0x10_0000 == (imm & 0x800) << 9 && i & 0xf_f000 == imm & 0xf_f000
  {
  }

  lemma UFields(imm: bv32, rd: Reg, opcode: bv32)
    requires opcode < 0x80
    ensures var i := UType(imm, rd, opcode);
            && Rd(i) == rd && i & 0x7f == opcode && UImm(i) == imm & 0xffff_f000
  {
  }

  lemma IImmHigh(i: bv32)
    ensures IImm(i) == IImm(i & 0xfff0_0000)
  {
    assert (i & 0x8000_0000 == 0) == ((i & 0xfff0_0000) & 0x8000_0000 == 0);
    assert i >> 20 == (i & 0xfff0_0000) >> 20;
    assert !i >> 20 == !(i & 0xfff0_0000) >> 20;
  }

  lemma IImmShifted(imm: bv32)
    ensures IImm((imm & 0xfff) << 20) == SignExtend(imm & 0xfff, 12)
  {
  }

  lemma IImmDecoded(imm: bv32, i: bv32)
    requires i & 0xfff0_0000 == (imm & 0xfff) << 20
    ensures IImm(i) == SignExtend(imm & 0xfff, 12)
  {
    IImmHigh(i);
    IImmShifted(imm);
  }

  lemma SImmDecoded(imm: bv32, i: bv32)
    requires i & 0xfe00_0000 == (imm & 0xfe0) << 20 && i & 0xf80 == (imm & 0x1f) << 7
    ensures SImm(i) == SignExtend(imm & 0xfff, 12)
  {
    if imm & 0x800 == 0 {
      assert Asr(i & 0xfe00_0000, 20) & 0xffff_f000 == 0;
    } else {
      assert Asr(i & 0xfe00_0000, 20) & 0xffff_f000 == 0xffff_f000;
    }
  }

  lemma BImmDecoded(imm: bv32, i: bv32)
    requires i & 0x8000_0000 == (imm & 0x1000) << 19 && i & 0x7e00_0000 == (imm & 0x7e0) << 20
    requires i & 0xf00 == (imm & 0x1e) << 7 && i & 0x80 == (imm & 0x800) >> 4
    ensures BImm(i) == SignExtend(imm & 0x1ffe, 13)
  {
    if imm & 0x1000 == 0 {
      assert Asr(i & 0x8000_0000, 19) == 0;
    } else {
      assert Asr(i & 0x8000_0000, 19) == 0xffff_f000;
    }
  }

  lemma JImmDecoded(imm: bv32, i: bv32)
    requires i & 0x8000_0000 == (imm & 0x10_0000) << 11 && i & 0x7fe0_0000 == (imm & 0x7fe) << 20
    requires i & 0x10_0000 == (imm & 0x800) << 9 && i & 0xf_f000 == imm & 0xf_f000
    ensures JImm(i) == SignExtend(imm & 0x1f_fffe, 21)
  {
    if imm & 0x10_0000 == 0 {
      assert Asr(i & 0x8000_0000, 11) == 0;
    } else {
      assert Asr(i & 0x8000_0000, 11) == 0xfff0_0000;
    }
  }

  /** What `decode` takes from a compressed instruction is what the expansion carries. */
  lemma ImmediateAddi4spn(w: bv32)
    requires w <= 0xffff
    ensures SignExtend(ImmAddi4spn(w) & 0xfff, 12) == CiwAddi4spnImm(w) == ImmAddi4spn(w)
  {
  }

  lemma ImmediateLw(w: bv32)
    requires w <= 0xffff
    ensures SignExtend(ImmLw(w) & 0xfff, 12) == ClLwOffset(w)
  {
  }

  lemma ImmediateLwsp(w: bv32)
    requires w <= 0xffff
    ensures SignExtend(ImmLwsp(w) & 0xfff, 12) == CiLwspImm(w)
  {
  }

  lemma ImmediateSwsp(w: bv32)
    requires w <= 0xffff
    ensures SignExtend(ImmSwsp(w) & 0xfff, 12) == CssSwspImm(w)
  {
  }

  lemma Immediate6(w: bv32)
    requires w <= 0xffff
    ensures SignExtend(Imm6(w) & 0xfff, 12) == CiImm(w) == Imm6(w)
  {
  }

  lemma ImmediateAddi16sp(w: bv32)
    requires w <= 0xffff
    ensures SignExtend(ImmAddi16sp(w) & 0xfff, 12) == CiAddi16spImm(w) == ImmAddi16sp(w)
  {
  }

  lemma ImmediateShamt(w: bv32)
    requires w <= 0xffff && Move(w, 12, 1, 0) == 0
    ensures SignExtend(Shamt(w) & 0xfff, 12) == CiImm(w) & 31 == Shamt(w)
    ensures SignExtend((0x400 | Shamt(w)) & 0xfff, 12) & 31 == CiImm(w) & 31
    ensures Shamt(w) & 0xfe0 == 0 && (0x400 | Shamt(w)) & 0xfe0 == 0x400
  {
  }

  lemma ImmediateB(w: bv32)
    requires w <= 0xffff
    ensures SignExtend(ImmB(w) & 0x1ffe, 13) == CbImm(w)
  {
    if w & 0x1000 == 0 {
      assert Asr((w & 0x1000) << 19, 23) == 0;
    } else {
      assert Asr((w & 0x1000) << 19, 23) == 0xffff_ff00;
    }
  }

  lemma ImmediateJ(w: bv32)
    requires w <= 0xffff
    ensures SignExtend(ImmJ(w) & 0x1f_fffe, 21) == CjImm(w)
  {
    if w & 0x1000 == 0 {
      assert Asr((w & 0x1000) << 19, 20) == 0;
    } else {
      assert Asr((w & 0x1000) << 19, 20) == 0xffff_f800;
    }
  }

  lemma FunctAgrees(w: bv32)
    requires w <= 0xffff
    ensures Quadrant(w) == w & 0x3 && Funct3(w) == CFunct3(w)
  {
  }

  lemma RegistersAgree(w: bv32)
    requires w <= 0xffff
    ensures Prime(w, 2) == CRds(w) && Prime(w, 7) == CRs1s(w) && Full(w, 7) == CRd(w) && Full(w, 2) == CRs2(w)
  {
  }

  lemma SelectorsAgree(w: bv32)
    requires w <= 0xffff
    ensures Move(w, 10, 2, 0) == (w >> 10) & 0x3 && Move(w, 5, 2, 0) == (w >> 5) & 0x3
    ensures Move(w, 12, 1, 0) == (w >> 12) & 1 && (Move(w, 12, 1, 0) == 0 <==> w & 0x1000 == 0)
  {
  }

  // ---------------------------------------------------------------------------------------
  // The decoder agrees with the expansion
  // ---------------------------------------------------------------------------------------

  /** `execute` uses only the low five bits of the immediate of `Srai`. */
  function Masked(op: Op): Op {
    if op.Srai? then Srai(op.rd, op.rs1, op.imm & 31) else op
  }

  /** `addi` and the other instructions whose only parameter is an immediate of type I. */
  lemma DecodeI(imm: bv32, rs1: Reg, f3: bv32, rd: Reg)
    requires f3 == 0 || f3 == 7
    ensures DecodeUncompressed(IType(imm, rs1, f3, rd, 0x13))
         == if f3 == 0 then Addi(rd, rs1, SignExtend(imm & 0xfff, 12)) else Andi(rd, rs1, SignExtend(imm & 0xfff, 12))
  {
    IFields(imm, rs1, f3, rd, 0x13);
    IImmDecoded(imm, IType(imm, rs1, f3, rd, 0x13));
  }

  lemma DecodeSlli(imm: bv32, rs1: Reg, rd: Reg)
    requires imm & 0xfe0 == 0
    ensures DecodeUncompressed(IType(imm, rs1, 1, rd, 0x13)) == Slli(rd, rs1, SignExtend(imm & 0xfff, 12))
  {
    IFields(imm, rs1, 1, rd, 0x13);
    IImmDecoded(imm, IType(imm, rs1, 1, rd, 0x13));
  }

  lemma DecodeSrli(imm: bv32, rs1: Reg, rd: Reg)
    requires imm & 0xfe0 == 0
    ensures DecodeUncompressed(IType(imm, rs1, 5, rd, 0x13)) == Srli(rd, rs1, SignExtend(imm & 0xfff, 12))
  {
    IFields(imm, rs1, 5, rd, 0x13);
    IImmDecoded(imm, IType(imm, rs1, 5, rd, 0x13));
  }

  lemma DecodeSrai(imm: bv32, rs1: Reg, rd: Reg)
    requires imm & 0xfe0 == 0x400
    ensures DecodeUncompressed(IType(imm, rs1, 5, rd, 0x13)) == Srai(rd, rs1, SignExtend(imm & 0xfff, 12))
  {
    IFields(imm, rs1, 5, rd, 0x13);
    IImmDecoded(imm, IType(imm, rs1, 5, rd, 0x13));
  }

  lemma DecodeLwJalr(imm: bv32, rs1: Reg, rd: Reg)
    ensures DecodeUncompressed(IType(imm, rs1, 2, rd, 0x03)) == Lw(rd, rs1, SignExtend(imm & 0xfff, 12))
    ensures DecodeUncompressed(IType(imm, rs1, 0, rd, 0x67)) == Jalr(rd, rs1, SignExtend(imm & 0xfff, 12))
  {
    IFields(imm, rs1, 2, rd, 0x03);
    IImmDecoded(imm, IType(imm, rs1, 2, rd, 0x03));
    IFields(imm, rs1, 0, rd, 0x67);
    IImmDecoded(imm, IType(imm, rs1, 0, rd, 0x67));
  }

  lemma DecodeSw(imm: bv32, rs2: Reg, rs1: Reg)
    ensures DecodeUncompressed(SType(imm, rs2, rs1, 2, 0x23)) == Sw(rs1, rs2, SignExtend(imm & 0xfff, 12))
  {
    SFields(imm, rs2, rs1, 2, 0x23);
    SImmDecoded(imm, SType(imm, rs2, rs1, 2, 0x23));
  }

  lemma DecodeB(imm: bv32, rs2: Reg, rs1: Reg, f3: bv32)
    requires f3 == 0 || f3 == 1
    ensures DecodeUncompressed(BType(imm, rs2, rs1, f3, 0x63))
         == if f3 == 0 then Beq(rs1, rs2, SignExtend(imm & 0x1ffe, 13)) else Bne(rs1, rs2, SignExtend(imm & 0x1ffe, 13))
  {
    BFields(imm, rs2, rs1, f3, 0x63);
    BImmDecoded(imm, BType(imm, rs2, rs1, f3, 0x63));
  }

  lemma DecodeJ(imm: bv32, rd: Reg)
    ensures DecodeUncompressed(JType(imm, rd, 0x6f)) == Jal(rd, SignExtend(imm & 0x1f_fffe, 21))
  {
    JFields(imm, rd, 0x6f);
    JImmDecoded(imm, JType(imm, rd, 0x6f));
  }

  lemma DecodeLui(imm: bv32, rd: Reg)
    ensures DecodeUncompressed(UType(imm, rd, 0x37)) == Lui(rd, imm & 0xffff_f000)
  {
    UFields(imm, rd, 0x37);
  }

  lemma DecodeR(f7: bv32, rs2: Reg, rs1: Reg, f3: bv32, rd: Reg)
    requires (f7 == 0x20 && f3 == 0) || (f7 == 0 && (f3 == 0 || f3 == 4 || f3 == 6 || f3 == 7))
    ensures DecodeUncompressed(RType(f7, rs2, rs1, f3, rd, 0x33))
         == if f7 == 0x20 then Sub(rd, rs1, rs2)
            else if f3 == 0 then Add(rd, rs1, rs2) else if f3 == 4 then Xor(rd, rs1, rs2)
            else if f3 == 6 then Or(rd, rs1, rs2) else And(rd, rs1, rs2)
  {
    RFields(f7, rs2, rs1, f3, rd, 0x33);
  }

  predicate Agree(w: bv32, op: Op) {
    Masked(op) == Masked(DecodeUncompressed(Expand(w)))
  }

  lemma Addi4spnAgrees(w: bv32)
    requires Legal(w) && Quadrant(w) == 0 && Funct3(w) == 0
    ensures Agree(w, DecodeQuadrant0(w))
  {
    FunctAgrees(w);
    RegistersAgree(w);
    ImmediateAddi4spn(w);
    DecodeI(ImmAddi4spn(w), 2, 0, Prime(w, 2));
  }

  lemma LwAgrees(w: bv32)
    requires Legal(w) && Quadrant(w) == 0 && Funct3(w) == 2
    ensures Agree(w, DecodeQuadrant0(w))
  {
    FunctAgrees(w);
    RegistersAgree(w);
    ImmediateLw(w);
    DecodeLwJalr(ImmLw(w), Prime(w, 7), Prime(w, 2));
  }

  lemma SwAgrees(w: bv32)
    requires Legal(w) && Quadrant(w) == 0 && Funct3(w) == 6
    ensures Agree(w, DecodeQuadrant0(w))
  {
    FunctAgrees(w);
    RegistersAgree(w);
    ImmediateLw(w);
    DecodeSw(ImmLw(w), Prime(w, 2), Prime(w, 7));
  }

  lemma AddiAgrees(w: bv32)
    requires Legal(w) && Quadrant(w) == 1 && (Funct3(w) == 0 || Funct3(w) == 2)
    ensures Agree(w, DecodeQuadrant1(w))
  {
    FunctAgrees(w);
    RegistersAgree(w);
    Immediate6(w);
    DecodeI(Imm6(w), if Funct3(w) == 0 then Full(w, 7) else 0, 0, Full(w, 7));
  }

  lemma DecodeCj(w: bv32, rd: Reg)
    requires w <= 0xffff
    ensures DecodeUncompressed(JType(ImmJ(w), rd, 0x6f)) == Jal(rd, CjImm(w))
  {
    ImmediateJ(w);
    DecodeJ(ImmJ(w), rd);
  }

  lemma JalAgrees(w: bv32)
    requires Legal(w) && Quadrant(w) == 1 && Funct3(w) == 1
    ensures Agree(w, DecodeQuadrant1(w))
  {
    FunctAgrees(w);
    DecodeCj(w, 1);
  }

  lemma JAgrees(w: bv32)
    requires Legal(w) && Quadrant(w) == 1 && Funct3(w) == 5
    ensures Agree(w, DecodeQuadrant1(w))
  {
    FunctAgrees(w);
    DecodeCj(w, 0);
  }

  lemma LuiAgrees(w: bv32)
    requires Legal(w) && Quadrant(w) == 1 && Funct3(w) == 3
    ensures Agree(w, DecodeQuadrant1(w))
  {
    FunctAgrees(w);
    RegistersAgree(w);
    if Full(w, 7) == 2 {
      ImmediateAddi16sp(w);
      DecodeI(ImmAddi16sp(w), 2, 0, 2);
    } else {
      Immediate6(w);
      DecodeLui(Imm6(w) << 12, Full(w, 7));
    }
  }

  lemma BeqzAgrees(w: bv32)
    requires Legal(w) && Quadrant(w) == 1 && Funct3(w) == 6
    ensures Agree(w, DecodeQuadrant1(w))
  {
    FunctAgrees(w);
    RegistersAgree(w);
    ImmediateB(w);
    DecodeB(ImmB(w), 0, Prime(w, 7), 0);
  }

  lemma BnezAgrees(w: bv32)
    requires Legal(w) && Quadrant(w) == 1 && Funct3(w) == 7
    ensures Agree(w, DecodeQuadrant1(w))
  {
    FunctAgrees(w);
    RegistersAgree(w);
    ImmediateB(w);
    DecodeB(ImmB(w), 0, Prime(w, 7), 1);
  }

  lemma ShiftRightAgrees(w: bv32)
    requires Legal(w) && Quadrant(w) == 1 && Funct3(w) == 4 && Move(w, 10, 2, 0) < 2
    ensures Agree(w, DecodeQuadrant1(w))
  {
    FunctAgrees(w);
    RegistersAgree(w);
    SelectorsAgree(w);
    ImmediateShamt(w);
    if Move(w, 10, 2, 0) == 0 {
      DecodeSrli(Shamt(w), Prime(w, 7), Prime(w, 7));
    } else {
      DecodeSrai(0x400 | Shamt(w), Prime(w, 7), Prime(w, 7));
    }
  }

  lemma ArithmeticAgrees(w: bv32)
    requires Legal(w) && Quadrant(w) == 1 && Funct3(w) == 4 && Move(w, 10, 2, 0) >= 2
    ensures Agree(w, DecodeQuadrant1(w))
  {
    FunctAgrees(w);
    RegistersAgree(w);
    SelectorsAgree(w);
    if Move(w, 10, 2, 0) == 2 {
      Immediate6(w);
      DecodeI(Imm6(w), Prime(w, 7), 7, Prime(w, 7));
    } else {
      RegisterArithmeticAgrees(w);
    }
  }

  /** C.SUB, C.XOR, C.OR and C.AND. */
  lemma RegisterArithmeticAgrees(w: bv32)
    requires Legal(w) && Quadrant(w) == 1 && Funct3(w) == 4 && Move(w, 10, 2, 0) == 3
    ensures Agree(w, DecodeQuadrant1(w))
  {
    FunctAgrees(w);
    RegistersAgree(w);
    SelectorsAgree(w);
    var (r, rs2) := (Prime(w, 7), Prime(w, 2));
    DecodeR(0x20, rs2, r, 0, r);
    DecodeR(0, rs2, r, 4, r);
    DecodeR(0, rs2, r, 6, r);
    DecodeR(0, rs2, r, 7, r);
  }

  lemma SlliAgrees(w: bv32)
    requires Legal(w) && Quadrant(w) == 2 && Funct3(w) == 0 && !IsShiftHint(w)
    ensures Agree(w, DecodeQuadrant2(w))
  {
    FunctAgrees(w);
    RegistersAgree(w);
    ImmediateShamt(w);
    DecodeSlli(Shamt(w), Full(w, 7), Full(w, 7));
  }

  lemma LwspAgrees(w: bv32)
    requires Legal(w) && Quadrant(w) == 2 && Funct3(w) == 2
    ensures Agree(w, DecodeQuadrant2(w))
  {
    FunctAgrees(w);
    RegistersAgree(w);
    ImmediateLwsp(w);
    DecodeLwJalr(ImmLwsp(w), 2, Full(w, 7));
  }

  lemma SwspAgrees(w: bv32)
    requires Legal(w) && Quadrant(w) == 2 && Funct3(w) == 6
    ensures Agree(w, DecodeQuadrant2(w))
  {
    FunctAgrees(w);
    RegistersAgree(w);
    ImmediateSwsp(w);
    DecodeSw(ImmSwsp(w), Full(w, 2), 2);
  }

  lemma RegisterAgrees(w: bv32)
    requires Legal(w) && Quadrant(w) == 2 && Funct3(w) == 4
    ensures Agree(w, DecodeQuadrant2(w))
  {
    FunctAgrees(w);
    RegistersAgree(w);
    SelectorsAgree(w);
    var (rd, rs2) := (Full(w, 7), Full(w, 2));
    if rs2 != 0 {
      DecodeR(0, rs2, if Move(w, 12, 1, 0) == 0 then 0 else rd, 0, rd);
    } else if rd != 0 {
      DecodeLwJalr(0, rd, if Move(w, 12, 1, 0) == 0 then 0 else 1);
    }
  }

  lemma QuadrantZeroAgrees(w: bv32)
    requires Legal(w) && Quadrant(w) == 0
    ensures Agree(w, DecodeQuadrant0(w))
  {
    if Funct3(w) == 0 {
      Addi4spnAgrees(w);
    } else if Funct3(w) == 2 {
      LwAgrees(w);
    } else {
      SwAgrees(w);
    }
  }

  lemma QuadrantOneAgrees(w: bv32)
    requires Legal(w) && Quadrant(w) == 1
    ensures Agree(w, DecodeQuadrant1(w))
  {
    var f := Funct3(w);
    if f == 0 || f == 2 {
      AddiAgrees(w);
    } else if f == 1 {
      JalAgrees(w);
    } else if f == 5 {
      JAgrees(w);
    } else if f == 3 {
      LuiAgrees(w);
    } else if f == 4 {
      if Move(w, 10, 2, 0) < 2 {
        ShiftRightAgrees(w);
      } else {
        ArithmeticAgrees(w);
      }
    } else if f == 6 {
      BeqzAgrees(w);
    } else {
      BnezAgrees(w);
    }
  }

  lemma QuadrantTwoAgrees(w: bv32)
    requires Legal(w) && Quadrant(w) == 2 && !IsShiftHint(w)
    ensures Agree(w, DecodeQuadrant2(w))
  {
    if Funct3(w) == 0 {
      SlliAgrees(w);
    } else if Funct3(w) == 2 {
      LwspAgrees(w);
    } else if Funct3(w) == 4 {
      RegisterAgrees(w);
    } else {
      SwspAgrees(w);
    }
  }

  lemma Differ(op: Op, other: Op)
    requires op.Unknown? && other.Slli?
    ensures Masked(op) != Masked(other)
  {
  }

  lemma ShiftHintDisagrees(w: bv32)
    requires Legal(w) && IsShiftHint(w)
    ensures DecodeQuadrant2(w) == Unknown && DecodeUncompressed(Expand(w)) == Slli(0, 0, Shamt(w))
  {
    assert DecodeQuadrant2(w) == Unknown by {
      FunctAgrees(w);
      RegistersAgree(w);
    }
    assert Expand(w) == IType(Shamt(w), 0, 1, 0, 0x13);
    ImmediateShamt(w);
    DecodeSlli(Shamt(w), 0, 0);
  }

  /**
   Section 16.8: for every legal 16-bit instruction the decoder returns the instruction of its 32-bit
   expansion, up to the bits of the `Srai` immediate that execution ignores, exactly when it is not the
   hint `C.SLLI x0`. That one expands to `slli x0, x0, shamt` and is decoded as unknown.
   */
  lemma CompressedDecodesAsExpansion(inst: bv16)
    requires Legal(inst as bv32)
    ensures Agree(inst as bv32, DecodeCompressed(inst)) <==> !IsShiftHint(inst as bv32)
    ensures IsShiftHint(inst as bv32) ==>
              && DecodeCompressed(inst) == Unknown
              && DecodeUncompressed(Expand(inst as bv32)) == Slli(0, 0, Shamt(inst as bv32))
  {
    var w := inst as bv32;
    assert Quadrant(w) == w & 0x3 by {
      FunctAgrees(w);
    }
    if IsShiftHint(w) {
      ShiftHintDisagrees(w);
      Differ(Unknown, DecodeUncompressed(Expand(w)));
    } else {
      LegalAgrees(inst);
    }
  }

  lemma LegalAgrees(inst: bv16)
    requires Legal(inst as bv32) && !IsShiftHint(inst as bv32)
    ensures Agree(inst as bv32, DecodeCompressed(inst))
  {
    var w := inst as bv32;
    FunctAgrees(w);
    if Quadrant(w) == 0 {
      QuadrantZeroAgrees(w);
    } else if Quadrant(w) == 1 {
      QuadrantOneAgrees(w);
    } else {
      QuadrantTwoAgrees(w);
    }
  }

  // ---------------------------------------------------------------------------------------
  // Reserved encodings
  // ---------------------------------------------------------------------------------------

  /** C.LUI with a zero immediate. */
  predicate IsZeroLui(w: bv32) {
    Quadrant(w) == 1 && Funct3(w) == 3 && Full(w, 7) != 2 && Imm6(w) == 0
  }

  /** C.SRLI and C.SRAI by more than 31. */
  predicate IsLongShiftRight(w: bv32) {
    Quadrant(w) == 1 && Funct3(w) == 4 && Move(w, 10, 2, 0) < 2 && Move(w, 12, 1, 0) == 1
  }

  /** C.SLLI by more than 31. */
  predicate IsLongShiftLeft(w: bv32) {
    Quadrant(w) == 2 && Funct3(w) == 0 && Move(w, 12, 1, 0) == 1 && Full(w, 7) != 0
  }

  /** The five low bits of a shift amount. */
  function LowAmount(w: bv32): bv32 {
    Move(w, 2, 5, 0)
  }

  function LongShiftRight(w: bv32): Op {
    if Move(w, 10, 2, 0) == 0 then Srli(Prime(w, 7), Prime(w, 7), LowAmount(w))
    else Srai(Prime(w, 7), Prime(w, 7), LowAmount(w))
  }

  /** What the decoder makes of an encoding that is reserved: for shifts it drops the highest bit of the amount. */
  function ReservedOp(w: bv32): Op {
    if IsZeroLui(w) then Lui(Full(w, 7), 0)
    else if IsLongShiftRight(w) then LongShiftRight(w)
    else if IsLongShiftLeft(w) then Slli(Full(w, 7), Full(w, 7), LowAmount(w))
    else Unknown
  }

  lemma LongShift(w: bv32)
    requires w <= 0xffff
    ensures CiImm(w) & 31 == LowAmount(w)
    ensures Move(w, 12, 1, 0) == 0 || Move(w, 12, 1, 0) == 1
  {
  }

  lemma ReservedQuadrant0(w: bv32)
    requires w <= 0xffff && Quadrant(w) == 0 && !Legal0(w)
    ensures DecodeQuadrant0(w) == Unknown
  {
    FunctAgrees(w);
    ImmediateAddi4spn(w);
  }

  lemma ReservedLui(w: bv32)
    requires w <= 0xffff && Quadrant(w) == 1 && Funct3(w) == 3 && !Legal1(w)
    ensures DecodeQuadrant1(w) == ReservedOp(w)
  {
    FunctAgrees(w);
    RegistersAgree(w);
    Immediate6(w);
    ImmediateAddi16sp(w);
  }

  lemma ReservedArithmetic(w: bv32)
    requires w <= 0xffff && Quadrant(w) == 1 && Funct3(w) == 4 && !Legal1(w)
    ensures DecodeQuadrant1(w) == ReservedOp(w)
  {
    FunctAgrees(w);
    RegistersAgree(w);
    SelectorsAgree(w);
    LongShift(w);
  }

  lemma ReservedQuadrant2(w: bv32)
    requires w <= 0xffff && Quadrant(w) == 2 && !Legal2(w)
    ensures DecodeQuadrant2(w) == ReservedOp(w)
  {
    FunctAgrees(w);
    RegistersAgree(w);
    SelectorsAgree(w);
    LongShift(w);
  }

  /**
   The reserved encodings: all decode as unknown but three families, C.LUI with a zero immediate and the
   shifts by more than 31. These are executed, with the amount modulo 32.
   */
  lemma ReservedDecodes(inst: bv16)
    requires !Legal(inst as bv32)
    ensures DecodeCompressed(inst) == ReservedOp(inst as bv32)
  {
    var w := inst as bv32;
    FunctAgrees(w);
    if Quadrant(w) == 0 {
      ReservedQuadrant0(w);
    } else if Quadrant(w) == 1 {
      if Funct3(w) == 3 {
        ReservedLui(w);
      } else {
        ReservedArithmetic(w);
      }
    } else if Quadrant(w) == 2 {
      ReservedQuadrant2(w);
    }
  }
}
