/** Instructions and their decoding: common/src/riscv/op.rs and common/src/riscv/decode.rs. */
module RiscvDecode {

  /** A register number; five bits. */
  type Reg = bv5

  /** Immediates are 32-bit patterns; the source keeps them as `i32` and casts them where it uses them. */
  datatype Op =
    | Unknown
    | Add(rd: Reg, rs1: Reg, rs2: Reg) | Sub(rd: Reg, rs1: Reg, rs2: Reg)
    | Sll(rd: Reg, rs1: Reg, rs2: Reg) | Slt(rd: Reg, rs1: Reg, rs2: Reg)
    | Sltu(rd: Reg, rs1: Reg, rs2: Reg) | Xor(rd: Reg, rs1: Reg, rs2: Reg)
    | Srl(rd: Reg, rs1: Reg, rs2: Reg) | Sra(rd: Reg, rs1: Reg, rs2: Reg)
    | Or(rd: Reg, rs1: Reg, rs2: Reg) | And(rd: Reg, rs1: Reg, rs2: Reg)
    | Mul(rd: Reg, rs1: Reg, rs2: Reg) | Mulh(rd: Reg, rs1: Reg, rs2: Reg)
    | Mulhsu(rd: Reg, rs1: Reg, rs2: Reg) | Mulhu(rd: Reg, rs1: Reg, rs2: Reg)
    | Div(rd: Reg, rs1: Reg, rs2: Reg) | Divu(rd: Reg, rs1: Reg, rs2: Reg)
    | Rem(rd: Reg, rs1: Reg, rs2: Reg) | Remu(rd: Reg, rs1: Reg, rs2: Reg)
    | Addi(rd: Reg, rs1: Reg, imm: bv32) | Andi(rd: Reg, rs1: Reg, imm: bv32)
    | Auipc(rd: Reg, imm: bv32)
    | Beq(rs1: Reg, rs2: Reg, imm: bv32) | Bne(rs1: Reg, rs2: Reg, imm: bv32)
    | Blt(rs1: Reg, rs2: Reg, imm: bv32) | Bge(rs1: Reg, rs2: Reg, imm: bv32)
    | Bltu(rs1: Reg, rs2: Reg, imm: bv32) | Bgeu(rs1: Reg, rs2: Reg, imm: bv32)
    | Jal(rd: Reg, imm: bv32) | Jalr(rd: Reg, rs1: Reg, imm: bv32)
    | Lb(rd: Reg, rs1: Reg, imm: bv32) | Lh(rd: Reg, rs1: Reg, imm: bv32) | Lw(rd: Reg, rs1: Reg, imm: bv32)
    | Lbu(rd: Reg, rs1: Reg, imm: bv32) | Lhu(rd: Reg, rs1: Reg, imm: bv32)
    | Lui(rd: Reg, imm: bv32) | Ori(rd: Reg, rs1: Reg, imm: bv32)
    | Sb(rs1: Reg, rs2: Reg, imm: bv32) | Sh(rs1: Reg, rs2: Reg, imm: bv32) | Sw(rs1: Reg, rs2: Reg, imm: bv32)
    | Slli(rd: Reg, rs1: Reg, imm: bv32) | Slti(rd: Reg, rs1: Reg, imm: bv32) | Sltiu(rd: Reg, rs1: Reg, imm: bv32)
    | Srli(rd: Reg, rs1: Reg, imm: bv32) | Srai(rd: Reg, rs1: Reg, imm: bv32) | Xori(rd: Reg, rs1: Reg, imm: bv32)
    | LrW(rd: Reg, rs1: Reg) | ScW(rd: Reg, rs1: Reg, rs2: Reg)
    | Amo(kind: AmoKind, rd: Reg, rs1: Reg, rs2: Reg)
    | Fence | Ecall | Break

  /** The `Amo*W` operations, which differ only in what they store. */
  datatype AmoKind = Swap | AddTo | XorTo | AndTo | OrTo | MinOf | MaxOf | MinuOf | MaxuOf

  /** `>>` of the source on an `i32`. */
  function Asr(x: bv32, n: bv32): bv32
    requires n < 32
  {
    if x & 0x8000_0000 != 0 then !(!x >> n) else x >> n
  }

  // ---------------------------------------------------------------------------------------
  // Fields of 32-bit instructions
  // ---------------------------------------------------------------------------------------

  function Rd(inst: bv32): Reg {
    ((inst >> 7) & 0x1f) as bv5
  }

  function Rs1(inst: bv32): Reg {
    ((inst >> 15) & 0x1f) as bv5
  }

  function Rs2(inst: bv32): Reg {
    ((inst >> 20) & 0x1f) as bv5
  }

  function BImm(inst: bv32): bv32 {
    Asr(inst & 0x8000_0000, 19) | ((inst & 0x80) << 4) | ((inst & 0x7e00_0000) >> 20) | ((inst & 0xf00) >> 7)
  }

  function IImm(inst: bv32): bv32 {
    Asr(inst, 20)
  }

  function JImm(inst: bv32): bv32 {
    Asr(inst & 0x8000_0000, 11) | (inst & 0xf_f000) | ((inst & 0x10_0000) >> 9) | ((inst & 0x7fe0_0000) >> 20)
  }

  function SImm(inst: bv32): bv32 {
    Asr(inst & 0xfe00_0000, 20) | ((inst & 0xf80) >> 7)
  }

  function UImm(inst: bv32): bv32 {
    inst & 0xffff_f000
  }

  // ---------------------------------------------------------------------------------------
  // Fields of 16-bit instructions (the instruction is widened to 32 bits first)
  // ---------------------------------------------------------------------------------------

  function CRd(w: bv32): Reg {
    ((w >> 7) & 0x1f) as bv5
  }

  function CRs2(w: bv32): Reg {
    ((w >> 2) & 0x1f) as bv5
  }

  /** Registers 8 to 15, from bits 2 to 4. */
  function CRds(w: bv32): Reg {
    8 + ((w >> 2) & 0x7) as bv5
  }

  /** Registers 8 to 15, from bits 7 to 9. */
  function CRs1s(w: bv32): Reg {
    8 + ((w >> 7) & 0x7) as bv5
  }

  function CFunct3(w: bv32): bv32 {
    (w >> 13) & 0x7
  }

  function CiImm(w: bv32): bv32 {
    Asr((w & 0x1000) << 19, 26) | ((w & 0x7c) >> 2)
  }

  function CiAddi16spImm(w: bv32): bv32 {
    Asr((w & 0x1000) << 19, 22) | ((w & 0x18) << 4) | ((w & 0x20) << 1) | ((w & 0x4) << 3) | ((w & 0x40) >> 2)
  }

  function CiLwspImm(w: bv32): bv32 {
    ((w & 0xc) << 4) | ((w & 0x1000) >> 7) | ((w & 0x70) >> 2)
  }

  function CssSwspImm(w: bv32): bv32 {
    ((w & 0x180) >> 1) | ((w & 0x1e00) >> 7)
  }

  function CiwAddi4spnImm(w: bv32): bv32 {
    ((w & 0x1800) >> 7) | ((w & 0x780) >> 1) | ((w & 0x40) >> 4) | ((w & 0x20) >> 2)
  }

  function ClLwOffset(w: bv32): bv32 {
    ((w & 0x20) << 1) | ((w & 0x1c00) >> 7) | ((w & 0x40) >> 4)
  }

  function CbImm(w: bv32): bv32 {
    Asr((w & 0x1000) << 19, 23) | ((w & 0x60) << 1) | ((w & 0x4) << 3) | ((w & 0xc00) >> 7) | ((w & 0x18) >> 2)
  }

  function CjImm(w: bv32): bv32 {
    Asr((w & 0x1000) << 19, 20) | ((w & 0x100) << 2) | ((w & 0x600) >> 1) | ((w & 0x40) << 1)
    | ((w & 0x80) >> 1) | ((w & 0x4) << 3) | ((w & 0x800) >> 7) | ((w & 0x38) >> 2)
  }

  // ---------------------------------------------------------------------------------------
  // Decoding
  // ---------------------------------------------------------------------------------------

  /** `decode_compressed`. */
  function DecodeCompressed(inst: bv16): Op {
    var w := inst as bv32;
    var quadrant := w & 0x3;
    if quadrant == 0 then DecodeQuadrant0(w)
    else if quadrant == 1 then DecodeQuadrant1(w)
    else if quadrant == 2 then DecodeQuadrant2(w)
    else Unknown
  }

  function DecodeQuadrant0(w: bv32): Op {
    var f := CFunct3(w);
    if f == 0 then
      if CiwAddi4spnImm(w) == 0 then Unknown else Addi(CRds(w), 2, CiwAddi4spnImm(w))
    else if f == 2 then Lw(CRds(w), CRs1s(w), ClLwOffset(w))
    else if f == 6 then Sw(CRs1s(w), CRds(w), ClLwOffset(w))
    else Unknown
  }

  function DecodeQuadrant1(w: bv32): Op {
    var f := CFunct3(w);
    if f == 0 then Addi(CRd(w), CRd(w), CiImm(w))
    else if f == 1 then Jal(1, CjImm(w))
    else if f == 2 then Addi(CRd(w), 0, CiImm(w))
    else if f == 3 then
      if CRd(w) == 2 then
        if CiAddi16spImm(w) == 0 then Unknown else Addi(2, 2, CiAddi16spImm(w))
      else Lui(CRd(w), CiImm(w) << 12)
    else if f == 4 then DecodeArithmetic(w)
    else if f == 5 then Jal(0, CjImm(w))
    else if f == 6 then Beq(CRs1s(w), 0, CbImm(w))
    else Bne(CRs1s(w), 0, CbImm(w))
  }

  function DecodeArithmetic(w: bv32): Op {
    var kind := (w >> 10) & 0x3;
    var r := CRs1s(w);
    if kind == 0 then Srli(r, r, CiImm(w) & 31)
    else if kind == 1 then Srai(r, r, CiImm(w) & 31)
    else if kind == 2 then Andi(r, r, CiImm(w))
    else if w & 0x1000 != 0 then Unknown
    else
      var which := (w >> 5) & 0x3;
      if which == 0 then Sub(r, r, CRds(w))
      else if which == 1 then Xor(r, r, CRds(w))
      else if which == 2 then Or(r, r, CRds(w))
      else And(r, r, CRds(w))
  }

  function DecodeQuadrant2(w: bv32): Op {
    var f := CFunct3(w);
    if f == 0 then
      if CRd(w) == 0 then Unknown else Slli(CRd(w), CRd(w), CiImm(w) & 31)
    else if f == 2 then
      if CRd(w) == 0 then Unknown else Lw(CRd(w), 2, CiLwspImm(w))
    else if f == 4 then
      if (w >> 12) & 1 == 0 then
        if CRs2(w) != 0 then Add(CRd(w), 0, CRs2(w))
        else if CRd(w) == 0 then Unknown
        else Jalr(0, CRd(w), 0)
      else
        if CRs2(w) != 0 then Add(CRd(w), CRd(w), CRs2(w))
        else if CRd(w) == 0 then Break
        else Jalr(1, CRd(w), 0)
    else if f == 6 then Sw(2, CRs2(w), CssSwspImm(w))
    else Unknown
  }

  /** `decode_uncompressed`. */
  function DecodeUncompressed(inst: bv32): Op {
    var opcode := inst & 0x7f;
    var f3 := inst & 0x707f;
    if opcode == 0x37 then Lui(Rd(inst), UImm(inst))
    else if opcode == 0x17 then Auipc(Rd(inst), UImm(inst))
    else if opcode == 0x6f then Jal(Rd(inst), JImm(inst))
    else if opcode == 0x67 then
      if f3 == 0x67 then Jalr(Rd(inst), Rs1(inst), IImm(inst)) else Unknown
    else if opcode == 0x63 then DecodeBranch(inst)
    else if opcode == 0x03 then DecodeLoad(inst)
    else if opcode == 0x23 then
      if f3 == 0x23 then Sb(Rs1(inst), Rs2(inst), SImm(inst))
      else if f3 == 0x1023 then Sh(Rs1(inst), Rs2(inst), SImm(inst))
      else if f3 == 0x2023 then Sw(Rs1(inst), Rs2(inst), SImm(inst))
      else Unknown
    else if opcode == 0x13 then DecodeImmediate(inst)
    else if opcode == 0x33 then DecodeRegister(inst)
    else if opcode == 0x2f then
      if f3 == 0x202f then DecodeAtomic(inst) else Unknown
    else if opcode == 0x0f then
      if f3 == 0x0f then Fence else Unknown
    else if inst == 0x73 then Ecall
    else if inst == 0x0010_0073 then Break
    else Unknown
  }

  function DecodeBranch(inst: bv32): Op {
    var f3 := inst & 0x707f;
    if f3 == 0x63 then Beq(Rs1(inst), Rs2(inst), BImm(inst))
    else if f3 == 0x1063 then Bne(Rs1(inst), Rs2(inst), BImm(inst))
    else if f3 == 0x4063 then Blt(Rs1(inst), Rs2(inst), BImm(inst))
    else if f3 == 0x5063 then Bge(Rs1(inst), Rs2(inst), BImm(inst))
    else if f3 == 0x6063 then Bltu(Rs1(inst), Rs2(inst), BImm(inst))
    else if f3 == 0x7063 then Bgeu(Rs1(inst), Rs2(inst), BImm(inst))
    else Unknown
  }

  function DecodeLoad(inst: bv32): Op {
    var f3 := inst & 0x707f;
    if f3 == 0x03 then Lb(Rd(inst), Rs1(inst), IImm(inst))
    else if f3 == 0x1003 then Lh(Rd(inst), Rs1(inst), IImm(inst))
    else if f3 == 0x2003 then Lw(Rd(inst), Rs1(inst), IImm(inst))
    else if f3 == 0x4003 then Lbu(Rd(inst), Rs1(inst), IImm(inst))
    else if f3 == 0x5003 then Lhu(Rd(inst), Rs1(inst), IImm(inst))
    else Unknown
  }

  function DecodeImmediate(inst: bv32): Op {
    var f3 := inst & 0x707f;
    var f7 := inst & 0xfe00_707f;
    if f3 == 0x13 then Addi(Rd(inst), Rs1(inst), IImm(inst))
    else if f3 == 0x2013 then Slti(Rd(inst), Rs1(inst), IImm(inst))
    else if f3 == 0x3013 then Sltiu(Rd(inst), Rs1(inst), IImm(inst))
    else if f3 == 0x4013 then Xori(Rd(inst), Rs1(inst), IImm(inst))
    else if f3 == 0x6013 then Ori(Rd(inst), Rs1(inst), IImm(inst))
    else if f3 == 0x7013 then Andi(Rd(inst), Rs1(inst), IImm(inst))
    else if f7 == 0x1013 then Slli(Rd(inst), Rs1(inst), IImm(inst))
    else if f7 == 0x5013 then Srli(Rd(inst), Rs1(inst), IImm(inst))
    else if f7 == 0x4000_5013 then Srai(Rd(inst), Rs1(inst), IImm(inst))
    else Unknown
  }

  function DecodeRegister(inst: bv32): Op {
    var f7 := inst & 0xfe00_707f;
    var (rd, rs1, rs2) := (Rd(inst), Rs1(inst), Rs2(inst));
    if f7 == 0x33 then Add(rd, rs1, rs2)
    else if f7 == 0x4000_0033 then Sub(rd, rs1, rs2)
    else if f7 == 0x1033 then Sll(rd, rs1, rs2)
    else if f7 == 0x2033 then Slt(rd, rs1, rs2)
    else if f7 == 0x3033 then Sltu(rd, rs1, rs2)
    else if f7 == 0x4033 then Xor(rd, rs1, rs2)
    else if f7 == 0x5033 then Srl(rd, rs1, rs2)
    else if f7 == 0x4000_5033 then Sra(rd, rs1, rs2)
    else if f7 == 0x6033 then Or(rd, rs1, rs2)
    else if f7 == 0x7033 then And(rd, rs1, rs2)
    else if f7 == 0x0200_0033 then Mul(rd, rs1, rs2)
    else if f7 == 0x0200_1033 then Mulh(rd, rs1, rs2)
    else if f7 == 0x0200_2033 then Mulhsu(rd, rs1, rs2)
    else if f7 == 0x0200_3033 then Mulhu(rd, rs1, rs2)
    else if f7 == 0x0200_4033 then Div(rd, rs1, rs2)
    else if f7 == 0x0200_5033 then Divu(rd, rs1, rs2)
    else if f7 == 0x0200_6033 then Rem(rd, rs1, rs2)
    else if f7 == 0x0200_7033 then Remu(rd, rs1, rs2)
    else Unknown
  }

  function DecodeAtomic(inst: bv32): Op {
    var f5 := inst & 0xf800_707f;
    var (rd, rs1, rs2) := (Rd(inst), Rs1(inst), Rs2(inst));
    if f5 == 0x1000_202f then (if rs2 == 0 then LrW(rd, rs1) else Unknown)
    else if f5 == 0x1800_202f then ScW(rd, rs1, rs2)
    else if f5 == 0x0800_202f then Amo(Swap, rd, rs1, rs2)
    else if f5 == 0x0000_202f then Amo(AddTo, rd, rs1, rs2)
    else if f5 == 0x2000_202f then Amo(XorTo, rd, rs1, rs2)
    else if f5 == 0x6000_202f then Amo(AndTo, rd, rs1, rs2)
    else if f5 == 0x4000_202f then Amo(OrTo, rd, rs1, rs2)
    else if f5 == 0x8000_202f then Amo(MinOf, rd, rs1, rs2)
    else if f5 == 0xa000_202f then Amo(MaxOf, rd, rs1, rs2)
    else if f5 == 0xc000_202f then Amo(MinuOf, rd, rs1, rs2)
    else if f5 == 0xe000_202f then Amo(MaxuOf, rd, rs1, rs2)
    else Unknown
  }

  /** `as u16`: the low half. */
  function Narrow(inst: bv32): bv16 {
    (inst & 0xffff) as bv16
  }

  /** `decode`: the instruction and its length. */
  function Decode(inst: bv32): (Op, int) {
    if inst & 0x3 != 0x3 then (DecodeCompressed(Narrow(inst)), 2) else (DecodeUncompressed(inst), 4)
  }
}
