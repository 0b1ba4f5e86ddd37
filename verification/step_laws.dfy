/**
 One round of the run loop, from the word at the program counter to the instruction it encodes: the listing
 of 32-bit encodings, and for 16-bit words their expansions.
 */
module StepLaws {
  import opened MachineInts
  import opened RiscvDecode
  import opened RvcExpansion
  import opened RiscvEncoding
  import opened RiscvMachine
  import opened MachineRuns
  import opened Words

  lemma LowBitsOfOpcode(i: bv32)
    requires i & 0x7f in {0x37, 0x17, 0x6f, 0x67, 0x63, 0x03, 0x23, 0x13, 0x33, 0x2f, 0x0f, 0x73}
    ensures i & 0x3 == 0x3
  {
  }

  /** Every encoding of 32 bits ends in two ones, so the decoder takes it for one. */
  lemma EncodedHasFourBytes(i: bv32, op: Op)
    requires Encodes(i, op)
    ensures Decode(i) == (op, 4)
  {
    DecodesExactly(i, op);
    assert op != Unknown;
    Tables(i, op);
    LowBitsOfOpcode(i);
  }

  /** A word that encodes an instruction is executed as that instruction, and the next one is four bytes later. */
  lemma EncodedStep(m: Machine, op: Op)
    requires m.Valid() && Fetch(m.code, m.pc).Ok? && Encodes(Pattern(Fetch(m.code, m.pc).value), op)
    ensures RunStep(m) == Execute(m, op, 4)
  {
    EncodedHasFourBytes(Pattern(Fetch(m.code, m.pc).value), op);
    DecodedStep(m, op, 4);
  }

  /** A word that encodes no instruction of either length is not executed. */
  lemma UnknownStep(m: Machine)
    requires m.Valid() && Fetch(m.code, m.pc).Ok?
    requires var i := Pattern(Fetch(m.code, m.pc).value); i & 0x3 == 0x3 && forall op: Op :: !Encodes(i, op)
    ensures RunStep(m) == Err(Generic("Unknown instruction"))
  {
    DecodesExactly(Pattern(Fetch(m.code, m.pc).value), Unknown);
    UnknownWordFails(m, 4);
  }

  lemma UnknownWordFails(m: Machine, size: int)
    requires m.Valid()
    ensures Execute(m, Unknown, size) == Err(Generic("Unknown instruction"))
  {
  }

  lemma LegalIsShort(i: bv32)
    requires Legal(i & 0xffff)
    ensures i & 0x3 != 0x3 && Narrow(i) as bv32 == i & 0xffff
  {
    FunctAgrees(i & 0xffff);
  }

  lemma ShortDecodes(i: bv32, half: bv32) returns (inst: bv16)
    requires half == i & 0xffff && Legal(half)
    ensures Decode(i) == (DecodeCompressed(inst), 2) && inst as bv32 == half
  {
    LegalIsShort(i);
    inst := Narrow(i);
  }

  lemma HalfMeans(m: Machine, inst: bv16, half: bv32, next: Result<Machine, CpuError>)
    requires m.Valid() && half == inst as bv32 && Legal(half)
    requires next == Execute(m, DecodeCompressed(inst), 2)
    ensures IsShiftHint(half) ==> next == Err(Generic("Unknown instruction"))
    ensures !IsShiftHint(half) ==> next == Execute(m, DecodeUncompressed(Expand(half)), 2)
  {
    CompressedMeansExpansion(inst, m);
  }

  lemma DecodedStep(m: Machine, op: Op, size: int)
    requires m.Valid() && Fetch(m.code, m.pc).Ok? && Decode(Pattern(Fetch(m.code, m.pc).value)) == (op, size)
    ensures RunStep(m) == Execute(m, op, size)
  {
  }

  /**
   A word whose low half is a legal 16-bit instruction is executed as the 32-bit instruction that this half
   expands to, and the next one is two bytes later; the hint of `C.SLLI` is an error.
   */
  lemma CompressedStep(m: Machine, half: bv32)
    requires m.Valid() && Fetch(m.code, m.pc).Ok?
    requires half == Pattern(Fetch(m.code, m.pc).value) & 0xffff && Legal(half)
    ensures IsShiftHint(half) ==> RunStep(m) == Err(Generic("Unknown instruction"))
    ensures !IsShiftHint(half) ==> RunStep(m) == Execute(m, DecodeUncompressed(Expand(half)), 2)
  {
    var inst := ShortDecodes(Pattern(Fetch(m.code, m.pc).value), half);
    DecodedStep(m, DecodeCompressed(inst), 2);
    HalfMeans(m, inst, half, RunStep(m));
  }
}
