/**
 Where the decoders look: every instruction format by its fixed bits, every register number and immediate by
 the instruction bits it is made of, as the format tables of the RISC-V manual (version 2.2) give them in
 sections 2.2, 2.3 and 12.2 and in chapter 19.
 */
module IsaEncoding {
  import opened IsaSpec

  /** x[high:low] */
  function Slice(x: Word, high: bv6, low: bv6): Word
    requires low <= high < 32
  {
    (x << (31 - high)) >> (31 - high + low)
  }

  /** Bits 31 down to `from` of x are copies of bit `sign` of w. */
  predicate SignFills(x: Word, from: bv6, w: Word, sign: bv6)
    requires from < 32 && sign < 32
  {
    Slice(x, 31, from) == if Slice(w, sign, sign) == 0 then 0 else Slice(0xffffffff, 31, from)
  }

  // ---- register numbers ----

  lemma Registers32(w: Word)
    ensures Rd(w) as Word == Slice(w, 11, 7)
    ensures Rs1(w) as Word == Slice(w, 19, 15)
    ensures Rs2(w) as Word == Slice(w, 24, 20)
  {
  }

  /** The short forms number x8 to x15. */
  lemma Registers16(w: Word)
    ensures CRd(w) as Word == Slice(w, 11, 7)
    ensures CRs2(w) as Word == Slice(w, 6, 2)
    ensures CRs1Short(w) as Word == 8 + Slice(w, 9, 7)
    ensures CRs2Short(w) as Word == 8 + Slice(w, 4, 2)
  {
  }

  /** The registers that compressed instructions imply: the stack pointer x2 and the link register x1. */
  lemma ImpliedRegisters(op: Op16, w: Word)
    ensures op.C_LWSP? || op.C_SWSP? || op.C_ADDI4SPN? ==> Args16(op, w).rs1 == 2
    ensures op.C_JAL? || op.C_JALR? ==> Args16(op, w).rd == 1
    ensures op.C_J? || op.C_JR? ==> Args16(op, w).rd == 0
  {
    hide CRd, CRs2, CRs1Short, CRs2Short;
    hide CShamt, CImm6, CImmLui, CImm16sp, CImm4spn, CImmB, CImmJ, CImmLw, CImmLwsp, CImmSwsp;
  }

  // ---- immediates of 32-bit instructions ----

  lemma ImmIBits(w: Word)
    ensures Slice(ImmI(w), 10, 0) == Slice(w, 30, 20)
    ensures SignFills(ImmI(w), 11, w, 31)
  {
  }

  lemma ImmSBits(w: Word)
    ensures Slice(ImmS(w), 4, 0) == Slice(w, 11, 7)
    ensures Slice(ImmS(w), 10, 5) == Slice(w, 30, 25)
    ensures SignFills(ImmS(w), 11, w, 31)
  {
  }

  lemma ImmBBits(w: Word)
    ensures Slice(ImmB(w), 0, 0) == 0
    ensures Slice(ImmB(w), 4, 1) == Slice(w, 11, 8)
    ensures Slice(ImmB(w), 10, 5) == Slice(w, 30, 25)
    ensures Slice(ImmB(w), 11, 11) == Slice(w, 7, 7)
    ensures SignFills(ImmB(w), 12, w, 31)
  {
  }

  lemma ImmUBits(w: Word)
    ensures Slice(ImmU(w), 11, 0) == 0
    ensures Slice(ImmU(w), 31, 12) == Slice(w, 31, 12)
  {
  }

  lemma ImmJBits(w: Word)
    ensures Slice(ImmJ(w), 0, 0) == 0
    ensures Slice(ImmJ(w), 10, 1) == Slice(w, 30, 21)
    ensures Slice(ImmJ(w), 11, 11) == Slice(w, 20, 20)
    ensures Slice(ImmJ(w), 19, 12) == Slice(w, 19, 12)
    ensures SignFills(ImmJ(w), 20, w, 31)
  {
  }

  lemma ShamtBits(w: Word)
    ensures Slice(Shamt(w), 5, 0) == Slice(w, 25, 20)
    ensures Slice(Shamt(w), 31, 6) == 0
  {
  }

  // ---- immediates of compressed instructions ----

  lemma CShamtBits(w: Word)
    ensures Slice(CShamt(w), 4, 0) == Slice(w, 6, 2)
    ensures Slice(CShamt(w), 5, 5) == Slice(w, 12, 12)
    ensures Slice(CShamt(w), 31, 6) == 0
  {
  }

  lemma CImm6Bits(w: Word)
    ensures Slice(CImm6(w), 4, 0) == Slice(w, 6, 2)
    ensures SignFills(CImm6(w), 5, w, 12)
  {
  }

  lemma CImmLuiBits(w: Word)
    ensures Slice(CImmLui(w), 11, 0) == 0
    ensures Slice(CImmLui(w), 16, 12) == Slice(w, 6, 2)
    ensures SignFills(CImmLui(w), 17, w, 12)
  {
  }

  lemma CImm16spBits(w: Word)
    ensures Slice(CImm16sp(w), 3, 0) == 0
    ensures Slice(CImm16sp(w), 4, 4) == Slice(w, 6, 6)
    ensures Slice(CImm16sp(w), 5, 5) == Slice(w, 2, 2)
    ensures Slice(CImm16sp(w), 6, 6) == Slice(w, 5, 5)
    ensures Slice(CImm16sp(w), 8, 7) == Slice(w, 4, 3)
    ensures SignFills(CImm16sp(w), 9, w, 12)
  {
  }

  lemma CImm4spnBits(w: Word)
    ensures Slice(CImm4spn(w), 1, 0) == 0
    ensures Slice(CImm4spn(w), 2, 2) == Slice(w, 6, 6)
    ensures Slice(CImm4spn(w), 3, 3) == Slice(w, 5, 5)
    ensures Slice(CImm4spn(w), 5, 4) == Slice(w, 12, 11)
    ensures Slice(CImm4spn(w), 9, 6) == Slice(w, 10, 7)
    ensures Slice(CImm4spn(w), 31, 10) == 0
  {
  }

  lemma CImmBBits(w: Word)
    ensures Slice(CImmB(w), 0, 0) == 0
    ensures Slice(CImmB(w), 2, 1) == Slice(w, 4, 3)
    ensures Slice(CImmB(w), 4, 3) == Slice(w, 11, 10)
    ensures Slice(CImmB(w), 5, 5) == Slice(w, 2, 2)
    ensures Slice(CImmB(w), 7, 6) == Slice(w, 6, 5)
    ensures SignFills(CImmB(w), 8, w, 12)
  {
  }

  lemma CImmJBits(w: Word)
    ensures Slice(CImmJ(w), 0, 0) == 0
    ensures Slice(CImmJ(w), 3, 1) == Slice(w, 5, 3)
    ensures Slice(CImmJ(w), 4, 4) == Slice(w, 11, 11)
    ensures Slice(CImmJ(w), 5, 5) == Slice(w, 2, 2)
    ensures Slice(CImmJ(w), 6, 6) == Slice(w, 7, 7)
    ensures Slice(CImmJ(w), 7, 7) == Slice(w, 6, 6)
    ensures Slice(CImmJ(w), 9, 8) == Slice(w, 10, 9)
    ensures Slice(CImmJ(w), 10, 10) == Slice(w, 8, 8)
    ensures SignFills(CImmJ(w), 11, w, 12)
  {
  }

  lemma CImmLwBits(w: Word)
    ensures Slice(CImmLw(w), 1, 0) == 0
    ensures Slice(CImmLw(w), 2, 2) == Slice(w, 6, 6)
    ensures Slice(CImmLw(w), 5, 3) == Slice(w, 12, 10)
    ensures Slice(CImmLw(w), 6, 6) == Slice(w, 5, 5)
    ensures Slice(CImmLw(w), 31, 7) == 0
  {
  }

  lemma CImmLwspBits(w: Word)
    ensures Slice(CImmLwsp(w), 1, 0) == 0
    ensures Slice(CImmLwsp(w), 4, 2) == Slice(w, 6, 4)
    ensures Slice(CImmLwsp(w), 5, 5) == Slice(w, 12, 12)
    ensures Slice(CImmLwsp(w), 7, 6) == Slice(w, 3, 2)
    ensures Slice(CImmLwsp(w), 31, 8) == 0
  {
  }

  lemma CImmSwspBits(w: Word)
    ensures Slice(CImmSwsp(w), 1, 0) == 0
    ensures Slice(CImmSwsp(w), 5, 2) == Slice(w, 12, 9)
    ensures Slice(CImmSwsp(w), 7, 6) == Slice(w, 8, 7)
    ensures Slice(CImmSwsp(w), 31, 8) == 0
  {
  }

  // ---- fixed bits ----

  /** The bits under `mask` are those of `bits`; of the bits under `some`, if any, one is set. */
  datatype Format = Format(mask: Word, bits: Word, some: Word)

  predicate Fits(w: Word, f: Format) { Under(w, f.mask, f.bits) && SomeUnder(w, f.some) }

  predicate Under(w: Word, mask: Word, bits: Word) { w & mask == bits }

  predicate SomeUnder(w: Word, mask: Word) { mask == 0 || w & mask != 0 }

  function Format32(op: Op32): Format {
    match op
    case LUI => Format(0x7f, 0x37, 0)
    case AUIPC => Format(0x7f, 0x17, 0)
    case JAL => Format(0x7f, 0x6f, 0)
    case JALR => Format(0x707f, 0x67, 0)
    case BEQ => Format(0x707f, 0x63, 0)
    case BNE => Format(0x707f, 0x1063, 0)
    case BLT => Format(0x707f, 0x4063, 0)
    case BGE => Format(0x707f, 0x5063, 0)
    case BLTU => Format(0x707f, 0x6063, 0)
    case BGEU => Format(0x707f, 0x7063, 0)
    case LB => Format(0x707f, 0x03, 0)
    case LH => Format(0x707f, 0x1003, 0)
    case LW => Format(0x707f, 0x2003, 0)
    case LBU => Format(0x707f, 0x4003, 0)
    case LHU => Format(0x707f, 0x5003, 0)
    case SB => Format(0x707f, 0x23, 0)
    case SH => Format(0x707f, 0x1023, 0)
    case SW => Format(0x707f, 0x2023, 0)
    case ADDI => Format(0x707f, 0x13, 0)
    case SLTI => Format(0x707f, 0x2013, 0)
    case SLTIU => Format(0x707f, 0x3013, 0)
    case XORI => Format(0x707f, 0x4013, 0)
    case ORI => Format(0x707f, 0x6013, 0)
    case ANDI => Format(0x707f, 0x7013, 0)
    case SLLI => Format(0xfe00707f, 0x1013, 0)
    case SRLI => Format(0xfe00707f, 0x5013, 0)
    case SRAI => Format(0xfe00707f, 0x40005013, 0)
    case ADD => Format(0xfe00707f, 0x33, 0)
    case SUB => Format(0xfe00707f, 0x40000033, 0)
    case SLL => Format(0xfe00707f, 0x1033, 0)
    case SLT => Format(0xfe00707f, 0x2033, 0)
    case SLTU => Format(0xfe00707f, 0x3033, 0)
    case XOR => Format(0xfe00707f, 0x4033, 0)
    case SRL => Format(0xfe00707f, 0x5033, 0)
    case SRA => Format(0xfe00707f, 0x40005033, 0)
    case OR => Format(0xfe00707f, 0x6033, 0)
    case AND => Format(0xfe00707f, 0x7033, 0)
    case MUL => Format(0xfe00707f, 0x2000033, 0)
    case MULH => Format(0xfe00707f, 0x2001033, 0)
    case MULHSU => Format(0xfe00707f, 0x2002033, 0)
    case MULHU => Format(0xfe00707f, 0x2003033, 0)
    case DIV => Format(0xfe00707f, 0x2004033, 0)
    case DIVU => Format(0xfe00707f, 0x2005033, 0)
    case REM => Format(0xfe00707f, 0x2006033, 0)
    case REMU => Format(0xfe00707f, 0x2007033, 0)
  }

  function Format16(op: Op16): Format {
    match op
    case C_ADDI4SPN => Format(0xffffe003, 0x0000, 0x1fe0)
    case C_LW => Format(0xffffe003, 0x4000, 0)
    case C_SW => Format(0xffffe003, 0xc000, 0)
    case C_ADDI => Format(0xffffe003, 0x0001, 0)
    case C_JAL => Format(0xffffe003, 0x2001, 0)
    case C_LI => Format(0xffffe003, 0x4001, 0)
    case C_ADDI16SP => Format(0xffffef83, 0x6101, 0x107c)
    case C_LUI => Format(0xffffe003, 0x6001, 0x107c)
    case C_SRLI => Format(0xfffffc03, 0x8001, 0)
    case C_SRAI => Format(0xfffffc03, 0x8401, 0)
    case C_ANDI => Format(0xffffec03, 0x8801, 0)
    case C_SUB => Format(0xfffffc63, 0x8c01, 0)
    case C_XOR => Format(0xfffffc63, 0x8c21, 0)
    case C_OR => Format(0xfffffc63, 0x8c41, 0)
    case C_AND => Format(0xfffffc63, 0x8c61, 0)
    case C_J => Format(0xffffe003, 0xa001, 0)
    case C_BEQZ => Format(0xffffe003, 0xc001, 0)
    case C_BNEZ => Format(0xffffe003, 0xe001, 0)
    case C_SLLI => Format(0xfffff003, 0x0002, 0)
    case C_LWSP => Format(0xffffe003, 0x4002, 0xf80)
    case C_JR => Format(0xfffff07f, 0x8002, 0xf80)
    case C_MV => Format(0xfffff003, 0x8002, 0x7c)
    case C_JALR => Format(0xfffff07f, 0x9002, 0xf80)
    case C_ADD => Format(0xfffff003, 0x9002, 0x7c)
    case C_SWSP => Format(0xffffe003, 0xc002, 0)
  }

  // What the tests of the decoders mean as masks, for any field values.

  function NoneNeeded(w: Word): (ok: bool)
    ensures ok && SomeUnder(w, 0)
  {
    true
  }

  function RFact(w: Word, f7: bv7, f3: bv3, bits: Word): (ok: bool)
    requires bits == ((f7 as Word) << 25) | ((f3 as Word) << 12) | 0x33
    ensures ok && RValid(w, f7, f3) == Under(w, 0xfe00707f, bits)
  {
    true
  }

  function IFact(w: Word, f3: bv3, opcode: bv7, bits: Word): (ok: bool)
    requires bits == ((f3 as Word) << 12) | (opcode as Word)
    ensures ok && IValid(w, f3, opcode) == Under(w, 0x707f, bits)
  {
    true
  }

  function ShiftFact(w: Word, f6: bv6, f3: bv3, bits: Word): (ok: bool)
    requires bits == ((f6 as Word) << 26) | ((f3 as Word) << 12) | 0x13
    ensures ok && ShiftValid(w, f6, f3) == Under(w, 0xfe00707f, bits)
  {
    true
  }

  function UFact(w: Word, opcode: bv7, bits: Word): (ok: bool)
    requires bits == opcode as Word
    ensures ok && (Opcode(w) == opcode) == Under(w, 0x7f, bits)
  {
    true
  }

  /** A 32-bit module accepts exactly the words of its format. */
  lemma Accepts32(op: Op32, w: Word)
    ensures Valid32(op, w) <==> Fits(w, Format32(op))
  {
    hide RValid, IValid, ShiftValid, Opcode, Under, SomeUnder;
    assert NoneNeeded(w);
    match op
    case ADD => assert RFact(w, 0x00, 0, 0x33);
    case SUB => assert RFact(w, 0x20, 0, 0x40000033);
    case SLL => assert RFact(w, 0x00, 1, 0x1033);
    case SLT => assert RFact(w, 0x00, 2, 0x2033);
    case SLTU => assert RFact(w, 0x00, 3, 0x3033);
    case XOR => assert RFact(w, 0x00, 4, 0x4033);
    case SRL => assert RFact(w, 0x00, 5, 0x5033);
    case SRA => assert RFact(w, 0x20, 5, 0x40005033);
    case OR => assert RFact(w, 0x00, 6, 0x6033);
    case AND => assert RFact(w, 0x00, 7, 0x7033);
    case MUL => assert RFact(w, 0x01, 0, 0x2000033);
    case MULH => assert RFact(w, 0x01, 1, 0x2001033);
    case MULHSU => assert RFact(w, 0x01, 2, 0x2002033);
    case MULHU => assert RFact(w, 0x01, 3, 0x2003033);
    case DIV => assert RFact(w, 0x01, 4, 0x2004033);
    case DIVU => assert RFact(w, 0x01, 5, 0x2005033);
    case REM => assert RFact(w, 0x01, 6, 0x2006033);
    case REMU => assert RFact(w, 0x01, 7, 0x2007033);
    case ADDI => assert IFact(w, 0, 0x13, 0x13);
    case SLTI => assert IFact(w, 2, 0x13, 0x2013);
    case SLTIU => assert IFact(w, 3, 0x13, 0x3013);
    case XORI => assert IFact(w, 4, 0x13, 0x4013);
    case ORI => assert IFact(w, 6, 0x13, 0x6013);
    case ANDI => assert IFact(w, 7, 0x13, 0x7013);
    case SLLI => assert ShiftFact(w, 0x00, 1, 0x1013);
    case SRLI => assert ShiftFact(w, 0x00, 5, 0x5013);
    case SRAI => assert ShiftFact(w, 0x10, 5, 0x40005013);
    case AUIPC => assert UFact(w, 0x17, 0x17);
    case LUI => assert UFact(w, 0x37, 0x37);
    case JAL => assert UFact(w, 0x6f, 0x6f);
    case JALR => assert IFact(w, 0, 0x67, 0x67);
    case BEQ => assert IFact(w, 0, 0x63, 0x63);
    case BNE => assert IFact(w, 1, 0x63, 0x1063);
    case BLT => assert IFact(w, 4, 0x63, 0x4063);
    case BGE => assert IFact(w, 5, 0x63, 0x5063);
    case BLTU => assert IFact(w, 6, 0x63, 0x6063);
    case BGEU => assert IFact(w, 7, 0x63, 0x7063);
    case LB => assert IFact(w, 0, 0x03, 0x03);
    case LH => assert IFact(w, 1, 0x03, 0x1003);
    case LW => assert IFact(w, 2, 0x03, 0x2003);
    case LBU => assert IFact(w, 4, 0x03, 0x4003);
    case LHU => assert IFact(w, 5, 0x03, 0x5003);
    case SB => assert IFact(w, 0, 0x23, 0x23);
    case SH => assert IFact(w, 1, 0x23, 0x1023);
    case SW => assert IFact(w, 2, 0x23, 0x2023);
  }


  function CFact(w: Word, f3: bv3, opcode: bv2, bits: Word): (ok: bool)
    requires bits == ((f3 as Word) << 13) | (opcode as Word)
    ensures ok && (w >> 16 == 0 && CValid(w, f3, opcode)) == Under(w, 0xffffe003, bits)
  {
    true
  }

  function CShiftFact(w: Word, high: bv2, bits: Word): (ok: bool)
    requires bits == ((high as Word) << 10) | 0x8001
    ensures ok && (w >> 16 == 0 && CValid(w, 4, 1) && CFunct2High(w) == high && CShamt(w) & 0x20 == 0)
                  == Under(w, 0xfffffc03, bits)
  {
    true
  }

  function CaFact(w: Word, low: bv2, bits: Word): (ok: bool)
    requires bits == 0x8c01 | ((low as Word) << 5)
    ensures ok && (w >> 16 == 0 && CaValid(w, low)) == Under(w, 0xfffffc63, bits)
  {
    true
  }

  function CrFact(w: Word, f4: bv4, bits: Word): (ok: bool)
    requires bits == ((f4 as Word) << 12) | 2
    ensures ok && (w >> 16 == 0 && CrValid(w, f4)) == Under(w, 0xfffff003, bits)
    ensures (w >> 16 == 0 && CrValid(w, f4) && CRs2(w) == 0) == Under(w, 0xfffff07f, bits)
  {
    true
  }

  function SingleFacts(w: Word): (ok: bool)
    ensures ok && (w >> 16 == 0 && CValid(w, 3, 1) && CRd(w) == 2) == Under(w, 0xffffef83, 0x6101)
    ensures (w >> 16 == 0 && CValid(w, 4, 1) && CFunct2High(w) == 2) == Under(w, 0xffffec03, 0x8801)
    ensures (w >> 16 == 0 && CValid(w, 0, 2) && CShamt(w) & 0x20 == 0) == Under(w, 0xfffff003, 0x0002)
  {
    true
  }

  /** Register and immediate fields that must not be zero. */
  function SomeFacts(w: Word): (ok: bool)
    ensures ok && (CImm4spn(w) != 0) == SomeUnder(w, 0x1fe0)
    ensures (CImm16sp(w) != 0) == SomeUnder(w, 0x107c)
    ensures (CImmLui(w) != 0) == SomeUnder(w, 0x107c)
    ensures (CRd(w) != 0) == SomeUnder(w, 0xf80)
    ensures (CRs2(w) != 0) == SomeUnder(w, 0x7c)
    ensures (CRd(w) == 2) == Under(w, 0xf80, 0x100)
  {
    true
  }

  /** A compressed module accepts exactly the words of its format; C.LUI leaves x2 to C.ADDI16SP. */
  lemma Accepts16(op: Op16, w: Word)
    ensures Valid16(op, w) <==> Fits(w, Format16(op)) && !(op == C_LUI && Under(w, 0xf80, 0x100))
  {
    hide CValid, CrValid, CaValid, CFunct2High, CShamt, CRd, CRs2, CImm4spn, CImm16sp, CImmLui, Under, SomeUnder;
    assert NoneNeeded(w) && SomeFacts(w) && SingleFacts(w);
    match op
    case C_ADDI4SPN => assert CFact(w, 0, 0, 0x0000);
    case C_LW => assert CFact(w, 2, 0, 0x4000);
    case C_SW => assert CFact(w, 6, 0, 0xc000);
    case C_ADDI => assert CFact(w, 0, 1, 0x0001);
    case C_JAL => assert CFact(w, 1, 1, 0x2001);
    case C_LI => assert CFact(w, 2, 1, 0x4001);
    case C_ADDI16SP =>
    case C_LUI => assert CFact(w, 3, 1, 0x6001);
    case C_SRLI => assert CShiftFact(w, 0, 0x8001);
    case C_SRAI => assert CShiftFact(w, 1, 0x8401);
    case C_ANDI =>
    case C_SUB => assert CaFact(w, 0, 0x8c01);
    case C_XOR => assert CaFact(w, 1, 0x8c21);
    case C_OR => assert CaFact(w, 2, 0x8c41);
    case C_AND => assert CaFact(w, 3, 0x8c61);
    case C_J => assert CFact(w, 5, 1, 0xa001);
    case C_BEQZ => assert CFact(w, 6, 1, 0xc001);
    case C_BNEZ => assert CFact(w, 7, 1, 0xe001);
    case C_SLLI =>
    case C_LWSP => assert CFact(w, 2, 2, 0x4002);
    case C_JR => assert CrFact(w, 8, 0x8002);
    case C_MV => assert CrFact(w, 8, 0x8002);
    case C_JALR => assert CrFact(w, 9, 0x9002);
    case C_ADD => assert CrFact(w, 9, 0x9002);
    case C_SWSP => assert CFact(w, 6, 2, 0xc002);
  }

  // ---- operands by type ----

  /** The instruction types; Shift is the I type with a shift amount for its immediate. */
  datatype Type = R | I | Shift | S | B | U | J

  function TypeOf(op: Op32): Type {
    match op
    case ADD | SUB | SLL | SLT | SLTU | XOR | SRL | SRA | OR | AND => R
    case MUL | MULH | MULHSU | MULHU | DIV | DIVU | REM | REMU => R
    case ADDI | SLTI | SLTIU | XORI | ORI | ANDI => I
    case SLLI | SRLI | SRAI => Shift
    case LB | LH | LW | LBU | LHU | JALR => I
    case SB | SH | SW => S
    case BEQ | BNE | BLT | BGE | BLTU | BGEU => B
    case LUI | AUIPC => U
    case JAL => J
  }

  /** The registers and the immediate of each type; x0 stands for a register that the type does not have. */
  function FieldsOf(t: Type, w: Word): Args {
    match t
    case R => Args(Rs1(w), Rs2(w), Rd(w), 0)
    case I => Args(Rs1(w), 0, Rd(w), ImmI(w))
    case Shift => Args(Rs1(w), 0, Rd(w), Shamt(w))
    case S => Args(Rs1(w), Rs2(w), 0, ImmS(w))
    case B => Args(Rs1(w), Rs2(w), 0, ImmB(w))
    case U => Args(0, 0, Rd(w), ImmU(w))
    case J => Args(0, 0, Rd(w), ImmJ(w))
  }

  lemma DecodesRegister(op: Op32, w: Word)
    requires TypeOf(op).R?
    ensures Args32(op, w) == FieldsOf(TypeOf(op), w)
  {
    hide Shamt, Rs1, Rs2, Rd, ImmI, ImmS, ImmB, ImmJ, ImmU;
  }

  lemma DecodesImmediate(op: Op32, w: Word)
    requires TypeOf(op).I? || TypeOf(op).Shift?
    ensures Args32(op, w) == FieldsOf(TypeOf(op), w)
  {
    hide Shamt, Rs1, Rs2, Rd, ImmI, ImmS, ImmB, ImmJ, ImmU;
  }

  lemma DecodesOthers(op: Op32, w: Word)
    requires TypeOf(op).S? || TypeOf(op).B? || TypeOf(op).U? || TypeOf(op).J?
    ensures Args32(op, w) == FieldsOf(TypeOf(op), w)
  {
    hide Shamt, Rs1, Rs2, Rd, ImmI, ImmS, ImmB, ImmJ, ImmU;
  }

  /** Every module decodes the operands of its type. */
  lemma DecodesOperands(op: Op32, w: Word)
    ensures Args32(op, w) == FieldsOf(TypeOf(op), w)
  {
    hide *;
    if TypeOf(op).R? {
      DecodesRegister(op, w);
    } else if TypeOf(op).I? || TypeOf(op).Shift? {
      DecodesImmediate(op, w);
    } else {
      DecodesOthers(op, w);
    }
  }
}
