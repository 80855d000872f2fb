/**
 Chapter 12 of the RISC-V manual (version 2.2) defines every compressed instruction by a 32-bit one.
 Each compressed module of hvl/rvfimon.v expects what the module of its expansion expects, for all
 operands; only the instruction length, 2 instead of 4, differs.

 In contracts, `P(x) == true` instead of `P(x)` keeps the verifier from unfolding P where it is only passed on.
 */
module CompressedExpansion {
  import opened IsaSpec

  // ---- instruction formats, section 2.2 ----

  function EncR(f7: bv7, rs2: Reg, rs1: Reg, f3: bv3, rd: Reg): Word {
    ((f7 as bv32) << 25) | ((rs2 as bv32) << 20) | ((rs1 as bv32) << 15) | ((f3 as bv32) << 12) | ((rd as bv32) << 7) | 0x33
  }

  function EncI(imm: Word, rs1: Reg, f3: bv3, rd: Reg, opcode: bv7): Word {
    (imm << 20) | ((rs1 as bv32) << 15) | ((f3 as bv32) << 12) | ((rd as bv32) << 7) | (opcode as bv32)
  }

  /** Shifts: funct6 above a shift amount of 5 bits in RV32. */
  function EncShift(f6: bv6, shamt: Word, rs1: Reg, f3: bv3, rd: Reg): Word {
    ((f6 as bv32) << 26) | ((shamt & 0x1f) << 20) | ((rs1 as bv32) << 15) | ((f3 as bv32) << 12) | ((rd as bv32) << 7) | 0x13
  }

  function EncS(imm: Word, rs2: Reg, rs1: Reg, f3: bv3): Word {
    (((imm >> 5) & 0x7f) << 25) | ((rs2 as bv32) << 20) | ((rs1 as bv32) << 15) | ((f3 as bv32) << 12) | ((imm & 0x1f) << 7) | 0x23
  }

  function EncB(imm: Word, rs2: Reg, rs1: Reg, f3: bv3): Word {
    (((imm >> 12) & 1) << 31) | (((imm >> 5) & 0x3f) << 25) | ((rs2 as bv32) << 20) | ((rs1 as bv32) << 15)
    | ((f3 as bv32) << 12) | (((imm >> 1) & 0xf) << 8) | (((imm >> 11) & 1) << 7) | 0x63
  }

  function EncU(imm: Word, rd: Reg, opcode: bv7): Word {
    (imm & 0xfffff000) | ((rd as bv32) << 7) | (opcode as bv32)
  }

  function EncJ(imm: Word, rd: Reg): Word {
    (((imm >> 20) & 1) << 31) | (((imm >> 1) & 0x3ff) << 21) | (((imm >> 11) & 1) << 20) | (((imm >> 12) & 0xff) << 12)
    | ((rd as bv32) << 7) | 0x6f
  }

  // ---- the expansion table ----

  function Expand(op: Op16, w: Word): Word {
    var rd, rs2, rds, rs2s := CRd(w), CRs2(w), CRs1Short(w), CRs2Short(w);
    match op
    case C_ADDI4SPN => EncI(CImm4spn(w), 2, 0, rs2s, 0x13)
    case C_LW => EncI(CImmLw(w), rds, 2, rs2s, 0x03)
    case C_SW => EncS(CImmLw(w), rs2s, rds, 2)
    case C_ADDI => EncI(CImm6(w), rd, 0, rd, 0x13)
    case C_JAL => EncJ(CImmJ(w), 1)
    case C_LI => EncI(CImm6(w), 0, 0, rd, 0x13)
    case C_ADDI16SP => EncI(CImm16sp(w), 2, 0, 2, 0x13)
    case C_LUI => EncU(CImmLui(w), rd, 0x37)
    case C_SRLI => EncShift(0x00, CShamt(w), rds, 5, rds)
    case C_SRAI => EncShift(0x10, CShamt(w), rds, 5, rds)
    case C_ANDI => EncI(CImm6(w), rds, 7, rds, 0x13)
    case C_SUB => EncR(0x20, rs2s, rds, 0, rds)
    case C_XOR => EncR(0x00, rs2s, rds, 4, rds)
    case C_OR => EncR(0x00, rs2s, rds, 6, rds)
    case C_AND => EncR(0x00, rs2s, rds, 7, rds)
    case C_J => EncJ(CImmJ(w), 0)
    case C_BEQZ => EncB(CImmB(w), 0, rds, 0)
    case C_BNEZ => EncB(CImmB(w), 0, rds, 1)
    case C_SLLI => EncShift(0x00, CShamt(w), rd, 1, rd)
    case C_LWSP => EncI(CImmLwsp(w), 2, 2, rd, 0x03)
    case C_JR => EncI(0, rd, 0, 0, 0x67)
    case C_MV => EncR(0x00, rs2, 0, 0, rd)
    case C_JALR => EncI(0, rd, 0, 1, 0x67)
    case C_ADD => EncR(0x00, rs2, rd, 0, rd)
    case C_SWSP => EncS(CImmSwsp(w), rs2, 2, 2)
  }

  lemma ShamtFits(w: Word)
    requires CShamt(w) & 0x20 == 0
    ensures CShamt(w) & 0x1f == CShamt(w)
  {
  }

  /** The 32-bit operation of an expansion; the encoding supplies the rest. */
  function BaseOp(op: Op16): Op32 {
    match op
    case C_ADDI4SPN | C_ADDI | C_ADDI16SP | C_LI => ADDI
    case C_LUI => LUI
    case C_SLLI => SLLI
    case C_SRLI => SRLI
    case C_SRAI => SRAI
    case C_ANDI => ANDI
    case C_SUB => SUB
    case C_XOR => XOR
    case C_OR => OR
    case C_AND => AND
    case C_MV | C_ADD => ADD
    case C_LW | C_LWSP => LW
    case C_SW | C_SWSP => SW
    case C_J | C_JAL => JAL
    case C_JR | C_JALR => JALR
    case C_BEQZ => BEQ
    case C_BNEZ => BNE
  }

  /** The expansion decodes to the fields of the compressed word. */
  predicate SameFields(op: Op16, w: Word) {
    Valid32(BaseOp(op), Expand(op, w)) && Args32(BaseOp(op), Expand(op, w)) == Args16(op, w)
  }

  lemma FieldsOfCSUB(w: Word)
    ensures SameFields(C_SUB, w) == true
  {
  }

  lemma FieldsOfCXOR(w: Word)
    ensures SameFields(C_XOR, w) == true
  {
  }

  lemma FieldsOfCOR(w: Word)
    ensures SameFields(C_OR, w) == true
  {
  }

  lemma FieldsOfCAND(w: Word)
    ensures SameFields(C_AND, w) == true
  {
  }

  lemma FieldsOfCMV(w: Word)
    ensures SameFields(C_MV, w) == true
  {
  }

  lemma FieldsOfCADD(w: Word)
    ensures SameFields(C_ADD, w) == true
  {
  }

  lemma FieldsOfCADDI4SPN(w: Word)
    ensures SameFields(C_ADDI4SPN, w) == true
  {
  }

  lemma FieldsOfCADDI(w: Word)
    ensures SameFields(C_ADDI, w) == true
  {
  }

  lemma FieldsOfCLI(w: Word)
    ensures SameFields(C_LI, w) == true
  {
  }

  lemma FieldsOfCADDI16SP(w: Word)
    requires CRd(w) == 2
    ensures SameFields(C_ADDI16SP, w) == true
  {
  }

  lemma FieldsOfCANDI(w: Word)
    ensures SameFields(C_ANDI, w) == true
  {
  }

  lemma FieldsOfCLUI(w: Word)
    ensures SameFields(C_LUI, w) == true
  {
  }

  lemma FieldsOfCSLLI(w: Word, s: Word)
    requires s == CShamt(w) && s & 0x1f == s
    ensures SameFields(C_SLLI, w) == true
  {
  }

  lemma FieldsOfCSRLI(w: Word, s: Word)
    requires s == CShamt(w) && s & 0x1f == s
    ensures SameFields(C_SRLI, w) == true
  {
  }

  lemma FieldsOfCSRAI(w: Word, s: Word)
    requires s == CShamt(w) && s & 0x1f == s
    ensures SameFields(C_SRAI, w) == true
  {
  }

  lemma FieldsOfCLW(w: Word)
    ensures SameFields(C_LW, w) == true
  {
  }

  lemma FieldsOfCLWSP(w: Word)
    ensures SameFields(C_LWSP, w) == true
  {
  }

  lemma FieldsOfCSW(w: Word)
    ensures SameFields(C_SW, w) == true
  {
  }

  lemma FieldsOfCSWSP(w: Word)
    ensures SameFields(C_SWSP, w) == true
  {
  }

  /** An even offset of 21 bits survives the J format. */
  predicate JumpRange(imm: Word) { imm & 1 == 0 && (imm >> 20 == 0 || imm >> 20 == 0xfff) }

  lemma CImmJInRange(w: Word)
    ensures JumpRange(CImmJ(w))
  {
  }

  lemma JFormat(imm: Word, rd: Reg)
    ensures Opcode(EncJ(imm, rd)) == 0x6f && Rd(EncJ(imm, rd)) == rd
  {
  }

  lemma JOffset(imm: Word, rd: Reg)
    ensures JumpRange(imm) ==> ImmJ(EncJ(imm, rd)) == imm
  {
  }

  lemma FieldsOfCJ(w: Word)
    ensures SameFields(C_J, w) == true
  {
    hide EncJ, CImmJ, ImmJ, Rd, Opcode, JumpRange, CRd, CRs2, CRs1Short, CRs2Short;
    CImmJInRange(w);
    JFormat(CImmJ(w), 0);
    JOffset(CImmJ(w), 0);
  }

  lemma FieldsOfCJAL(w: Word)
    ensures SameFields(C_JAL, w) == true
  {
    hide EncJ, CImmJ, ImmJ, Rd, Opcode, JumpRange, CRd, CRs2, CRs1Short, CRs2Short;
    CImmJInRange(w);
    JFormat(CImmJ(w), 1);
    JOffset(CImmJ(w), 1);
  }

  lemma FieldsOfCJR(w: Word)
    ensures SameFields(C_JR, w) == true
  {
  }

  lemma FieldsOfCJALR(w: Word)
    ensures SameFields(C_JALR, w) == true
  {
  }

  lemma FieldsOfCBEQZ(w: Word)
    ensures SameFields(C_BEQZ, w) == true
  {
  }

  lemma FieldsOfCBNEZ(w: Word)
    ensures SameFields(C_BNEZ, w) == true
  {
  }

  lemma FieldsAgree(op: Op16, w: Word)
    requires Valid16(op, w)
    ensures SameFields(op, w) == true
  {
    if CShamt(w) & 0x20 == 0 {
      ShamtFits(w);
    }
    match op
    case C_SUB => FieldsOfCSUB(w);
    case C_XOR => FieldsOfCXOR(w);
    case C_OR => FieldsOfCOR(w);
    case C_AND => FieldsOfCAND(w);
    case C_MV => FieldsOfCMV(w);
    case C_ADD => FieldsOfCADD(w);
    case C_ADDI4SPN => FieldsOfCADDI4SPN(w);
    case C_ADDI => FieldsOfCADDI(w);
    case C_LI => FieldsOfCLI(w);
    case C_ADDI16SP => FieldsOfCADDI16SP(w);
    case C_ANDI => FieldsOfCANDI(w);
    case C_LUI => FieldsOfCLUI(w);
    case C_SLLI => FieldsOfCSLLI(w, CShamt(w));
    case C_SRLI => FieldsOfCSRLI(w, CShamt(w));
    case C_SRAI => FieldsOfCSRAI(w, CShamt(w));
    case C_LW => FieldsOfCLW(w);
    case C_LWSP => FieldsOfCLWSP(w);
    case C_SW => FieldsOfCSW(w);
    case C_SWSP => FieldsOfCSWSP(w);
    case C_J => FieldsOfCJ(w);
    case C_JAL => FieldsOfCJAL(w);
    case C_JR => FieldsOfCJR(w);
    case C_JALR => FieldsOfCJALR(w);
    case C_BEQZ => FieldsOfCBEQZ(w);
    case C_BNEZ => FieldsOfCBNEZ(w);
  }

  // ---- and then does the same ----

  /** RVFI reports 0 for an operand whose register is x0. */
  predicate ZeroArgs(d: Args, x: Operands) {
    (d.rs1 == 0 ==> x.rs1 == 0) && (d.rs2 == 0 ==> x.rs2 == 0)
  }

  lemma CopyIsAdd(d: Args, x: Operands)
    requires x.rs1 == 0
    ensures Perform(CopyReg, d, 2, x) == Perform(Compute(Add), d, 2, x)
  {
  }

  lemma LoadIsAddImm(d: Args, x: Operands)
    requires x.rs1 == 0
    ensures Perform(LoadImm, d, 2, x) == Perform(ComputeImm(Add), d, 2, x)
  {
  }

  lemma NearIsJump(d: Args, x: Operands)
    ensures Perform(JumpNear, d, 2, x) == Perform(Jump, d, 2, x).(trap := false)
  {
  }

  lemma BareIsJumpReg(d: Args, x: Operands)
    requires d.imm == 0
    ensures Perform(JumpBare, d, 2, x) == Perform(JumpReg, d, 2, x)
  {
  }

  lemma ZeroIsBranch(d: Args, x: Operands)
    requires x.rs2 == 0
    ensures Perform(BranchZero(true), d, 2, x) == Perform(Branch(Eq), d, 2, x)
    ensures Perform(BranchZero(false), d, 2, x) == Perform(Branch(Ne), d, 2, x)
  {
  }

  /** Pairs of actions with the same outputs on these fields, but for the odd-target check. */
  predicate Matches(act16: Action, act32: Action, d: Args) {
    || (act16 == act32 && act16 != JumpNear)
    || (act16 == CopyReg && act32 == Compute(Add) && d.rs1 == 0)
    || (act16 == LoadImm && act32 == ComputeImm(Add) && d.rs1 == 0)
    || (act16 == JumpNear && act32 == Jump)
    || (act16 == JumpBare && act32 == JumpReg && d.imm == 0)
    || (act16 == BranchZero(true) && act32 == Branch(Eq) && d.rs2 == 0)
    || (act16 == BranchZero(false) && act32 == Branch(Ne) && d.rs2 == 0)
  }

  lemma ActionsMatch(op: Op16, d: Args)
    requires op == C_LI || op == C_MV ==> d.rs1 == 0
    requires op == C_BEQZ || op == C_BNEZ ==> d.rs2 == 0
    requires op == C_JR || op == C_JALR ==> d.imm == 0
    ensures Matches(Action16(op), Action32(BaseOp(op)), d)
  {
  }

  /** From the same fields matching actions compute the same outputs, but for the odd-target check. */
  lemma PerformAgrees(act16: Action, act32: Action, d: Args, x: Operands)
    requires Matches(act16, act32, d)
    requires d.rs1 == 0 ==> x.rs1 == 0
    requires d.rs2 == 0 ==> x.rs2 == 0
    ensures var p32 := Perform(act32, d, 2, x);
            Perform(act16, d, 2, x) == if act16 == JumpNear then p32.(trap := false) else p32
  {
    if act16 != act32 {
      match act16
      case LoadImm => LoadIsAddImm(d, x);
      case CopyReg => CopyIsAdd(d, x);
      case JumpNear => NearIsJump(d, x);
      case JumpBare => BareIsJumpReg(d, x);
      case BranchZero(_) => ZeroIsBranch(d, x);
    }
  }

  /** The compressed module's outputs are those of the expansion; only direct jumps omit the odd-target check. */
  predicate SameEffect(op: Op16, w: Word, x: Operands) {
    var e16, e32 := Exec16(op, w, x), Exec32(BaseOp(op), Expand(op, w), 2, x);
    e16 == if Action16(op) == JumpNear then e32.(trap := false) else e32
  }

  /** Registers and immediates the table fixes. */
  lemma FixedFields(op: Op16, w: Word)
    ensures var d := Args16(op, w);
            && (op == C_LI || op == C_MV ==> d.rs1 == 0)
            && (op == C_BEQZ || op == C_BNEZ ==> d.rs2 == 0)
            && (op == C_JR || op == C_JALR ==> d.imm == 0)
  {
  }

  lemma Ungate(e16: Expected, e32: Expected, p16: Expected, p32: Expected, jump: bool)
    requires e16 == Gated(p16) && e32 == Gated(p32) && p16 == if jump then p32.(trap := false) else p32
    ensures e16 == if jump then e32.(trap := false) else e32
  {
  }

  lemma Executed(op: Op16, w: Word, d: Args, x: Operands)
    requires d == Args16(op, w) && d == Args32(BaseOp(op), Expand(op, w))
    ensures Exec16(op, w, x) == Gated(Perform(Action16(op), d, 2, x))
    ensures Exec32(BaseOp(op), Expand(op, w), 2, x) == Gated(Perform(Action32(BaseOp(op)), d, 2, x))
  {
  }

  lemma TableMatches(op: Op16, w: Word)
    ensures Matches(Action16(op), Action32(BaseOp(op)), Args16(op, w)) == true
  {
    FixedFields(op, w);
    ActionsMatch(op, Args16(op, w));
  }

  lemma SameArgs(op: Op16, w: Word)
    requires SameFields(op, w)
    ensures Args32(BaseOp(op), Expand(op, w)) == Args16(op, w)
  {
  }

  /** Fields agreeing, both sides are gated outputs of matching actions. */
  lemma OutputsOf(op: Op16, w: Word, d: Args, x: Operands) returns (p16: Expected, p32: Expected)
    requires d == Args16(op, w) && SameFields(op, w) == true && ZeroArgs(d, x) == true
    ensures Exec16(op, w, x) == Gated(p16) && Exec32(BaseOp(op), Expand(op, w), 2, x) == Gated(p32)
    ensures p32 == Perform(Action32(BaseOp(op)), d, 2, x)
    ensures p16 == if Action16(op) == JumpNear then p32.(trap := false) else p32
  {
    SameArgs(op, w);
    p16, p32 := Perform(Action16(op), d, 2, x), Perform(Action32(BaseOp(op)), d, 2, x);
    TableMatches(op, w);
    PerformAgrees(Action16(op), Action32(BaseOp(op)), d, x);
    Executed(op, w, d, x);
  }

  /** Every valid compressed word expects what its 32-bit expansion expects, two bytes to the next instruction. */
  lemma ExpansionAgrees(op: Op16, w: Word, x: Operands)
    requires Valid16(op, w)
    ensures SameFields(op, w) == true
    ensures ZeroArgs(Args16(op, w), x) ==> SameEffect(op, w, x) == true
  {
    FieldsAgree(op, w);
    if ZeroArgs(Args16(op, w), x) {
      EffectsAgree(op, w, x);
    }
  }

  lemma UpToTrap(op: Op16, w: Word, x: Operands, e16: Expected, e32: Expected, jump: bool)
    requires e16 == Exec16(op, w, x) && e32 == Exec32(BaseOp(op), Expand(op, w), 2, x)
    requires jump == (Action16(op) == JumpNear) && e16 == if jump then e32.(trap := false) else e32
    ensures SameEffect(op, w, x) == true
  {
  }

  lemma EffectsAgree(op: Op16, w: Word, x: Operands)
    requires SameFields(op, w) == true && ZeroArgs(Args16(op, w), x) == true
    ensures SameEffect(op, w, x) == true
  {
    var p16, p32 := OutputsOf(op, w, Args16(op, w), x);
    var e16, e32, jump := Exec16(op, w, x), Exec32(BaseOp(op), Expand(op, w), 2, x), Action16(op) == JumpNear;
    Ungate(e16, e32, p16, p32, jump);
    UpToTrap(op, w, x, e16, e32, jump);
  }

  /** The check the compressed jumps omit can fail only at an odd pc. */
  lemma OddTargetNeedsOddPc(op: Op16, w: Word, x: Operands)
    requires op == C_J || op == C_JAL
    ensures Perform(Jump, Args16(op, w), 2, x).trap <==> x.pc & 1 != 0
  {
  }

  /** At an even pc a compressed instruction and its expansion agree in every output. */
  lemma EvenPcAgrees(op: Op16, w: Word, x: Operands)
    requires Valid16(op, w) && ZeroArgs(Args16(op, w), x) && x.pc & 1 == 0
    ensures Exec16(op, w, x) == Exec32(BaseOp(op), Expand(op, w), 2, x)
  {
    FieldsAgree(op, w);
    EqualWithoutTrap(op, w, x);
  }

  lemma EqualWithoutTrap(op: Op16, w: Word, x: Operands)
    requires SameFields(op, w) == true && ZeroArgs(Args16(op, w), x) == true && x.pc & 1 == 0
    ensures Exec16(op, w, x) == Exec32(BaseOp(op), Expand(op, w), 2, x)
  {
    var p16, p32 := OutputsOf(op, w, Args16(op, w), x);
    if Action16(op) == JumpNear {
      DirectJump(op);
      OddTargetNeedsOddPc(op, w, x);
    }
  }

  lemma DirectJump(op: Op16)
    ensures Action16(op) == JumpNear <==> op == C_J || op == C_JAL
    ensures op == C_J || op == C_JAL ==> Action32(BaseOp(op)) == Jump
  {
  }
}
