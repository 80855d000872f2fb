/**
 At most one instruction module is valid for any word, so the priority chains of isa_spec select the
 same result in whatever order they are written.

 In contracts, `P(x) == true` instead of `P(x)` keeps the verifier from unfolding P where it is only passed on.
 */
module IsaDecoding {
  import opened IsaSpec

  // ---- a decoder by field, one answer per word ----

  function DecodeR(f7: bv7, f3: bv3): Op32 {
    if f7 == 0x01 then
      if f3 == 0 then MUL else if f3 == 1 then MULH else if f3 == 2 then MULHSU else if f3 == 3 then MULHU
      else if f3 == 4 then DIV else if f3 == 5 then DIVU else if f3 == 6 then REM else REMU
    else if f7 == 0x20 then (if f3 == 0 then SUB else SRA)
    else
      if f3 == 0 then ADD else if f3 == 1 then SLL else if f3 == 2 then SLT else if f3 == 3 then SLTU
      else if f3 == 4 then XOR else if f3 == 5 then SRL else if f3 == 6 then OR else AND
  }

  function DecodeI(f6: bv6, f3: bv3): Op32 {
    if f3 == 0 then ADDI else if f3 == 1 then SLLI else if f3 == 2 then SLTI else if f3 == 3 then SLTIU
    else if f3 == 4 then XORI else if f3 == 5 then (if f6 == 0 then SRLI else SRAI) else if f3 == 6 then ORI else ANDI
  }

  function Decode32(opcode: bv7, f3: bv3, f7: bv7, f6: bv6): Op32 {
    if opcode == 0x33 then DecodeR(f7, f3)
    else if opcode == 0x13 then DecodeI(f6, f3)
    else if opcode == 0x17 then AUIPC
    else if opcode == 0x37 then LUI
    else if opcode == 0x6f then JAL
    else if opcode == 0x67 then JALR
    else if opcode == 0x63 then
      if f3 == 0 then BEQ else if f3 == 1 then BNE else if f3 == 4 then BLT else if f3 == 5 then BGE
      else if f3 == 6 then BLTU else BGEU
    else if opcode == 0x03 then
      if f3 == 0 then LB else if f3 == 1 then LH else if f3 == 2 then LW else if f3 == 4 then LBU else LHU
    else if f3 == 0 then SB else if f3 == 1 then SH else SW
  }

  /** The fields alone decide which 32-bit module can be valid. */
  lemma DecodesTo32(op: Op32, w: Word, opcode: bv7, f3: bv3, f7: bv7, f6: bv6)
    requires opcode == Opcode(w) && f3 == Funct3(w) && f7 == Funct7(w) && f6 == Funct6(w)
    requires Valid32(op, w)
    ensures Decode32(opcode, f3, f7, f6) == op
  {
    match op
    case ADD | SUB | SLL | SLT | SLTU | XOR | SRL | SRA | OR | AND
       | MUL | MULH | MULHSU | MULHU | DIV | DIVU | REM | REMU => assert opcode == 0x33;
    case ADDI | SLTI | SLTIU | XORI | ORI | ANDI | SLLI | SRLI | SRAI => assert opcode == 0x13;
    case BEQ | BNE | BLT | BGE | BLTU | BGEU => assert opcode == 0x63;
    case LB | LH | LW | LBU | LHU => assert opcode == 0x03;
    case SB | SH | SW => assert opcode == 0x23;
    case AUIPC | LUI | JAL | JALR =>
  }

  lemma Disjoint32(p: Op32, q: Op32, w: Word)
    requires Valid32(p, w) == true && Valid32(q, w) == true
    ensures p == q
  {
    DecodesTo32(p, w, Opcode(w), Funct3(w), Funct7(w), Funct6(w));
    DecodesTo32(q, w, Opcode(w), Funct3(w), Funct7(w), Funct6(w));
  }

  function DecodeQ1(f3: bv3, rd: Reg, high: bv2, low: bv2): Op16 {
    if f3 == 0 then C_ADDI else if f3 == 1 then C_JAL else if f3 == 2 then C_LI
    else if f3 == 3 then (if rd == 2 then C_ADDI16SP else C_LUI)
    else if f3 == 4 then
      if high == 0 then C_SRLI else if high == 1 then C_SRAI else if high == 2 then C_ANDI
      else if low == 0 then C_SUB else if low == 1 then C_XOR else if low == 2 then C_OR else C_AND
    else if f3 == 5 then C_J else if f3 == 6 then C_BEQZ else C_BNEZ
  }

  function DecodeQ2(f3: bv3, f4: bv4, rs2: Reg): Op16 {
    if f3 == 0 then C_SLLI else if f3 == 2 then C_LWSP else if f3 == 6 then C_SWSP
    else if f4 == 8 then (if rs2 == 0 then C_JR else C_MV)
    else if rs2 == 0 then C_JALR else C_ADD
  }

  function Decode16(w: Word): Op16 {
    if COpcode(w) == 0 then
      (if CFunct3(w) == 0 then C_ADDI4SPN else if CFunct3(w) == 2 then C_LW else C_SW)
    else if COpcode(w) == 1 then DecodeQ1(CFunct3(w), CRd(w), CFunct2High(w), CFunct2Low(w))
    else DecodeQ2(CFunct3(w), CFunct4(w), CRs2(w))
  }

  lemma DecodesTo16(op: Op16, w: Word)
    requires Valid16(op, w)
    ensures Decode16(w) == op
  {
  }

  lemma Disjoint16(p: Op16, q: Op16, w: Word)
    requires Valid16(p, w) == true && Valid16(q, w) == true
    ensures p == q
  {
    DecodesTo16(p, w);
    DecodesTo16(q, w);
  }

  /** 32-bit opcodes end in 11, compressed ones do not. */
  lemma Ends32(op: Op32, w: Word)
    requires Valid32(op, w)
    ensures COpcode(w) == 3
  {
  }

  lemma Ends16(op: Op16, w: Word)
    requires Valid16(op, w)
    ensures COpcode(w) != 3
  {
  }

  lemma DisjointLengths(p: Op32, q: Op16, w: Word)
    ensures !(Valid32(p, w) == true && Valid16(q, w) == true)
  {
    if Valid32(p, w) == true && Valid16(q, w) == true {
      Ends32(p, w);
      Ends16(q, w);
    }
  }

  lemma AtMostOneValid(i: Insn, j: Insn, w: Word)
    requires Valid(i, w) && Valid(j, w)
    ensures i == j
  {
    match (i, j) {
      case (I32(p), I32(q)) => Disjoint32(p, q, w);
      case (I16(p), I16(q)) => Disjoint16(p, q, w);
      case (I32(p), I16(q)) => DisjointLengths(p, q, w);
      case (I16(p), I32(q)) => DisjointLengths(q, p, w);
    }
  }

  /** A chain selects its one valid module, wherever that stands. */
  lemma {:induction false} SelectsValid(chain: seq<Insn>, i: Insn, w: Word, x: Operands)
    requires i in chain && Valid(i, w)
    ensures Select(chain, w, x) == (true, Exec(i, w, x))
  {
    if Valid(chain[0], w) {
      AtMostOneValid(i, chain[0], w);
    } else {
      SelectsValid(chain[1..], i, w, x);
    }
  }

  lemma {:induction false} SelectsNothing(chain: seq<Insn>, w: Word, x: Operands)
    requires forall i :: i in chain ==> !Valid(i, w)
    ensures Select(chain, w, x) == (false, NOTHING)
  {
    if chain != [] {
      SelectsNothing(chain[1..], w, x);
    }
  }

  /** Any chain over the same modules gives the outputs of isa_spec, for every word and all operands. */
  lemma OrderIrrelevant(chain: seq<Insn>, w: Word, x: Operands)
    requires forall i :: i in chain <==> i in CHAIN
    ensures Select(chain, w, x) == Spec(w, x)
  {
    if i :| i in chain && Valid(i, w) {
      SelectsValid(chain, i, w, x);
      SelectsValid(CHAIN, i, w, x);
    } else {
      SelectsNothing(chain, w, x);
      SelectsNothing(CHAIN, w, x);
    }
  }

  /** Whatever isa_spec selects, a write to x0 carries 0. */
  lemma {:induction false} ZeroRegisterWrite(chain: seq<Insn>, w: Word, x: Operands)
    ensures Select(chain, w, x).1.rd == 0 ==> Select(chain, w, x).1.rdWdata == 0
  {
    if chain != [] {
      ZeroRegisterWrite(chain[1..], w, x);
    }
  }

  /** Every module is in the chain: a word is spec-valid exactly if some module accepts it. */
  lemma ValidWords(w: Word, x: Operands)
    ensures Spec(w, x).0 <==> exists i: Insn :: Valid(i, w)
  {
    if i: Insn :| Valid(i, w) {
      InChain(i);
      SelectsValid(CHAIN, i, w, x);
    } else {
      SelectsNothing(CHAIN, w, x);
    }
  }

  /** Every module stands somewhere in the chain. */
  lemma InChain(i: Insn)
    ensures i in CHAIN
  {
    match i {
      case I32(ADD) | I32(ADDI) | I32(AND) | I32(ANDI) | I32(AUIPC) | I32(BEQ) | I32(BGE) | I32(BGEU) |
           I32(BLT) | I32(BLTU) | I32(BNE) =>
        InPart1(i);
      case I16(C_ADD) | I16(C_ADDI) | I16(C_ADDI16SP) | I16(C_ADDI4SPN) | I16(C_AND) | I16(C_ANDI) |
           I16(C_BEQZ) | I16(C_BNEZ) | I16(C_J) | I16(C_JAL) | I16(C_JALR) | I16(C_JR) =>
        InPart2(i);
      case I16(C_LI) | I16(C_LUI) | I16(C_LW) | I16(C_LWSP) | I16(C_MV) | I16(C_OR) | I16(C_SLLI) |
           I16(C_SRAI) | I16(C_SRLI) | I16(C_SUB) | I16(C_SW) | I16(C_SWSP) | I16(C_XOR) =>
        InPart3(i);
      case I32(DIV) | I32(DIVU) | I32(JAL) | I32(JALR) | I32(LB) | I32(LBU) | I32(LH) | I32(LHU) | I32(LUI) |
           I32(LW) | I32(MUL) =>
        InPart4(i);
      case I32(MULH) | I32(MULHSU) | I32(MULHU) | I32(OR) | I32(ORI) | I32(REM) | I32(REMU) | I32(SB) |
           I32(SH) | I32(SLL) | I32(SLLI) | I32(SLT) =>
        InPart5(i);
      case I32(SLTI) | I32(SLTIU) | I32(SLTU) | I32(SRA) | I32(SRAI) | I32(SRL) | I32(SRLI) | I32(SUB) |
           I32(SW) | I32(XOR) | I32(XORI) =>
        InPart6(i);
    }
  }

  lemma InPart1(i: Insn)
    requires i == I32(ADD) || i == I32(ADDI) || i == I32(AND) || i == I32(ANDI) || i == I32(AUIPC) ||
             i == I32(BEQ) || i == I32(BGE) || i == I32(BGEU) || i == I32(BLT) || i == I32(BLTU) ||
             i == I32(BNE)
    ensures i in ADD_TO_BNE
  {
  }

  lemma InPart2(i: Insn)
    requires i == I16(C_ADD) || i == I16(C_ADDI) || i == I16(C_ADDI16SP) || i == I16(C_ADDI4SPN) ||
             i == I16(C_AND) || i == I16(C_ANDI) || i == I16(C_BEQZ) || i == I16(C_BNEZ) || i == I16(C_J) ||
             i == I16(C_JAL) || i == I16(C_JALR) || i == I16(C_JR)
    ensures i in C_ADD_TO_C_JR
  {
  }

  lemma InPart3(i: Insn)
    requires i == I16(C_LI) || i == I16(C_LUI) || i == I16(C_LW) || i == I16(C_LWSP) || i == I16(C_MV) ||
             i == I16(C_OR) || i == I16(C_SLLI) || i == I16(C_SRAI) || i == I16(C_SRLI) || i == I16(C_SUB) ||
             i == I16(C_SW) || i == I16(C_SWSP) || i == I16(C_XOR)
    ensures i in C_LI_TO_C_XOR
  {
  }

  lemma InPart4(i: Insn)
    requires i == I32(DIV) || i == I32(DIVU) || i == I32(JAL) || i == I32(JALR) || i == I32(LB) ||
             i == I32(LBU) || i == I32(LH) || i == I32(LHU) || i == I32(LUI) || i == I32(LW) ||
             i == I32(MUL)
    ensures i in DIV_TO_MUL
  {
  }

  lemma InPart5(i: Insn)
    requires i == I32(MULH) || i == I32(MULHSU) || i == I32(MULHU) || i == I32(OR) || i == I32(ORI) ||
             i == I32(REM) || i == I32(REMU) || i == I32(SB) || i == I32(SH) || i == I32(SLL) ||
             i == I32(SLLI) || i == I32(SLT)
    ensures i in MULH_TO_SLT
  {
  }

  lemma InPart6(i: Insn)
    requires i == I32(SLTI) || i == I32(SLTIU) || i == I32(SLTU) || i == I32(SRA) || i == I32(SRAI) ||
             i == I32(SRL) || i == I32(SRLI) || i == I32(SUB) || i == I32(SW) || i == I32(XOR) ||
             i == I32(XORI)
    ensures i in SLTI_TO_XORI
  {
  }
}
