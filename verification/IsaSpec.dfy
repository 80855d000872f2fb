/**
 The RV32IMC specification of hvl/rvfimon.v: for each of the 70 instruction modules when it is valid and
 what it expects, and the priority selection of isa_spec.  `len` is the distance to the next
 instruction, 4 in every 32-bit module and 2 in every compressed one.
 */
module IsaSpec {
  import opened MachineWords
  import MExtension

  type Word = bv32
  type Reg = bv5
  type Mask = bv4

  datatype Op32 =
    | ADD | ADDI | AND | ANDI | AUIPC | BEQ | BGE | BGEU | BLT | BLTU | BNE | DIV | DIVU | JAL | JALR | LB
    | LBU | LH | LHU | LUI | LW | MUL | MULH | MULHSU | MULHU | OR | ORI | REM | REMU | SB | SH | SLL | SLLI
    | SLT | SLTI | SLTIU | SLTU | SRA | SRAI | SRL | SRLI | SUB | SW | XOR | XORI

  datatype Op16 =
    | C_ADD | C_ADDI | C_ADDI16SP | C_ADDI4SPN | C_AND | C_ANDI | C_BEQZ | C_BNEZ | C_J | C_JAL | C_JALR | C_JR
    | C_LI | C_LUI | C_LW | C_LWSP | C_MV | C_OR | C_SLLI | C_SRAI | C_SRLI | C_SUB | C_SW | C_SWSP | C_XOR

  datatype Insn = I32(op: Op32) | I16(cop: Op16)

  /** The spec_* outputs of an instruction module, spec_valid apart. */
  datatype Expected = Expected(trap: bool, rs1: Reg, rs2: Reg, rd: Reg, rdWdata: Word, pcWdata: Word,
                               memAddr: Word, rmask: Mask, wmask: Mask, memWdata: Word)

  /** What an instruction module reads: pc, both operands, memory word. */
  datatype Operands = Operands(pc: Word, rs1: Word, rs2: Word, mem: Word)

  // ---- fields of a 32-bit instruction ----

  function Opcode(w: Word): bv7 { (w & 0x7f) as bv7 }
  function Funct3(w: Word): bv3 { ((w >> 12) & 0x7) as bv3 }
  function Funct7(w: Word): bv7 { ((w >> 25) & 0x7f) as bv7 }
  function Funct6(w: Word): bv6 { ((w >> 26) & 0x3f) as bv6 }
  function Rd(w: Word): Reg { ((w >> 7) & 0x1f) as bv5 }
  function Rs1(w: Word): Reg { ((w >> 15) & 0x1f) as bv5 }
  function Rs2(w: Word): Reg { ((w >> 20) & 0x1f) as bv5 }
  function Shamt(w: Word): Word { (w >> 20) & 0x3f }

  /** `x` below bit `sign` sign-extended from that bit. */
  function SignExtend(x: Word, sign: Word): Word { (x ^ sign) - sign }

  function ImmI(w: Word): Word { SignExtend(w >> 20, 0x800) }
  function ImmS(w: Word): Word { SignExtend(((w >> 25) << 5) | ((w >> 7) & 0x1f), 0x800) }
  function ImmB(w: Word): Word {
    SignExtend(((w >> 31) << 12) | (((w >> 7) & 1) << 11) | (((w >> 25) & 0x3f) << 5) | (((w >> 8) & 0xf) << 1), 0x1000)
  }
  function ImmU(w: Word): Word { w & 0xfffff000 }
  function ImmJ(w: Word): Word {
    SignExtend(((w >> 31) << 20) | (((w >> 12) & 0xff) << 12) | (((w >> 20) & 1) << 11) | (((w >> 21) & 0x3ff) << 1), 0x100000)
  }

  // ---- fields of a compressed instruction ----

  function COpcode(w: Word): bv2 { (w & 0x3) as bv2 }
  function CFunct3(w: Word): bv3 { ((w >> 13) & 0x7) as bv3 }
  function CFunct4(w: Word): bv4 { ((w >> 12) & 0xf) as bv4 }
  function CFunct6(w: Word): bv6 { ((w >> 10) & 0x3f) as bv6 }
  /** rvfi_insn[11:10] and rvfi_insn[6:5] */
  function CFunct2High(w: Word): bv2 { ((w >> 10) & 0x3) as bv2 }
  function CFunct2Low(w: Word): bv2 { ((w >> 5) & 0x3) as bv2 }
  /** rvfi_insn[11:7] and rvfi_insn[6:2] */
  function CRd(w: Word): Reg { ((w >> 7) & 0x1f) as bv5 }
  function CRs2(w: Word): Reg { ((w >> 2) & 0x1f) as bv5 }
  /** {1'b1, rvfi_insn[9:7]} and {1'b1, rvfi_insn[4:2]} */
  function CRs1Short(w: Word): Reg { (((w >> 7) & 0x7) | 0x8) as bv5 }
  function CRs2Short(w: Word): Reg { (((w >> 2) & 0x7) | 0x8) as bv5 }

  function Bit(w: Word, n: bv6): Word
    requires n < 32
  {
    (w >> n) & 1
  }

  /** {rvfi_insn[12], rvfi_insn[6:2]}, plain and sign-extended. */
  function CShamt(w: Word): Word { (Bit(w, 12) << 5) | ((w >> 2) & 0x1f) }
  function CImm6(w: Word): Word { SignExtend(CShamt(w), 0x20) }
  function CImmLui(w: Word): Word { SignExtend(CShamt(w) << 12, 0x20000) }
  function CImm16sp(w: Word): Word {
    SignExtend((Bit(w, 12) << 9) | (((w >> 3) & 3) << 7) | (Bit(w, 5) << 6) | (Bit(w, 2) << 5) | (Bit(w, 6) << 4), 0x200)
  }
  function CImm4spn(w: Word): Word {
    (((w >> 7) & 0xf) << 6) | (((w >> 11) & 3) << 4) | (Bit(w, 5) << 3) | (Bit(w, 6) << 2)
  }
  function CImmB(w: Word): Word {
    SignExtend((Bit(w, 12) << 8) | (((w >> 5) & 3) << 6) | (Bit(w, 2) << 5) | (((w >> 10) & 3) << 3) | (((w >> 3) & 3) << 1), 0x100)
  }
  function CImmJ(w: Word): Word {
    SignExtend((Bit(w, 12) << 11) | (Bit(w, 8) << 10) | (Bit(w, 10) << 9) | (Bit(w, 9) << 8) | (Bit(w, 6) << 7)
               | (Bit(w, 7) << 6) | (Bit(w, 2) << 5) | (Bit(w, 11) << 4) | (Bit(w, 5) << 3) | (Bit(w, 4) << 2)
               | (Bit(w, 3) << 1), 0x800)
  }
  function CImmLw(w: Word): Word { (Bit(w, 5) << 6) | (((w >> 10) & 7) << 3) | (Bit(w, 6) << 2) }
  function CImmLwsp(w: Word): Word { (((w >> 2) & 3) << 6) | (Bit(w, 12) << 5) | (((w >> 4) & 7) << 2) }
  function CImmSwsp(w: Word): Word { (((w >> 7) & 3) << 6) | (((w >> 9) & 0xf) << 2) }

  // ---- validity ----

  predicate RValid(w: Word, f7: bv7, f3: bv3) { Funct7(w) == f7 && Funct3(w) == f3 && Opcode(w) == 0x33 }
  predicate IValid(w: Word, f3: bv3, opcode: bv7) { Funct3(w) == f3 && Opcode(w) == opcode }
  predicate ShiftValid(w: Word, f6: bv6, f3: bv3) {
    Funct6(w) == f6 && Funct3(w) == f3 && Opcode(w) == 0x13 && Shamt(w) & 0x20 == 0
  }

  predicate Valid32(op: Op32, w: Word) {
    match op
    case ADD => RValid(w, 0x00, 0)
    case SUB => RValid(w, 0x20, 0)
    case SLL => RValid(w, 0x00, 1)
    case SLT => RValid(w, 0x00, 2)
    case SLTU => RValid(w, 0x00, 3)
    case XOR => RValid(w, 0x00, 4)
    case SRL => RValid(w, 0x00, 5)
    case SRA => RValid(w, 0x20, 5)
    case OR => RValid(w, 0x00, 6)
    case AND => RValid(w, 0x00, 7)
    case MUL => RValid(w, 0x01, 0)
    case MULH => RValid(w, 0x01, 1)
    case MULHSU => RValid(w, 0x01, 2)
    case MULHU => RValid(w, 0x01, 3)
    case DIV => RValid(w, 0x01, 4)
    case DIVU => RValid(w, 0x01, 5)
    case REM => RValid(w, 0x01, 6)
    case REMU => RValid(w, 0x01, 7)
    case ADDI => IValid(w, 0, 0x13)
    case SLTI => IValid(w, 2, 0x13)
    case SLTIU => IValid(w, 3, 0x13)
    case XORI => IValid(w, 4, 0x13)
    case ORI => IValid(w, 6, 0x13)
    case ANDI => IValid(w, 7, 0x13)
    case SLLI => ShiftValid(w, 0x00, 1)
    case SRLI => ShiftValid(w, 0x00, 5)
    case SRAI => ShiftValid(w, 0x10, 5)
    case AUIPC => Opcode(w) == 0x17
    case LUI => Opcode(w) == 0x37
    case JAL => Opcode(w) == 0x6f
    case JALR => IValid(w, 0, 0x67)
    case BEQ => IValid(w, 0, 0x63)
    case BNE => IValid(w, 1, 0x63)
    case BLT => IValid(w, 4, 0x63)
    case BGE => IValid(w, 5, 0x63)
    case BLTU => IValid(w, 6, 0x63)
    case BGEU => IValid(w, 7, 0x63)
    case LB => IValid(w, 0, 0x03)
    case LH => IValid(w, 1, 0x03)
    case LW => IValid(w, 2, 0x03)
    case LBU => IValid(w, 4, 0x03)
    case LHU => IValid(w, 5, 0x03)
    case SB => IValid(w, 0, 0x23)
    case SH => IValid(w, 1, 0x23)
    case SW => IValid(w, 2, 0x23)
  }

  predicate CValid(w: Word, f3: bv3, opcode: bv2) { CFunct3(w) == f3 && COpcode(w) == opcode }
  predicate CrValid(w: Word, f4: bv4) { CFunct4(w) == f4 && COpcode(w) == 2 }
  predicate CaValid(w: Word, f2: bv2) { CFunct6(w) == 0x23 && CFunct2Low(w) == f2 && COpcode(w) == 1 }

  /** Compressed modules also require the upper half of the word to be zero (insn_padding). */
  predicate Valid16(op: Op16, w: Word) {
    w >> 16 == 0 &&
    match op
    case C_ADDI4SPN => CValid(w, 0, 0) && CImm4spn(w) != 0
    case C_LW => CValid(w, 2, 0)
    case C_SW => CValid(w, 6, 0)
    case C_ADDI => CValid(w, 0, 1)
    case C_JAL => CValid(w, 1, 1)
    case C_LI => CValid(w, 2, 1)
    case C_ADDI16SP => CValid(w, 3, 1) && CRd(w) == 2 && CImm16sp(w) != 0
    case C_LUI => CValid(w, 3, 1) && CRd(w) != 2 && CImmLui(w) != 0
    case C_SRLI => CValid(w, 4, 1) && CFunct2High(w) == 0 && CShamt(w) & 0x20 == 0
    case C_SRAI => CValid(w, 4, 1) && CFunct2High(w) == 1 && CShamt(w) & 0x20 == 0
    case C_ANDI => CValid(w, 4, 1) && CFunct2High(w) == 2
    case C_SUB => CaValid(w, 0)
    case C_XOR => CaValid(w, 1)
    case C_OR => CaValid(w, 2)
    case C_AND => CaValid(w, 3)
    case C_J => CValid(w, 5, 1)
    case C_BEQZ => CValid(w, 6, 1)
    case C_BNEZ => CValid(w, 7, 1)
    case C_SLLI => CValid(w, 0, 2) && CShamt(w) & 0x20 == 0
    case C_LWSP => CValid(w, 2, 2) && CRd(w) != 0
    case C_JR => CrValid(w, 0x8) && CRd(w) != 0 && CRs2(w) == 0
    case C_MV => CrValid(w, 0x8) && CRs2(w) != 0
    case C_JALR => CrValid(w, 0x9) && CRd(w) != 0 && CRs2(w) == 0
    case C_ADD => CrValid(w, 0x9) && CRs2(w) != 0
    case C_SWSP => CValid(w, 6, 2)
  }

  predicate Valid(i: Insn, w: Word) {
    match i
    case I32(op) => Valid32(op, w)
    case I16(op) => Valid16(op, w)
  }

  // ---- results ----

  predicate LessSigned(a: Word, b: Word) { (a ^ 0x80000000) < (b ^ 0x80000000) }
  function Flag(b: bool): Word { if b then 1 else 0 }
  function Sum(a: Word, b: Word): Word { a + b }
  function Difference(a: Word, b: Word): Word { a - b }
  function BothBits(a: Word, b: Word): Word { a & b }
  function EitherBit(a: Word, b: Word): Word { a | b }
  function UnequalBits(a: Word, b: Word): Word { a ^ b }
  predicate LessUnsigned(a: Word, b: Word) { a < b }
  function ShiftLeft(a: Word, n: Word): Word { if n >= 32 then 0 else a << n }
  function ShiftRight(a: Word, n: Word): Word { if n >= 32 then 0 else a >> n }
  function ShiftRightSigned(a: Word, n: Word): Word {
    if a & 0x80000000 == 0 then ShiftRight(a, n) else !ShiftRight(!a, n)
  }

  /** The M extension works on the unsigned values of the words. */
  function Arith(f: (Word32, Word32) -> Word32, a: Word, b: Word): Word { f(a as int, b as int) as bv32 }

  /** The two-operand computations; immediate forms share them with register forms. */
  datatype Alu = Add | Sub | Sll | Slt | Sltu | Xor | Srl | Sra | Or | And
               | Mul | Mulh | Mulhsu | Mulhu | Div | Divu | Rem | Remu
  {
    function Apply(): (Word, Word) -> Word {
      match this
      case Add => (a, b) => Sum(a, b)
      case Sub => (a, b) => Difference(a, b)
      case Sll => (a, b) => ShiftLeft(a, b)
      case Slt => (a, b) => Flag(LessSigned(a, b))
      case Sltu => (a, b) => Flag(LessUnsigned(a, b))
      case Xor => (a, b) => UnequalBits(a, b)
      case Srl => (a, b) => ShiftRight(a, b)
      case Sra => (a, b) => ShiftRightSigned(a, b)
      case Or => (a, b) => EitherBit(a, b)
      case And => (a, b) => BothBits(a, b)
      case Mul => (a, b) => Arith(MExtension.Mul, a, b)
      case Mulh => (a, b) => Arith(MExtension.Mulh, a, b)
      case Mulhsu => (a, b) => Arith(MExtension.Mulhsu, a, b)
      case Mulhu => (a, b) => Arith(MExtension.Mulhu, a, b)
      case Div => (a, b) => Arith(MExtension.Div, a, b)
      case Divu => (a, b) => Arith(MExtension.Divu, a, b)
      case Rem => (a, b) => Arith(MExtension.Rem, a, b)
      case Remu => (a, b) => Arith(MExtension.Remu, a, b)
    }
  }

  /** The branch conditions. */
  datatype Cond = Eq | Ne | Lt | Ge | Ltu | Geu
  {
    function Holds(): (Word, Word) -> bool {
      match this
      case Eq => (a, b) => a == b
      case Ne => (a, b) => a != b
      case Lt => (a, b) => LessSigned(a, b)
      case Ge => (a, b) => !LessSigned(a, b)
      case Ltu => (a, b) => LessUnsigned(a, b)
      case Geu => (a, b) => !LessUnsigned(a, b)
    }
  }

  /** Register numbers driven on spec_rs1_addr, spec_rs2_addr, spec_rd_addr, and the immediate or shift amount. */
  datatype Args = Args(rs1: Reg, rs2: Reg, rd: Reg, imm: Word)

  /** A register-writing instruction without memory access. */
  function Writes(d: Args, result: Word, next: Word): Expected {
    Expected(false, d.rs1, d.rs2, d.rd, result, next, 0, 0, 0, 0)
  }

  /** spec_rd_addr ? result : 0 */
  function Gated(e: Expected): Expected {
    if e.rd == 0 then e.(rdWdata := 0) else e
  }

  predicate OddAddress(addr: Word) { addr & 1 != 0 }
  function EvenAddress(addr: Word): Word { addr & 0xfffffffe }

  /** A jump or branch to `next`, trapping on an odd target. */
  function Jumps(d: Args, link: Word, next: Word): Expected {
    Writes(d, link, next).(trap := OddAddress(next))
  }

  /** The word an address lies in, and the byte of that word. */
  function WordAddress(addr: Word): Word { addr & 0xfffffffc }
  function ByteOffset(addr: Word): Word { addr & 3 }

  /** Shift by the byte offset, 0 to 3, of an address in its word. */
  function LanesDown(m: Word, offset: Word): Word {
    if offset == 0 then m else if offset == 1 then m >> 8 else if offset == 2 then m >> 16 else m >> 24
  }
  function LanesUp(m: Word, offset: Word): Word {
    if offset == 0 then m else if offset == 1 then m << 8 else if offset == 2 then m << 16 else m << 24
  }
  function MaskUp(m: Mask, offset: Word): Mask {
    if offset == 0 then m else if offset == 1 then m << 1 else if offset == 2 then m << 2 else m << 3
  }

  datatype Size = Byte | Half | Full

  function SizeMask(s: Size): Mask { match s case Byte => 1 case Half => 3 case Full => 15 }
  function Misaligned(s: Size, addr: Word): bool {
    match s case Byte => false case Half => OddAddress(addr) case Full => ByteOffset(addr) != 0
  }
  function Loaded(s: Size, signed: bool, m: Word): Word {
    match s
    case Byte => if signed then SignExtend(m & 0xff, 0x80) else m & 0xff
    case Half => if signed then SignExtend(m & 0xffff, 0x8000) else m & 0xffff
    case Full => m
  }

  function Loads(s: Size, signed: bool, d: Args, addr: Word, mem: Word, next: Word): Expected {
    Writes(d, Loaded(s, signed, LanesDown(mem, ByteOffset(addr))), next)
      .(trap := Misaligned(s, addr), memAddr := WordAddress(addr), rmask := MaskUp(SizeMask(s), ByteOffset(addr)))
  }

  function Stores(s: Size, d: Args, addr: Word, data: Word, next: Word): Expected {
    Writes(d, 0, next)
      .(trap := Misaligned(s, addr), memAddr := WordAddress(addr), wmask := MaskUp(SizeMask(s), ByteOffset(addr)),
        memWdata := LanesUp(data, ByteOffset(addr)))
  }

  /** The fields each 32-bit module decodes. */
  function Args32(op: Op32, w: Word): Args {
    match op
    case ADD | SUB | SLL | SLT | SLTU | XOR | SRL | SRA | OR | AND
       | MUL | MULH | MULHSU | MULHU | DIV | DIVU | REM | REMU => Args(Rs1(w), Rs2(w), Rd(w), 0)
    case ADDI | SLTI | SLTIU | XORI | ORI | ANDI | JALR
       | LB | LH | LW | LBU | LHU => Args(Rs1(w), 0, Rd(w), ImmI(w))
    case SLLI | SRLI | SRAI => Args(Rs1(w), 0, Rd(w), Shamt(w))
    case AUIPC | LUI => Args(0, 0, Rd(w), ImmU(w))
    case JAL => Args(0, 0, Rd(w), ImmJ(w))
    case BEQ | BNE | BLT | BGE | BLTU | BGEU => Args(Rs1(w), Rs2(w), 0, ImmB(w))
    case SB | SH | SW => Args(Rs1(w), Rs2(w), 0, ImmS(w))
  }

  /** What a module does with its fields and operands. */
  datatype Action =
    | Compute(alu: Alu)               // rd := rs1 op rs2
    | ComputeShift(alu: Alu)          // rd := rs1 shifted by rs2[4:0]
    | ComputeImm(alu: Alu)            // rd := rs1 op imm
    | LoadImm                         // rd := imm
    | AddPc                           // rd := pc + imm
    | Jump                            // rd := next; pc := pc + imm
    | JumpReg                         // rd := next; pc := (rs1 + imm) & ~1
    | Branch(cond: Cond)              // pc := pc + imm if rs1 cond rs2
    | Load(lsize: Size, signed: bool) // rd := memory at rs1 + imm
    | Store(ssize: Size)              // memory at rs1 + imm := rs2
    // of compressed modules only
    | CopyReg                         // rd := rs2
    | JumpNear                        // Jump without the check for an odd target
    | JumpBare                        // rd := next; pc := rs1 & ~1
    | BranchZero(zero: bool)          // pc := pc + imm if (rs1 == 0) == zero

  function Action32(op: Op32): Action {
    match op
    case ADD => Compute(Add)
    case SUB => Compute(Sub)
    case SLL => ComputeShift(Sll)
    case SLT => Compute(Slt)
    case SLTU => Compute(Sltu)
    case XOR => Compute(Xor)
    case SRL => ComputeShift(Srl)
    case SRA => ComputeShift(Sra)
    case OR => Compute(Or)
    case AND => Compute(And)
    case MUL => Compute(Mul)
    case MULH => Compute(Mulh)
    case MULHSU => Compute(Mulhsu)
    case MULHU => Compute(Mulhu)
    case DIV => Compute(Div)
    case DIVU => Compute(Divu)
    case REM => Compute(Rem)
    case REMU => Compute(Remu)
    case ADDI => ComputeImm(Add)
    case SLTI => ComputeImm(Slt)
    case SLTIU => ComputeImm(Sltu)
    case XORI => ComputeImm(Xor)
    case ORI => ComputeImm(Or)
    case ANDI => ComputeImm(And)
    case SLLI => ComputeImm(Sll)
    case SRLI => ComputeImm(Srl)
    case SRAI => ComputeImm(Sra)
    case AUIPC => AddPc
    case LUI => LoadImm
    case JAL => Jump
    case JALR => JumpReg
    case BEQ => Branch(Eq)
    case BNE => Branch(Ne)
    case BLT => Branch(Lt)
    case BGE => Branch(Ge)
    case BLTU => Branch(Ltu)
    case BGEU => Branch(Geu)
    case LB => Load(Byte, true)
    case LH => Load(Half, true)
    case LW => Load(Full, true)
    case LBU => Load(Byte, false)
    case LHU => Load(Half, false)
    case SB => Store(Byte)
    case SH => Store(Half)
    case SW => Store(Full)
  }

  /** rs2[4:0] */
  function ShiftAmount(b: Word): Word { b & 0x1f }

  /** The outputs of a module from its fields and operands, before the x0 gate. */
  function Perform(act: Action, d: Args, len: Word, x: Operands): Expected {
    var a, b, next := x.rs1, x.rs2, Sum(x.pc, len);
    match act
    case Compute(alu) => Writes(d, alu.Apply()(a, b), next)
    case ComputeShift(alu) => Writes(d, alu.Apply()(a, ShiftAmount(b)), next)
    case ComputeImm(alu) => Writes(d, alu.Apply()(a, d.imm), next)
    case LoadImm => Writes(d, d.imm, next)
    case AddPc => Writes(d, Sum(x.pc, d.imm), next)
    case Jump => Jumps(d, next, Sum(x.pc, d.imm))
    case JumpReg => Jumps(d, next, EvenAddress(Sum(a, d.imm)))
    case Branch(cond) => Jumps(d, 0, if cond.Holds()(a, b) then Sum(x.pc, d.imm) else next)
    case Load(size, signed) => Loads(size, signed, d, Sum(a, d.imm), x.mem, next)
    case Store(size) => Stores(size, d, Sum(a, d.imm), b, next)
    case CopyReg => Writes(d, b, next)
    case JumpNear => Writes(d, next, Sum(x.pc, d.imm))
    case JumpBare => Jumps(d, next, EvenAddress(a))
    case BranchZero(zero) => Jumps(d, 0, if (a == 0) == zero then Sum(x.pc, d.imm) else next)
  }

  /** The fields each compressed module decodes, implied registers included. */
  function Args16(op: Op16, w: Word): Args {
    var rd, rs2, rds, rs2s := CRd(w), CRs2(w), CRs1Short(w), CRs2Short(w);
    match op
    case C_ADDI4SPN => Args(2, 0, rs2s, CImm4spn(w))
    case C_LW => Args(rds, 0, rs2s, CImmLw(w))
    case C_SW => Args(rds, rs2s, 0, CImmLw(w))
    case C_ADDI => Args(rd, 0, rd, CImm6(w))
    case C_JAL => Args(0, 0, 1, CImmJ(w))
    case C_LI => Args(0, 0, rd, CImm6(w))
    case C_ADDI16SP => Args(rd, 0, rd, CImm16sp(w))
    case C_LUI => Args(0, 0, rd, CImmLui(w))
    case C_SRLI | C_SRAI => Args(rds, 0, rds, CShamt(w))
    case C_ANDI => Args(rds, 0, rds, CImm6(w))
    case C_SUB | C_XOR | C_OR | C_AND => Args(rds, rs2s, rds, 0)
    case C_J => Args(0, 0, 0, CImmJ(w))
    case C_BEQZ | C_BNEZ => Args(rds, 0, 0, CImmB(w))
    case C_SLLI => Args(rd, 0, rd, CShamt(w))
    case C_LWSP => Args(2, 0, rd, CImmLwsp(w))
    case C_JR => Args(rd, 0, 0, 0)
    case C_MV => Args(0, rs2, rd, 0)
    case C_JALR => Args(rd, 0, 1, 0)
    case C_ADD => Args(rd, rs2, rd, 0)
    case C_SWSP => Args(2, rs2, 0, CImmSwsp(w))
  }

  function Action16(op: Op16): Action {
    match op
    case C_ADDI4SPN | C_ADDI | C_ADDI16SP => ComputeImm(Add)
    case C_LI | C_LUI => LoadImm
    case C_SLLI => ComputeImm(Sll)
    case C_SRLI => ComputeImm(Srl)
    case C_SRAI => ComputeImm(Sra)
    case C_ANDI => ComputeImm(And)
    case C_SUB => Compute(Sub)
    case C_XOR => Compute(Xor)
    case C_OR => Compute(Or)
    case C_AND => Compute(And)
    case C_MV => CopyReg
    case C_ADD => Compute(Add)
    case C_LW | C_LWSP => Load(Full, true)
    case C_SW | C_SWSP => Store(Full)
    case C_J | C_JAL => JumpNear
    case C_JR | C_JALR => JumpBare
    case C_BEQZ => BranchZero(true)
    case C_BNEZ => BranchZero(false)
  }

  function Exec32(op: Op32, w: Word, len: Word, x: Operands): Expected {
    Gated(Perform(Action32(op), Args32(op, w), len, x))
  }

  function Exec16(op: Op16, w: Word, x: Operands): Expected { Gated(Perform(Action16(op), Args16(op, w), 2, x)) }

  function Exec(i: Insn, w: Word, x: Operands): Expected {
    match i
    case I32(op) => Exec32(op, w, 4, x)
    case I16(op) => Exec16(op, w, x)
  }

  // ---- isa_spec ----

  /** The order of the conditional chains: alphabetical, so all compressed modules stand together. */
  const CHAIN: seq<Insn> := ADD_TO_BNE + C_ADD_TO_C_JR + C_LI_TO_C_XOR
                            + DIV_TO_MUL + MULH_TO_SLT + SLTI_TO_XORI

  const ADD_TO_BNE: seq<Insn> := [
    I32(ADD), I32(ADDI), I32(AND), I32(ANDI), I32(AUIPC), I32(BEQ), I32(BGE), I32(BGEU), I32(BLT), I32(BLTU),
    I32(BNE)]

  const C_ADD_TO_C_JR: seq<Insn> := [
    I16(C_ADD), I16(C_ADDI), I16(C_ADDI16SP), I16(C_ADDI4SPN), I16(C_AND), I16(C_ANDI), I16(C_BEQZ),
    I16(C_BNEZ), I16(C_J), I16(C_JAL), I16(C_JALR), I16(C_JR)]

  const C_LI_TO_C_XOR: seq<Insn> := [
    I16(C_LI), I16(C_LUI), I16(C_LW), I16(C_LWSP), I16(C_MV), I16(C_OR), I16(C_SLLI), I16(C_SRAI), I16(C_SRLI),
    I16(C_SUB), I16(C_SW), I16(C_SWSP), I16(C_XOR)]

  const DIV_TO_MUL: seq<Insn> := [
    I32(DIV), I32(DIVU), I32(JAL), I32(JALR), I32(LB), I32(LBU), I32(LH), I32(LHU), I32(LUI), I32(LW),
    I32(MUL)]

  const MULH_TO_SLT: seq<Insn> := [
    I32(MULH), I32(MULHSU), I32(MULHU), I32(OR), I32(ORI), I32(REM), I32(REMU), I32(SB), I32(SH), I32(SLL),
    I32(SLLI), I32(SLT)]

  const SLTI_TO_XORI: seq<Insn> := [
    I32(SLTI), I32(SLTIU), I32(SLTU), I32(SRA), I32(SRAI), I32(SRL), I32(SRLI), I32(SUB), I32(SW), I32(XOR),
    I32(XORI)]

  const NOTHING := Expected(false, 0, 0, 0, 0, 0, 0, 0, 0, 0)

  /** spec_valid, and every other output taken from the first valid module of the chain. */
  function Select(chain: seq<Insn>, w: Word, x: Operands): (bool, Expected) {
    if chain == [] then (false, NOTHING)
    else if Valid(chain[0], w) then (true, Exec(chain[0], w, x))
    else Select(chain[1..], w, x)
  }

  function Spec(w: Word, x: Operands): (bool, Expected) { Select(CHAIN, w, x) }
}
