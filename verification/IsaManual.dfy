/**
 The 32-bit instructions on integers, as sections 2.4 to 2.6 and chapter 6 of the RISC-V manual (version 2.2)
 describe them, and the proof that the instruction modules compute that.  Words are their unsigned values;
 results and addresses are meant modulo 2^32.  DIV and REM are the monitor's (see MExtension).
 */
module IsaManual {
  import opened Arithmetic
  import opened MachineWords
  import opened BitVectors
  import opened IsaSpec
  import opened IsaValues
  import IsaDecoding
  import MExtension

  /** The pc, both operands, the memory word and the sign-extended immediate. */
  datatype Values = Values(pc: Word32, rs1: Word32, rs2: Word32, mem: Word32, imm: Word32)
  {
    function Address(): Word32 { ToWord(rs1 + imm) }

    /** The addressed byte and those above it. */
    function Shifted(): int { mem / Pow2(8 * (Address() % 4)) }
  }

  /** What is written to rd. */
  function Result(op: Op32, v: Values): int {
    match op
    case ADD => v.rs1 + v.rs2
    case SUB => v.rs1 - v.rs2
    case SLL => v.rs1 * Pow2(v.rs2 % 32)
    case SLT => if Signed(v.rs1) < Signed(v.rs2) then 1 else 0
    case SLTU => if v.rs1 < v.rs2 then 1 else 0
    case XOR => Bitwise(XorGate, v.rs1, v.rs2)
    case SRL => v.rs1 / Pow2(v.rs2 % 32)
    case SRA => Signed(v.rs1) / Pow2(v.rs2 % 32)
    case OR => Bitwise(OrGate, v.rs1, v.rs2)
    case AND => Bitwise(AndGate, v.rs1, v.rs2)
    case MUL => v.rs1 * v.rs2
    case MULH => Signed(v.rs1) * Signed(v.rs2) / TWO_32
    case MULHSU => Signed(v.rs1) * v.rs2 / TWO_32
    case MULHU => v.rs1 * v.rs2 / TWO_32
    case DIV => MExtension.Div(v.rs1, v.rs2)
    case DIVU => if v.rs2 == 0 then -1 else v.rs1 / v.rs2
    case REM => MExtension.Rem(v.rs1, v.rs2)
    case REMU => if v.rs2 == 0 then v.rs1 else v.rs1 % v.rs2
    case ADDI => v.rs1 + v.imm
    case SLTI => if Signed(v.rs1) < Signed(v.imm) then 1 else 0
    case SLTIU => if v.rs1 < v.imm then 1 else 0
    case XORI => Bitwise(XorGate, v.rs1, v.imm)
    case ORI => Bitwise(OrGate, v.rs1, v.imm)
    case ANDI => Bitwise(AndGate, v.rs1, v.imm)
    case SLLI => v.rs1 * Pow2(v.imm)
    case SRLI => v.rs1 / Pow2(v.imm)
    case SRAI => Signed(v.rs1) / Pow2(v.imm)
    case LUI => v.imm
    case AUIPC => v.pc + v.imm
    case JAL | JALR => v.pc + 4
    case BEQ | BNE | BLT | BGE | BLTU | BGEU => 0
    case LB => TwosComplement(v.Shifted() % 256, 8)
    case LH => TwosComplement(v.Shifted() % 65536, 16)
    case LW => v.Shifted()
    case LBU => v.Shifted() % 256
    case LHU => v.Shifted() % 65536
    case SB | SH | SW => 0
  }

  predicate Taken(op: Op32, v: Values) {
    match op
    case BEQ => v.rs1 == v.rs2
    case BNE => v.rs1 != v.rs2
    case BLT => Signed(v.rs1) < Signed(v.rs2)
    case BGE => Signed(v.rs1) >= Signed(v.rs2)
    case BLTU => v.rs1 < v.rs2
    case BGEU => v.rs1 >= v.rs2
    case _ => false
  }

  function Next(op: Op32, v: Values): int {
    if op.JAL? || Taken(op, v) then v.pc + v.imm
    else if op.JALR? then v.Address() - v.Address() % 2
    else v.pc + 4
  }

  /** Bytes loaded, and bytes stored. */
  function BytesRead(op: Op32): nat {
    match op
    case LB | LBU => 1
    case LH | LHU => 2
    case LW => 4
    case _ => 0
  }

  function BytesWritten(op: Op32): nat {
    match op
    case SB => 1
    case SH => 2
    case SW => 4
    case _ => 0
  }

  function BytesAccessed(op: Op32): nat { BytesRead(op) + BytesWritten(op) }

  predicate Branches(op: Op32) { op.BEQ? || op.BNE? || op.BLT? || op.BGE? || op.BLTU? || op.BGEU? }

  predicate Transfers(op: Op32) { op.JAL? || op.JALR? || Branches(op) }

  /** Jumps and branches trap on an odd target, loads and stores on an address that is no multiple of their size. */
  predicate Traps(op: Op32, v: Values) {
    if BytesAccessed(op) > 0 then v.Address() % BytesAccessed(op) != 0
    else Transfers(op) && ToWord(Next(op, v)) % 2 == 1
  }

  /** One bit for each accessed byte of the word. */
  function ByteMask(bytes: nat, offset: nat): nat { (Pow2(offset) * (Pow2(bytes) - 1)) % 16 }

  /** Everything a module puts out besides the register numbers. */
  predicate Effect(op: Op32, v: Values, e: Expected) {
    && e.trap == Traps(op, v)
    && U(e.rdWdata) == (if e.rd == 0 then 0 else ToWord(Result(op, v)))
    && U(e.pcWdata) == ToWord(Next(op, v))
    && U(e.memAddr) == (if BytesAccessed(op) > 0 then v.Address() - v.Address() % 4 else 0)
    && e.rmask as int == ByteMask(BytesRead(op), v.Address() % 4)
    && e.wmask as int == ByteMask(BytesWritten(op), v.Address() % 4)
    && U(e.memWdata) == (if BytesWritten(op) > 0 then ToWord(v.rs2 * Pow2(8 * (v.Address() % 4))) else 0)
  }

  function ValuesOf(op: Op32, w: Word, x: Operands): Values {
    Values(U(x.pc), U(x.rs1), U(x.rs2), U(x.mem), U(Args32(op, w).imm))
  }

  // ---- operators of Perform ----

  lemma FourValue()
    ensures U(4) == 4
  {
  }

  lemma NextPcIs(pc: Word)
    ensures U(Sum(pc, 4)) == ToWord(U(pc) + 4)
  {
    hide U, ToWord, Sum;
    FourValue();
    SumIs(pc, 4);
  }

  lemma EvenAddressIs(a: Word)
    ensures U(EvenAddress(a)) == U(a) - U(a) % 2
  {
    hide U;
    EvenPart(a);
  }

  lemma WordAddressIs(a: Word)
    ensures U(WordAddress(a)) == U(a) - U(a) % 4
  {
    hide U;
    WordPart(a);
  }

  lemma LowBitsAre(a: Word)
    ensures OddAddress(a) <==> U(a) % 2 == 1
    ensures U(ByteOffset(a)) == U(a) % 4
    ensures U(ShiftAmount(a)) == U(a) % 32
  {
    hide U;
    LowBits(a);
    ZeroValue(a & 1);
  }

  // ---- register-writing instructions ----

  /** Effect before the gate on x0. */
  predicate Ungated(op: Op32, v: Values, e: Expected) {
    && e.trap == Traps(op, v)
    && U(e.rdWdata) == ToWord(Result(op, v))
    && U(e.pcWdata) == ToWord(Next(op, v))
    && U(e.memAddr) == (if BytesAccessed(op) > 0 then v.Address() - v.Address() % 4 else 0)
    && e.rmask as int == ByteMask(BytesRead(op), v.Address() % 4)
    && e.wmask as int == ByteMask(BytesWritten(op), v.Address() % 4)
    && U(e.memWdata) == (if BytesWritten(op) > 0 then ToWord(v.rs2 * Pow2(8 * (v.Address() % 4))) else 0)
  }

  lemma GatedEffect(op: Op32, v: Values, e: Expected)
    requires Ungated(op, v, e)
    ensures Effect(op, v, Gated(e))
  {
    hide U, Result, Traps, Next;
    Zero();
  }

  predicate Computes(op: Op32) { BytesAccessed(op) == 0 && !Transfers(op) }

  lemma NoBytes(offset: nat)
    ensures ByteMask(0, offset) == 0 && (0 as bv4) as int == 0
  {
  }

  lemma PlainEffect(op: Op32, v: Values, d: Args, r: Word, pc: Word)
    requires Computes(op) && U(r) == ToWord(Result(op, v)) && v.pc == U(pc)
    ensures Ungated(op, v, Writes(d, r, Sum(pc, 4)))
  {
    hide U, Result, ByteMask, ToWord, Sum;
    Zero();
    NoBytes(v.Address() % 4);
    NextPcIs(pc);
  }

  predicate Works(op: Op32, w: Word, x: Operands) {
    Ungated(op, ValuesOf(op, w, x), Perform(Action32(op), Args32(op, w), 4, x))
  }

  /** A computation whose result is the manual's works. */
  lemma ComputationWorks(op: Op32, w: Word, x: Operands, r: Word)
    requires Computes(op) && Perform(Action32(op), Args32(op, w), 4, x) == Writes(Args32(op, w), r, Sum(x.pc, 4))
    requires U(r) == ToWord(Result(op, ValuesOf(op, w, x)))
    ensures Works(op, w, x)
  {
    hide U, Result, Ungated, Perform, Action32, Args32, Writes, Sum;
    PlainEffect(op, ValuesOf(op, w, x), Args32(op, w), r, x.pc);
  }

  predicate GivesResult(op: Op32, alu: Alu, a: Word, b: Word, v: Values) { Gives(alu, a, b, Result(op, v)) }

  lemma RegisterResult(op: Op32, v: Values, a: Word, b: Word)
    requires Action32(op).Compute? && v.rs1 == U(a) && v.rs2 == U(b)
    ensures GivesResult(op, Action32(op).alu, a, b, v)
  {
    hide U, ToWord, Gives, Bitwise, Signed, MExtension.Div, MExtension.Rem;
    match op
    case ADD => AddIs(a, b);
    case SUB => SubIs(a, b);
    case SLT => SltIs(a, b);
    case SLTU => SltuIs(a, b);
    case XOR | OR | AND => LogicIs(a, b);
    case MUL => MulIs(a, b);
    case MULH => MulhIs(a, b);
    case MULHSU => MulhsuIs(a, b);
    case MULHU => MulhuIs(a, b);
    case DIV | REM => DivisionIs(a, b);
    case DIVU | REMU => UnsignedDivisionIs(a, b);
  }

  lemma ImmediateResult(op: Op32, v: Values, a: Word, b: Word)
    requires Action32(op).ComputeImm? && v.rs1 == U(a) && v.imm == U(b)
    ensures GivesResult(op, Action32(op).alu, a, b, v)
  {
    hide U, ToWord, Gives, Bitwise, Signed, Pow2;
    match op
    case ADDI => AddIs(a, b);
    case SLTI => SltIs(a, b);
    case SLTIU => SltuIs(a, b);
    case XORI | ORI | ANDI => LogicIs(a, b);
    case SLLI => SllIs(a, b);
    case SRLI => SrlIs(a, b);
    case SRAI => SraIs(a, b);
  }

  lemma ShiftResult(op: Op32, v: Values, a: Word, b: Word)
    requires Action32(op).ComputeShift? && v.rs1 == U(a) && v.rs2 % 32 == U(b)
    ensures GivesResult(op, Action32(op).alu, a, b, v)
  {
    hide U, ToWord, Gives, Signed, Pow2;
    match op
    case SLL => SllIs(a, b);
    case SRL => SrlIs(a, b);
    case SRA => SraIs(a, b);
  }

  /** What the computing actions put out, and that their instructions compute. */
  lemma ComputePerforms(act: Action, d: Args, x: Operands)
    ensures act.Compute? ==> Perform(act, d, 4, x) == Writes(d, act.alu.Apply()(x.rs1, x.rs2), Sum(x.pc, 4))
    ensures act.ComputeImm? ==> Perform(act, d, 4, x) == Writes(d, act.alu.Apply()(x.rs1, d.imm), Sum(x.pc, 4))
    ensures act.ComputeShift? ==>
              Perform(act, d, 4, x) == Writes(d, act.alu.Apply()(x.rs1, ShiftAmount(x.rs2)), Sum(x.pc, 4))
  {
    hide Jumps, Loads, Stores, Writes, Sum, EvenAddress, ShiftAmount, Alu.Apply, Cond.Holds;
  }

  lemma ComputingOps(op: Op32)
    ensures Action32(op).Compute? || Action32(op).ComputeImm? || Action32(op).ComputeShift? ==> Computes(op)
  {
  }

  lemma ComputeWorks(op: Op32, w: Word, x: Operands)
    requires Action32(op).Compute?
    ensures Works(op, w, x)
  {
    hide U, Result, Works, Alu.Apply, Action32, Args32, Perform, Writes, Sum, Computes;
    var alu := Action32(op).alu;
    ComputingOps(op);
    ComputePerforms(Action32(op), Args32(op, w), x);
    RegisterResult(op, ValuesOf(op, w, x), x.rs1, x.rs2);
    ComputationWorks(op, w, x, alu.Apply()(x.rs1, x.rs2));
  }

  lemma ComputeImmWorks(op: Op32, w: Word, x: Operands)
    requires Action32(op).ComputeImm?
    ensures Works(op, w, x)
  {
    hide U, Result, Works, Alu.Apply, Action32, Args32, Perform, Writes, Sum, Computes;
    var alu, imm := Action32(op).alu, Args32(op, w).imm;
    ComputingOps(op);
    ComputePerforms(Action32(op), Args32(op, w), x);
    ImmediateResult(op, ValuesOf(op, w, x), x.rs1, imm);
    ComputationWorks(op, w, x, alu.Apply()(x.rs1, imm));
  }

  lemma ComputeShiftWorks(op: Op32, w: Word, x: Operands)
    requires Action32(op).ComputeShift?
    ensures Works(op, w, x)
  {
    hide U, Result, Works, Alu.Apply, Action32, Args32, Perform, Writes, Sum, ShiftAmount, Computes;
    var alu := Action32(op).alu;
    ComputingOps(op);
    ComputePerforms(Action32(op), Args32(op, w), x);
    LowBitsAre(x.rs2);
    ShiftResult(op, ValuesOf(op, w, x), x.rs1, ShiftAmount(x.rs2));
    ComputationWorks(op, w, x, alu.Apply()(x.rs1, ShiftAmount(x.rs2)));
  }

  lemma UpperWorks(op: Op32, w: Word, x: Operands)
    requires op.LUI? || op.AUIPC?
    ensures Works(op, w, x)
  {
    hide U, Works, Args32, ToWord, Sum, EvenAddress;
    var imm := Args32(op, w).imm;
    if op.LUI? {
      WordOf(U(imm), U(imm));
      ComputationWorks(op, w, x, imm);
    } else {
      SumIs(x.pc, imm);
      ComputationWorks(op, w, x, Sum(x.pc, imm));
    }
  }

  // ---- jumps and branches ----

  lemma TransferEffect(op: Op32, v: Values, d: Args, link: Word, next: Word)
    requires Transfers(op) && U(link) == ToWord(Result(op, v)) && U(next) == ToWord(Next(op, v))
    ensures Ungated(op, v, Jumps(d, link, next))
  {
    hide U, Result, Next, ByteMask, ToWord, OddAddress;
    Zero();
    NoBytes(v.Address() % 4);
    LowBitsAre(next);
  }

  lemma JumpWorks(op: Op32, w: Word, x: Operands)
    requires op.JAL? || op.JALR?
    ensures Works(op, w, x)
  {
    hide U, Ungated, Jumps, Args32, ToWord, Sum, EvenAddress;
    var v, d := ValuesOf(op, w, x), Args32(op, w);
    NextPcIs(x.pc);
    if op.JAL? {
      SumIs(x.pc, d.imm);
      TransferEffect(op, v, d, Sum(x.pc, 4), Sum(x.pc, d.imm));
    } else {
      var target := Sum(x.rs1, d.imm);
      SumIs(x.rs1, d.imm);
      EvenAddressIs(target);
      WordOf(U(EvenAddress(target)), U(EvenAddress(target)));
      TransferEffect(op, v, d, Sum(x.pc, 4), EvenAddress(target));
    }
  }

  lemma CondIs(op: Op32, v: Values, a: Word, b: Word)
    requires Action32(op).Branch? && v.rs1 == U(a) && v.rs2 == U(b)
    ensures Action32(op).cond.Holds()(a, b) <==> Taken(op, v)
  {
    hide U, Signed, LessSigned, LessUnsigned;
    SameValue(a, b);
    LessSignedIs(a, b);
    LessUnsignedIs(a, b);
  }

  lemma BranchTarget(op: Op32, v: Values)
    requires Branches(op)
    ensures Next(op, v) == (if Taken(op, v) then v.pc + v.imm else v.pc + 4) && Result(op, v) == 0
  {
    hide Taken;
  }

  lemma BranchPerforms(op: Op32, d: Args, x: Operands)
    requires Branches(op)
    ensures Action32(op).Branch?
    ensures Perform(Action32(op), d, 4, x) ==
            Jumps(d, 0, if Action32(op).cond.Holds()(x.rs1, x.rs2) then Sum(x.pc, d.imm) else Sum(x.pc, 4))
  {
    hide Jumps, Loads, Stores, Writes, Sum, EvenAddress, ShiftAmount, Alu.Apply, Cond.Holds;
  }

  /** The target of a branch that is taken, or not, has the value of Next. */
  lemma BranchNext(op: Op32, v: Values, pc: Word, imm: Word)
    requires Branches(op) && U(pc) == v.pc && U(imm) == v.imm
    ensures U(if Taken(op, v) then Sum(pc, imm) else Sum(pc, 4)) == ToWord(Next(op, v))
  {
    hide U, ToWord, Sum, Branches, Taken, Next, Result;
    NextPcIs(pc);
    SumIs(pc, imm);
    BranchTarget(op, v);
  }

  lemma NoResult(op: Op32, v: Values)
    requires Branches(op)
    ensures U(0) == ToWord(Result(op, v))
  {
    hide U, ToWord, Branches, Next, Result;
    BranchTarget(op, v);
    Zero();
    WordOf(0, 0);
  }

  lemma BranchWorks(op: Op32, w: Word, x: Operands)
    requires Branches(op)
    ensures Works(op, w, x)
  {
    hide U, Ungated, Perform, Jumps, Action32, Args32, ToWord, Sum, Cond.Holds, Branches, Taken, Next, Result;
    var v, d := ValuesOf(op, w, x), Args32(op, w);
    BranchPerforms(op, d, x);
    CondIs(op, v, x.rs1, x.rs2);
    BranchNext(op, v, x.pc, d.imm);
    NoResult(op, v);
    TransferEffect(op, v, d, 0, if Taken(op, v) then Sum(x.pc, d.imm) else Sum(x.pc, 4));
  }

  // ---- loads and stores ----

  /** Which access an instruction makes. */
  lemma AccessKinds(op: Op32)
    ensures Action32(op).Load? <==> BytesRead(op) > 0
    ensures Action32(op).Store? <==> BytesWritten(op) > 0
    ensures Action32(op).Load? ==> BytesRead(op) == Bytes(Action32(op).lsize) && BytesWritten(op) == 0
    ensures Action32(op).Store? ==> BytesWritten(op) == Bytes(Action32(op).ssize) && BytesRead(op) == 0
  {
  }

  lemma AccessGoesOn(op: Op32, v: Values)
    requires BytesAccessed(op) > 0
    ensures Next(op, v) == v.pc + 4 && !Transfers(op)
    ensures BytesWritten(op) > 0 ==> Result(op, v) == 0
  {
    hide Pow2;
  }

  lemma MisalignedIs(s: Size, addr: Word)
    ensures Misaligned(s, addr) <==> U(addr) % Bytes(s) != 0
  {
    hide U, OddAddress, ByteOffset;
    LowBitsAre(addr);
    Offsets(ByteOffset(addr));
  }

  lemma LoadResult(op: Op32, v: Values, m: Word)
    requires Action32(op).Load? && U(m) == v.Shifted()
    ensures U(Loaded(Action32(op).lsize, Action32(op).signed, m)) == ToWord(Result(op, v))
  {
    hide U, Loaded, ToWord, TwosComplement, Pow2;
    LoadedIs(Action32(op).lsize, Action32(op).signed, m);
    WordOf(U(m), U(m));
    WordOf(U(m) % 256, U(m) % 256);
    WordOf(U(m) % 65536, U(m) % 65536);
  }

  lemma LoadEffect(op: Op32, v: Values, d: Args, addr: Word, mem: Word, pc: Word)
    requires Action32(op).Load? && U(addr) == v.Address() && U(mem) == v.mem && U(pc) == v.pc
    ensures Ungated(op, v, Loads(Action32(op).lsize, Action32(op).signed, d, addr, mem, Sum(pc, 4)))
  {
    hide U, Result, Next, ToWord, Sum, WordAddress, ByteOffset, LanesDown, Loaded, Misaligned, MaskUp, SizeMask,
         Action32, BytesRead, BytesWritten, Transfers, Bytes, Pow2;
    var s, signed := Action32(op).lsize, Action32(op).signed;
    AccessKinds(op);
    AccessGoesOn(op, v);
    LowBitsAre(addr);
    WordAddressIs(addr);
    MisalignedIs(s, addr);
    LanesAre(mem, ByteOffset(addr));
    LoadResult(op, v, LanesDown(mem, ByteOffset(addr)));
    MaskIs(s, ByteOffset(addr));
    NoBytes(v.Address() % 4);
    NextPcIs(pc);
    Zero();
  }

  lemma StoreEffect(op: Op32, v: Values, d: Args, addr: Word, data: Word, pc: Word)
    requires Action32(op).Store? && U(addr) == v.Address() && U(data) == v.rs2 && U(pc) == v.pc
    ensures Ungated(op, v, Stores(Action32(op).ssize, d, addr, data, Sum(pc, 4)))
  {
    hide U, Result, Next, ToWord, Sum, WordAddress, ByteOffset, LanesUp, Misaligned, MaskUp, SizeMask,
         Action32, BytesRead, BytesWritten, Transfers, Bytes, Pow2;
    var s := Action32(op).ssize;
    AccessKinds(op);
    AccessGoesOn(op, v);
    LowBitsAre(addr);
    WordAddressIs(addr);
    MisalignedIs(s, addr);
    LanesAre(data, ByteOffset(addr));
    MaskIs(s, ByteOffset(addr));
    NoBytes(v.Address() % 4);
    NextPcIs(pc);
    Zero();
    WordOf(0, 0);
  }

  lemma AccessPerforms(act: Action, d: Args, x: Operands)
    ensures act.Load? ==>
              Perform(act, d, 4, x) == Loads(act.lsize, act.signed, d, Sum(x.rs1, d.imm), x.mem, Sum(x.pc, 4))
    ensures act.Store? ==> Perform(act, d, 4, x) == Stores(act.ssize, d, Sum(x.rs1, d.imm), x.rs2, Sum(x.pc, 4))
  {
    hide Jumps, Loads, Stores, Writes, Sum, EvenAddress, ShiftAmount, Alu.Apply, Cond.Holds;
  }

  lemma AccessWorks(op: Op32, w: Word, x: Operands)
    requires Action32(op).Load? || Action32(op).Store?
    ensures Works(op, w, x)
  {
    hide U, Ungated, Perform, Action32, Args32, Sum, ToWord, Loads, Stores;
    var v, d := ValuesOf(op, w, x), Args32(op, w);
    AccessPerforms(Action32(op), d, x);
    SumIs(x.rs1, d.imm);
    if Action32(op).Load? {
      LoadEffect(op, v, d, Sum(x.rs1, d.imm), x.mem, x.pc);
    } else {
      StoreEffect(op, v, d, Sum(x.rs1, d.imm), x.rs2, x.pc);
    }
  }

  // ---- all instructions ----

  lemma ActionKinds(op: Op32)
    ensures Action32(op).Compute? || Action32(op).ComputeImm? || Action32(op).ComputeShift?
            || Action32(op).Load? || Action32(op).Store? || op.LUI? || op.AUIPC? || op.JAL? || op.JALR? || Branches(op)
  {
  }

  /** Every 32-bit module does what the manual says, for all operands. */
  lemma ModulesAreManual(op: Op32, w: Word, x: Operands)
    ensures Effect(op, ValuesOf(op, w, x), Exec32(op, w, 4, x))
  {
    hide Effect, Ungated, Gated, Perform, Action32, Args32, ValuesOf, Branches;
    ActionKinds(op);
    if op.LUI? || op.AUIPC? {
      UpperWorks(op, w, x);
    } else if op.JAL? || op.JALR? {
      JumpWorks(op, w, x);
    } else if Branches(op) {
      BranchWorks(op, w, x);
    } else if Action32(op).Compute? {
      ComputeWorks(op, w, x);
    } else if Action32(op).ComputeImm? {
      ComputeImmWorks(op, w, x);
    } else if Action32(op).ComputeShift? {
      ComputeShiftWorks(op, w, x);
    } else {
      AccessWorks(op, w, x);
    }
    GatedEffect(op, ValuesOf(op, w, x), Perform(Action32(op), Args32(op, w), 4, x));
  }

  /** So does isa_spec on every word that a 32-bit module accepts. */
  lemma SpecIsManual(op: Op32, w: Word, x: Operands)
    requires Valid32(op, w)
    ensures Spec(w, x).0 && Effect(op, ValuesOf(op, w, x), Spec(w, x).1)
  {
    hide Effect, Exec32, ValuesOf, Select;
    IsaDecoding.InChain(I32(op));
    IsaDecoding.SelectsValid(CHAIN, I32(op), w, x);
    ModulesAreManual(op, w, x);
  }
}
