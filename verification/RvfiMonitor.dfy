/**
 riscv_formal_monitor_rv32imc of hvl/rvfimon.v: the checks on the reported instruction, the reorder
 buffer, shadow pc, shadow registers and the error code, all clocked.
 */
module RvfiMonitor {
  import opened MachineWords
  import opened Wrappers
  import opened IsaSpec
  import R = ReorderBuffer

  /** One cycle of the RVFI port, without the inputs that no check reads. */
  datatype Port = Port(valid: bool, order: Word64, insn: Word, memAddr: Word, memRmask: Mask, memWmask: Mask,
                       memRdata: Word, memWdata: Word, core: Retired)

  /** The part that passes through the reorder buffer (rob_i0_data). */
  datatype Retired = Retired(rs1Addr: Reg, rs2Addr: Reg, rdAddr: Reg, rs1Rdata: Word, rs2Rdata: Word, rdWdata: Word,
                             pcRdata: Word, pcWdata: Word, intr: bool, trap: bool)

  /** Register r as a key. */
  datatype XReg = X(r: Reg)

  // ---- channel 0: the reported instruction against isa_spec ----

  function OperandsOf(p: Port): Operands { Operands(p.core.pcRdata, p.core.rs1Rdata, p.core.rs2Rdata, p.memRdata) }

  predicate SpecValid(p: Port) { Spec(p.insn, OperandsOf(p)).0 }

  function Expects(p: Port): Expected { Spec(p.insn, OperandsOf(p)).1 }

  /** The code left by the register checks: the last failing one. */
  function CoreCode(r: Retired, e: Expected): nat {
    if r.pcWdata != e.pcWdata then 106
    else if r.rdWdata != e.rdWdata then 105
    else if r.rdAddr != e.rd then 104
    else if r.rs2Addr != e.rs2 && e.rs2 != 0 then 103
    else if r.rs1Addr != e.rs1 && e.rs1 != 0 then 102
    else if r.trap != e.trap then 101
    else 0
  }

  /** Byte lane `lane`, bits `bits` of the word: written and different, or expected and not read. */
  predicate WrongByte(wmask: Mask, wdata: Word, expected: Word, lane: Mask, bits: Word) {
    wmask & lane != 0 && wdata & bits != expected & bits
  }

  predicate MissingByte(rmask: Mask, expected: Mask, lane: Mask) { rmask & lane == 0 && expected & lane != 0 }

  predicate WrongAddress(p: Port, e: Expected) { p.memAddr != e.memAddr && (p.memWmask != 0 || p.memRmask != 0) }

  /** The two checks of byte lane n leave a code, or the one before. */
  function LaneCode(p: Port, e: Expected, lane: Mask, bits: Word, n: nat, before: nat): nat {
    if WrongByte(p.memWmask, p.memWdata, e.memWdata, lane, bits) then 120 + n
    else if MissingByte(p.memRmask, e.rmask, lane) then 110 + n
    else before
  }

  /** The memory checks come after the register checks, which left `before`. */
  function MemoryCode(p: Port, e: Expected, before: nat): nat {
    var mask := if p.memWmask != e.wmask then 108 else before;
    var lane0 := LaneCode(p, e, 1, 0xff, 0, mask);
    var lane1 := LaneCode(p, e, 2, 0xff00, 1, lane0);
    var lane2 := LaneCode(p, e, 4, 0xff0000, 2, lane1);
    var lane3 := LaneCode(p, e, 8, 0xff000000, 3, lane2);
    if WrongAddress(p, e) then 107 else lane3
  }

  function CheckCode(p: Port, e: Expected): nat { MemoryCode(p, e, CoreCode(p.core, e)) }

  function ChannelCode(p: Port): nat { if p.valid && SpecValid(p) then CheckCode(p, Expects(p)) else 0 }

  /** Registers, result, next pc and trap as expected; the source registers only where they are not x0. */
  predicate CoreConforms(r: Retired, e: Expected) {
    && r.trap == e.trap && r.rdAddr == e.rd && r.rdWdata == e.rdWdata && r.pcWdata == e.pcWdata
    && (e.rs1 == 0 || r.rs1Addr == e.rs1)
    && (e.rs2 == 0 || r.rs2Addr == e.rs2)
  }

  /** The right bytes at the right address: every expected byte read, exactly the expected bytes written, and
      the expected address on every access. */
  predicate MemoryConforms(p: Port, e: Expected) {
    && p.memWmask == e.wmask
    && (p.memRmask != 0 || p.memWmask != 0 ==> p.memAddr == e.memAddr)
    && ReadsBytes(p.memRmask, e.rmask)
    && WritesBytes(p.memWmask, p.memWdata, e.memWdata)
  }

  predicate ReadsBytes(read: Mask, expected: Mask) {
    && (expected & 1 != 0 ==> read & 1 != 0) && (expected & 2 != 0 ==> read & 2 != 0)
    && (expected & 4 != 0 ==> read & 4 != 0) && (expected & 8 != 0 ==> read & 8 != 0)
  }

  predicate WritesBytes(written: Mask, data: Word, expected: Word) {
    && (written & 1 != 0 ==> data & 0xff == expected & 0xff)
    && (written & 2 != 0 ==> data & 0xff00 == expected & 0xff00)
    && (written & 4 != 0 ==> data & 0xff0000 == expected & 0xff0000)
    && (written & 8 != 0 ==> data & 0xff000000 == expected & 0xff000000)
  }

  lemma MemoryCodeMeaning(p: Port, e: Expected, before: nat)
    ensures MemoryCode(p, e, before) == 0 <==> before == 0 && MemoryConforms(p, e)
  {
    hide WrongByte, MissingByte, ReadsBytes, WritesBytes;
    LanesMeaning(p.memRmask, e.rmask, p.memWmask, p.memWdata, e.memWdata);
  }

  lemma LanesMeaning(read: Mask, toRead: Mask, written: Mask, data: Word, expected: Word)
    ensures ReadsBytes(read, toRead) <==>
            !MissingByte(read, toRead, 1) && !MissingByte(read, toRead, 2)
            && !MissingByte(read, toRead, 4) && !MissingByte(read, toRead, 8)
    ensures WritesBytes(written, data, expected) <==>
            !WrongByte(written, data, expected, 1, 0xff) && !WrongByte(written, data, expected, 2, 0xff00)
            && !WrongByte(written, data, expected, 4, 0xff0000) && !WrongByte(written, data, expected, 8, 0xff000000)
  {
  }

  /** What each code says about a report. */
  predicate Fails(code: nat, p: Port, e: Expected) {
    || (code == 101 && p.core.trap != e.trap)
    || (code == 102 && e.rs1 != 0 && p.core.rs1Addr != e.rs1)
    || (code == 103 && e.rs2 != 0 && p.core.rs2Addr != e.rs2)
    || (code == 104 && p.core.rdAddr != e.rd)
    || (code == 105 && p.core.rdWdata != e.rdWdata)
    || (code == 106 && p.core.pcWdata != e.pcWdata)
    || (code == 107 && (p.memRmask != 0 || p.memWmask != 0) && p.memAddr != e.memAddr)
    || (code == 108 && p.memWmask != e.wmask)
    || (code == 110 && Unread(p.memRmask, e.rmask, 1))
    || (code == 111 && Unread(p.memRmask, e.rmask, 2))
    || (code == 112 && Unread(p.memRmask, e.rmask, 4))
    || (code == 113 && Unread(p.memRmask, e.rmask, 8))
    || (code == 120 && Miswritten(p.memWmask, p.memWdata, e.memWdata, 1, 0xff))
    || (code == 121 && Miswritten(p.memWmask, p.memWdata, e.memWdata, 2, 0xff00))
    || (code == 122 && Miswritten(p.memWmask, p.memWdata, e.memWdata, 4, 0xff0000))
    || (code == 123 && Miswritten(p.memWmask, p.memWdata, e.memWdata, 8, 0xff000000))
  }

  predicate Unread(read: Mask, expected: Mask, lane: Mask) { expected & lane != 0 && read & lane == 0 }

  predicate Miswritten(written: Mask, data: Word, expected: Word, lane: Mask, bits: Word) {
    written & lane != 0 && data & bits != expected & bits
  }

  /** When the check of a code is made. */
  function Turn(code: nat): nat {
    if 101 <= code <= 106 then code - 100
    else if code == 108 then 7
    else if 110 <= code < 114 then 8 + 2 * (code - 110)
    else if 120 <= code < 124 then 9 + 2 * (code - 120)
    else if code == 107 then 16
    else 0
  }

  /** Of the checks made up to a turn, c is the last that fails, or 0. */
  ghost predicate LastUpTo(turn: nat, c: nat, p: Port, e: Expected) {
    && Turn(c) <= turn && (c != 0 ==> Fails(c, p, e))
    && forall code: nat :: Turn(c) < Turn(code) <= turn ==> !Fails(code, p, e)
  }

  function Latest(k: nat, c: nat, p: Port, e: Expected): nat { if Fails(k, p, e) then k else c }

  lemma TurnUnique(k: nat, code: nat)
    requires Turn(k) > 0 && Turn(code) == Turn(k)
    ensures code == k
  {
  }

  lemma OneMore(k: nat, c: nat, p: Port, e: Expected)
    requires Turn(k) > 0 && LastUpTo(Turn(k) - 1, c, p, e)
    ensures LastUpTo(Turn(k), Latest(k, c, p, e), p, e)
  {
    hide Fails, Turn;
    forall code: nat | Turn(code) == Turn(k)
      ensures code == k
    {
      TurnUnique(k, code);
    }
    ZeroTurn();
  }

  lemma ZeroTurn()
    ensures Turn(0) == 0
  {
  }

  lemma Turns()
    ensures Turn(101) == 1 && Turn(102) == 2 && Turn(103) == 3 && Turn(104) == 4 && Turn(105) == 5 && Turn(106) == 6
    ensures Turn(108) == 7 && Turn(107) == 16
    ensures forall n: nat :: n < 4 ==> Turn(110 + n) == 8 + 2 * n && Turn(120 + n) == 9 + 2 * n
  {
  }

  lemma CoreLatest(p: Port, e: Expected)
    ensures var c3 := Latest(103, Latest(102, Latest(101, 0, p, e), p, e), p, e);
            CoreCode(p.core, e) == Latest(106, Latest(105, Latest(104, c3, p, e), p, e), p, e)
  {
    hide Unread, Miswritten;
  }

  lemma CoreLast(p: Port, e: Expected)
    ensures LastUpTo(6, CoreCode(p.core, e), p, e)
  {
    hide Fails, Turn, LastUpTo, Latest, CoreCode;
    Turns();
    CoreLatest(p, e);
    NothingYet(p, e);
    var c1 := Latest(101, 0, p, e);
    OneMore(101, 0, p, e);
    var c2 := Latest(102, c1, p, e);
    OneMore(102, c1, p, e);
    var c3 := Latest(103, c2, p, e);
    OneMore(103, c2, p, e);
    var c4 := Latest(104, c3, p, e);
    OneMore(104, c3, p, e);
    OneMore(105, c4, p, e);
    OneMore(106, Latest(105, c4, p, e), p, e);
  }

  lemma NothingYet(p: Port, e: Expected)
    ensures LastUpTo(0, 0, p, e)
  {
  }

  lemma SameLaneChecks(read: Mask, toRead: Mask, written: Mask, data: Word, expected: Word, lane: Mask, bits: Word)
    ensures Unread(read, toRead, lane) == MissingByte(read, toRead, lane)
    ensures Miswritten(written, data, expected, lane, bits) == WrongByte(written, data, expected, lane, bits)
  {
  }

  lemma LaneLatest(p: Port, e: Expected, lane: Mask, bits: Word, n: nat, before: nat)
    requires (n, lane, bits) in {(0, 1, 0xff), (1, 2, 0xff00), (2, 4, 0xff0000), (3, 8, 0xff000000)}
    ensures LaneCode(p, e, lane, bits, n, before) == Latest(120 + n, Latest(110 + n, before, p, e), p, e)
  {
    hide Unread, Miswritten, WrongByte, MissingByte;
    SameLaneChecks(p.memRmask, e.rmask, p.memWmask, p.memWdata, e.memWdata, lane, bits);
  }

  lemma LaneLast(p: Port, e: Expected, lane: Mask, bits: Word, n: nat, before: nat)
    requires (n, lane, bits) in {(0, 1, 0xff), (1, 2, 0xff00), (2, 4, 0xff0000), (3, 8, 0xff000000)}
    requires LastUpTo(7 + 2 * n, before, p, e)
    ensures LastUpTo(9 + 2 * n, LaneCode(p, e, lane, bits, n, before), p, e)
  {
    hide Fails, Turn, LastUpTo, Latest, LaneCode;
    Turns();
    LaneLatest(p, e, lane, bits, n, before);
    OneMore(110 + n, before, p, e);
    OneMore(120 + n, Latest(110 + n, before, p, e), p, e);
  }

  lemma EndsLatest(p: Port, e: Expected, before: nat)
    ensures (if p.memWmask != e.wmask then 108 else before) == Latest(108, before, p, e)
    ensures (if WrongAddress(p, e) then 107 else before) == Latest(107, before, p, e)
  {
    hide Unread, Miswritten;
  }

  lemma CheckLast(p: Port, e: Expected)
    ensures LastUpTo(16, CheckCode(p, e), p, e)
  {
    hide Fails, Turn, LastUpTo, Latest, CoreCode, LaneCode, WrongAddress;
    Turns();
    CoreLast(p, e);
    var mask := Latest(108, CoreCode(p.core, e), p, e);
    EndsLatest(p, e, CoreCode(p.core, e));
    OneMore(108, CoreCode(p.core, e), p, e);
    var lane0 := LaneCode(p, e, 1, 0xff, 0, mask);
    LaneLast(p, e, 1, 0xff, 0, mask);
    var lane1 := LaneCode(p, e, 2, 0xff00, 1, lane0);
    LaneLast(p, e, 2, 0xff00, 1, lane0);
    var lane2 := LaneCode(p, e, 4, 0xff0000, 2, lane1);
    LaneLast(p, e, 4, 0xff0000, 2, lane1);
    var lane3 := LaneCode(p, e, 8, 0xff000000, 3, lane2);
    LaneLast(p, e, 8, 0xff000000, 3, lane2);
    EndsLatest(p, e, lane3);
    OneMore(107, lane3, p, e);
  }

  /** The code is the last one in turn that fails, and 0 if none does. */
  lemma CodeIsLastFailing(p: Port, e: Expected)
    ensures CheckCode(p, e) == 0 <==> forall code: nat :: !Fails(code, p, e)
    ensures CheckCode(p, e) != 0 ==> Fails(CheckCode(p, e), p, e)
    ensures forall code: nat :: Turn(code) > Turn(CheckCode(p, e)) ==> !Fails(code, p, e)
  {
    hide CheckCode, Fails;
    CheckLast(p, e);
    forall code: nat
      ensures Turn(code) <= 16 && (Turn(code) == 0 ==> !Fails(code, p, e))
    {
      OnlyCodesFail(code, p, e);
    }
  }

  lemma OnlyCodesFail(code: nat, p: Port, e: Expected)
    ensures Fails(code, p, e) ==> Turn(code) > 0
  {
    hide Unread, Miswritten;
  }

  /** What channel 0 lets pass. */
  predicate Passes(p: Port) {
    p.valid && SpecValid(p) ==> CoreConforms(p.core, Expects(p)) && MemoryConforms(p, Expects(p))
  }

  // ---- state ----

  /** The valid bits of shadow_xregs are the domain of `xregs`. */
  datatype State = State(ch0Errcode: nat, rob: R.State<Retired>, pcValid: bool, pcTrap: bool, pc: Word,
                         errcodeP: nat, xregs: map<XReg, Word>, errcodeR: nat, errcode: nat)
  {
    predicate IsReset() {
      && rob.IsReset() && !pcValid && !pcTrap && xregs == map[X(0) := 0]
      && ch0Errcode == 0 && errcodeP == 0 && errcodeR == 0 && errcode == 0
    }

    predicate AllQuiet() { ch0Errcode == 0 && rob.errcode == 0 && errcodeP == 0 && errcodeR == 0 }
  }

  function Input(p: Port): Option<R.Entry<Retired>> { if p.valid then Some(R.Entry(p.order, p.core)) else None }

  /** Shadow pc against the instruction leaving the reorder buffer. */
  function PcCode(valid: bool, trap: bool, pc: Word, r: Retired): nat {
    if !valid || r.intr then 0
    else if trap then 133
    else if pc != r.pcRdata then 130
    else 0
  }

  predicate Differs(xregs: map<XReg, Word>, r: Reg, v: Word) { X(r) in xregs && xregs[X(r)] != v }

  function RegCode(xregs: map<XReg, Word>, r: Retired): nat {
    if Differs(xregs, r.rs2Addr, r.rs2Rdata) then 132
    else if Differs(xregs, r.rs1Addr, r.rs1Rdata) then 131
    else 0
  }

  /** The error code output shows one of the internal codes, later checkers first. */
  function Report(ch0: nat, rob: nat, p: nat, r: nat): nat {
    if r != 0 then r else if p != 0 then p else if rob != 0 then rob else ch0
  }

  /** The last code of a list that is not 0. */
  function LastNonZero(codes: seq<nat>): nat {
    if codes == [] then 0
    else if codes[|codes| - 1] != 0 then codes[|codes| - 1]
    else LastNonZero(codes[..|codes| - 1])
  }

  lemma ReportIsLast(ch0: nat, rob: nat, p: nat, r: nat)
    ensures Report(ch0, rob, p, r) == LastNonZero([ch0, rob, p, r])
  {
    assert [ch0][..0] == [] && LastNonZero([ch0]) == ch0;
    assert [ch0, rob][..1] == [ch0] && [ch0, rob, p][..2] == [ch0, rob] && [ch0, rob, p, r][..3] == [ch0, rob, p];
    assert LastNonZero([ch0, rob]) == if rob != 0 then rob else ch0;
    assert LastNonZero([ch0, rob, p]) == if p != 0 then p else LastNonZero([ch0, rob]);
  }

  function Step(m: State, p: Port): State
    requires m.rob.Sized()
  {
    var leaving, r := m.rob.outValid, m.rob.out.data;
    State(ChannelCode(p), R.Step(m.rob, Input(p)),
          if leaving then !r.trap else m.pcValid,
          if leaving then r.trap else m.pcTrap,
          if leaving then r.pcWdata else m.pc,
          if leaving then PcCode(m.pcValid, m.pcTrap, m.pc, r) else 0,
          if leaving then m.xregs[X(r.rdAddr) := r.rdWdata] else m.xregs,
          if leaving then RegCode(m.xregs, r) else 0,
          Report(m.ch0Errcode, m.rob.errcode, m.errcodeP, m.errcodeR))
  }

  class Monitor {
    var ch0Errcode: nat
    const rob: R.Rob<Retired>
    var shadowPcValid: bool
    var shadowPcTrap: bool
    var shadowPc: Word
    var ro0ErrcodeP: nat
    var shadowXregs: map<XReg, Word>
    var ro0ErrcodeR: nat
    var errcode: nat

    ghost function View(): State
      reads this, rob, rob.buffer
    {
      State(ch0Errcode, rob.View(), shadowPcValid, shadowPcTrap, shadowPc, ro0ErrcodeP, shadowXregs, ro0ErrcodeR, errcode)
    }

    constructor (power: R.Entry<Retired>)
      ensures fresh(this) && fresh(rob) && fresh(rob.buffer) && View().rob.Sized()
    {
      rob := new R.Rob<Retired>(power);
      ch0Errcode, ro0ErrcodeP, ro0ErrcodeR, errcode := 0, 0, 0, 0;
      shadowPcValid, shadowPcTrap, shadowPc, shadowXregs := true, true, 0, map[];
    }

    /** The check list of channel 0; each failing check overwrites the code. */
    method CheckChannel(p: Port) returns (code: nat)
      ensures code == ChannelCode(p)
      ensures code == 0 <==> Passes(p)
    {
      code := 0;
      if p.valid && SpecValid(p) {
        var e := Expects(p);
        code := CheckCore(p.core, e);
        code := CheckMemory(p, e, code);
        MemoryCodeMeaning(p, e, CoreCode(p.core, e));
      }
    }

    method CheckCore(r: Retired, e: Expected) returns (code: nat)
      ensures code == CoreCode(r, e)
    {
      code := 0;
      if r.trap != e.trap { code := 101; }
      if r.rs1Addr != e.rs1 && e.rs1 != 0 { code := 102; }
      if r.rs2Addr != e.rs2 && e.rs2 != 0 { code := 103; }
      if r.rdAddr != e.rd { code := 104; }
      if r.rdWdata != e.rdWdata { code := 105; }
      if r.pcWdata != e.pcWdata { code := 106; }
    }

    method CheckLane(p: Port, e: Expected, lane: Mask, bits: Word, n: nat, before: nat) returns (code: nat)
      ensures code == LaneCode(p, e, lane, bits, n, before)
    {
      code := before;
      if MissingByte(p.memRmask, e.rmask, lane) { code := 110 + n; }
      if WrongByte(p.memWmask, p.memWdata, e.memWdata, lane, bits) { code := 120 + n; }
    }

    method CheckMemory(p: Port, e: Expected, before: nat) returns (code: nat)
      ensures code == MemoryCode(p, e, before)
    {
      code := before;
      if p.memWmask != e.wmask { code := 108; }
      code := CheckLane(p, e, 1, 0xff, 0, code);
      code := CheckLane(p, e, 2, 0xff00, 1, code);
      code := CheckLane(p, e, 4, 0xff0000, 2, code);
      code := CheckLane(p, e, 8, 0xff000000, 3, code);
      if WrongAddress(p, e) { code := 107; }
    }

    method ShadowPc(reset: bool, leaving: bool, r: Retired)
      modifies `ro0ErrcodeP, `shadowPcValid, `shadowPcTrap, `shadowPc
      ensures reset ==> ro0ErrcodeP == 0 && !shadowPcValid && !shadowPcTrap
      ensures !reset && !leaving ==> ro0ErrcodeP == 0 && unchanged(`shadowPcValid, `shadowPcTrap, `shadowPc)
      ensures !reset && leaving ==>
                && ro0ErrcodeP == PcCode(old(shadowPcValid), old(shadowPcTrap), old(shadowPc), r)
                && shadowPcValid == !r.trap && shadowPcTrap == r.trap && shadowPc == r.pcWdata
    {
      ro0ErrcodeP := 0;
      if reset {
        shadowPcValid := false;
        shadowPcTrap := false;
      }
      if !reset && leaving {
        if shadowPcValid && shadowPc != r.pcRdata && !r.intr { ro0ErrcodeP := 130; }
        if shadowPcValid && shadowPcTrap && !r.intr { ro0ErrcodeP := 133; }
        shadowPcValid := !r.trap;
        shadowPcTrap := r.trap;
        shadowPc := r.pcWdata;
      }
    }

    method ShadowRegisters(reset: bool, leaving: bool, r: Retired)
      modifies `ro0ErrcodeR, `shadowXregs
      ensures reset ==> ro0ErrcodeR == 0 && shadowXregs == map[X(0) := 0]
      ensures !reset && !leaving ==> ro0ErrcodeR == 0 && unchanged(`shadowXregs)
      ensures !reset && leaving ==>
                && ro0ErrcodeR == RegCode(old(shadowXregs), r)
                && shadowXregs == old(shadowXregs)[X(r.rdAddr) := r.rdWdata]
    {
      ro0ErrcodeR := 0;
      if reset {
        shadowXregs := map[X(0) := 0];
      }
      if !reset && leaving {
        if Differs(shadowXregs, r.rs1Addr, r.rs1Rdata) { ro0ErrcodeR := 131; }
        if Differs(shadowXregs, r.rs2Addr, r.rs2Rdata) { ro0ErrcodeR := 132; }
        shadowXregs := shadowXregs[X(r.rdAddr) := r.rdWdata];
      }
    }

    method ReportError(reset: bool)
      modifies `errcode
      ensures errcode == if reset then 0 else Report(ch0Errcode, rob.errcode, ro0ErrcodeP, ro0ErrcodeR)
    {
      errcode := 0;
      if !reset {
        if ch0Errcode != 0 { errcode := ch0Errcode; }
        if rob.errcode != 0 { errcode := rob.errcode; }
        if ro0ErrcodeP != 0 { errcode := ro0ErrcodeP; }
        if ro0ErrcodeR != 0 { errcode := ro0ErrcodeR; }
      }
    }

    /** Everything but the reorder buffer. */
    method ClockCheckers(reset: bool, p: Port)
      modifies this
      ensures reset ==> ch0Errcode == 0 && ro0ErrcodeP == 0 && ro0ErrcodeR == 0 && errcode == 0
      ensures reset ==> !shadowPcValid && !shadowPcTrap && shadowXregs == map[X(0) := 0]
      ensures !reset ==> ch0Errcode == ChannelCode(p)
      ensures !reset ==> errcode == old(Report(ch0Errcode, rob.errcode, ro0ErrcodeP, ro0ErrcodeR))
      ensures !reset && !rob.o0Valid ==> ro0ErrcodeP == 0 && ro0ErrcodeR == 0
      ensures !reset && !rob.o0Valid ==> unchanged(`shadowPcValid, `shadowPcTrap, `shadowPc, `shadowXregs)
      ensures !reset && rob.o0Valid ==> var r := rob.o0.data;
                && ro0ErrcodeP == old(PcCode(shadowPcValid, shadowPcTrap, shadowPc, r))
                && ro0ErrcodeR == old(RegCode(shadowXregs, r))
                && shadowPcValid == !r.trap && shadowPcTrap == r.trap && shadowPc == r.pcWdata
                && shadowXregs == old(shadowXregs)[X(r.rdAddr) := r.rdWdata]
    {
      ReportError(reset);
      ShadowPc(reset, rob.o0Valid, rob.o0.data);
      ShadowRegisters(reset, rob.o0Valid, rob.o0.data);
      ch0Errcode := 0;
      if !reset {
        ch0Errcode := CheckChannel(p);
      }
    }

    /** One rising clock edge; the reorder buffer is clocked last, so the others see its old outputs. */
    method Clock(reset: bool, p: Port)
      requires View().rob.Sized()
      modifies this, rob, rob.buffer
      ensures reset ==> View().IsReset()
      ensures !reset ==> View() == Step(old(View()), p)
    {
      ClockCheckers(reset, p);
      rob.Clock(reset, Input(p));
    }
  }
}
