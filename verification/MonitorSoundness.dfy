/** What a run of the monitor without an error code says about the retired instructions, and conversely. */
module MonitorSoundness {
  import opened MachineWords
  import opened Wrappers
  import opened IsaSpec
  import opened RvfiMonitor
  import IsaDecoding
  import IsaManual
  import R = ReorderBuffer

  type Log = seq<R.Entry<Retired>>

  // ---- runs ----

  function After(m: State, ports: seq<Port>): (r: State)
    requires m.rob.Sized()
    ensures r.rob.Sized()
  {
    if ports == [] then m else Step(After(m, ports[..|ports| - 1]), ports[|ports| - 1])
  }

  function Inputs(ports: seq<Port>): seq<Option<R.Entry<Retired>>> {
    if ports == [] then [] else Inputs(ports[..|ports| - 1]) + [Input(ports[|ports| - 1])]
  }

  /** What the shadow state has seen: everything emitted before the last edge. */
  function Checked(m: State, ports: seq<Port>): Log
    requires m.rob.Sized()
  {
    if ports == [] then [] else R.Emitted(m.rob, Inputs(ports[..|ports| - 1]))
  }

  /** No error code at the output, now or before. */
  predicate Clean(m: State, ports: seq<Port>)
    requires m.rob.Sized()
  {
    After(m, ports).errcode == 0 && (ports != [] ==> Clean(m, ports[..|ports| - 1]))
  }

  /** None of the four internal codes, now or before. */
  predicate Quiet(m: State, ports: seq<Port>)
    requires m.rob.Sized()
  {
    After(m, ports).AllQuiet() && (ports != [] ==> Quiet(m, ports[..|ports| - 1]))
  }

  // ---- the reference: one instruction after another ----

  /** The registers written so far, x0 being 0 from the start. */
  function RegFile(log: Log): map<XReg, Word> {
    if log == [] then map[X(0) := 0]
    else
      var r := log[|log| - 1].data;
      RegFile(log[..|log| - 1])[X(r.rdAddr) := r.rdWdata]
  }

  /** The pc continues the previous instruction, unless that trapped or this is an interrupt handler. */
  predicate FollowsOn(log: Log, n: nat)
    requires n < |log|
  {
    n > 0 && !log[n - 1].data.trap && !log[n].data.intr ==> log[n].data.pcRdata == log[n - 1].data.pcWdata
  }

  /** Both operands are the values last written to the reported registers, where those were written. */
  predicate ReadsRegisters(log: Log, n: nat)
    requires n < |log|
  {
    var r, regs := log[n].data, RegFile(log[..n]);
    && (X(r.rs1Addr) in regs ==> r.rs1Rdata == regs[X(r.rs1Addr)])
    && (X(r.rs2Addr) in regs ==> r.rs2Rdata == regs[X(r.rs2Addr)])
  }

  predicate Sequential(log: Log) { forall n :: 0 <= n < |log| ==> FollowsOn(log, n) && ReadsRegisters(log, n) }

  /** Instruction j is the last to write register r. */
  predicate LatestWrite(log: Log, r: Reg, j: nat) {
    && j < |log| && log[j].data.rdAddr == r
    && forall k :: j < k < |log| ==> log[k].data.rdAddr != r
  }

  predicate NeverWritten(log: Log, r: Reg) { forall k :: 0 <= k < |log| ==> log[k].data.rdAddr != r }

  lemma {:induction false} LatestWriteHeld(log: Log, r: Reg, j: nat)
    requires LatestWrite(log, r, j)
    ensures X(r) in RegFile(log) && RegFile(log)[X(r)] == log[j].data.rdWdata
  {
    var init := log[..|log| - 1];
    if j < |log| - 1 {
      assert log[|log| - 1].data.rdAddr != r;
      assert init[j] == log[j];
      LatestWriteHeld(init, r, j);
    }
  }

  lemma {:induction false} UnwrittenHeld(log: Log, r: Reg)
    requires NeverWritten(log, r)
    ensures X(r) in RegFile(log) <==> r == 0
    ensures r == 0 ==> RegFile(log)[X(r)] == 0
  {
    if log != [] {
      assert log[|log| - 1].data.rdAddr != r;
      UnwrittenHeld(log[..|log| - 1], r);
    }
  }

  /** RegFile holds exactly the latest writes. */
  lemma RegFileMeaning(log: Log, r: Reg)
    ensures forall j: nat :: LatestWrite(log, r, j) ==> X(r) in RegFile(log) && RegFile(log)[X(r)] == log[j].data.rdWdata
    ensures NeverWritten(log, r) ==> (X(r) in RegFile(log) <==> r == 0) && (r == 0 ==> RegFile(log)[X(r)] == 0)
  {
    forall j: nat | LatestWrite(log, r, j)
      ensures X(r) in RegFile(log) && RegFile(log)[X(r)] == log[j].data.rdWdata
    {
      LatestWriteHeld(log, r, j);
    }
    if NeverWritten(log, r) {
      UnwrittenHeld(log, r);
    }
  }

  // ---- the shadow state follows the log ----

  predicate Shadows(m: State, log: Log) {
    && m.xregs == RegFile(log)
    && (log == [] ==> !m.pcValid && !m.pcTrap)
    && (log != [] ==>
          var last := log[|log| - 1].data;
          m.pcValid == !last.trap && m.pcTrap == last.trap && m.pc == last.pcWdata)
  }

  lemma SequentialSnoc(log: Log, e: R.Entry<Retired>)
    ensures Sequential(log + [e]) <==>
            Sequential(log) && FollowsOn(log + [e], |log|) && ReadsRegisters(log + [e], |log|)
  {
    var all := log + [e];
    forall n | 0 <= n < |log|
      ensures FollowsOn(all, n) == FollowsOn(log, n) && ReadsRegisters(all, n) == ReadsRegisters(log, n)
    {
      assert all[..n] == log[..n];
    }
    if Sequential(all) {
      assert FollowsOn(all, |log|);
      forall n | 0 <= n < |log|
        ensures FollowsOn(log, n) && ReadsRegisters(log, n)
      {
        assert FollowsOn(all, n);
      }
    }
  }

  /** The two shadow checks pass exactly the instructions that continue the log. */
  lemma ChecksContinue(m: State, log: Log, e: R.Entry<Retired>)
    requires Shadows(m, log)
    ensures PcCode(m.pcValid, m.pcTrap, m.pc, e.data) == 0 && RegCode(m.xregs, e.data) == 0 <==>
            FollowsOn(log + [e], |log|) && ReadsRegisters(log + [e], |log|)
  {
  }

  /** Which code a failing check leaves: the second source register and the trap come last. */
  lemma ShadowCodes(m: State, log: Log, e: R.Entry<Retired>)
    requires Shadows(m, log)
    ensures RegCode(m.xregs, e.data) ==
            if X(e.data.rs2Addr) in RegFile(log) && RegFile(log)[X(e.data.rs2Addr)] != e.data.rs2Rdata then 132
            else if X(e.data.rs1Addr) in RegFile(log) && RegFile(log)[X(e.data.rs1Addr)] != e.data.rs1Rdata then 131
            else 0
    ensures PcCode(m.pcValid, m.pcTrap, m.pc, e.data) == if FollowsOn(log + [e], |log|) then 0 else 130
  {
  }

  lemma ShadowsSnoc(m: State, log: Log, p: Port)
    requires m.rob.Sized() && Shadows(m, log)
    ensures Shadows(Step(m, p), log + if m.rob.outValid then [m.rob.out] else [])
  {
    if m.rob.outValid {
      assert (log + [m.rob.out])[..|log|] == log;
    } else {
      assert log + [] == log;
    }
  }

  lemma Snoc(m: State, ports: seq<Port>, p: Port)
    requires m.rob.Sized()
    ensures After(m, ports + [p]) == Step(After(m, ports), p)
    ensures Inputs(ports + [p]) == Inputs(ports) + [Input(p)]
    ensures Checked(m, ports + [p]) == R.Emitted(m.rob, Inputs(ports))
    ensures Clean(m, ports + [p]) <==> After(m, ports + [p]).errcode == 0 && Clean(m, ports)
    ensures Quiet(m, ports + [p]) <==> After(m, ports + [p]).AllQuiet() && Quiet(m, ports)
  {
  }

  /** The reorder buffer runs on its own inputs, and one cycle later its output joins the log. */
  lemma {:induction false} Pipeline(m: State, ports: seq<Port>)
    requires m.IsReset()
    ensures After(m, ports).rob == R.After(m.rob, Inputs(ports))
    ensures var s := After(m, ports).rob;
            R.Emitted(m.rob, Inputs(ports)) == Checked(m, ports) + if s.outValid then [s.out] else []
    ensures Shadows(After(m, ports), Checked(m, ports))
  {
    if ports != [] {
      var before, p := ports[..|ports| - 1], ports[|ports| - 1];
      assert before + [p] == ports;
      Pipeline(m, before);
      Snoc(m, before, p);
      R.RunSnoc(m.rob, Inputs(before), Input(p));
      ShadowsSnoc(After(m, before), Checked(m, before), p);
    }
  }

  // ---- exactly which runs are clean ----

  predicate AllPass(ports: seq<Port>) { forall j :: 0 <= j < |ports| ==> Passes(ports[j]) }

  lemma ChannelCodeMeaning(p: Port)
    ensures ChannelCode(p) == 0 <==> Passes(p)
  {
    if p.valid && SpecValid(p) {
      MemoryCodeMeaning(p, Expects(p), CoreCode(p.core, Expects(p)));
    }
  }

  lemma {:induction false} QuietExactly(m: State, ports: seq<Port>)
    requires m.IsReset()
    ensures Quiet(m, ports) <==>
            AllPass(ports) && R.ErrorFree(m.rob, Inputs(ports)) && Sequential(Checked(m, ports))
  {
    if ports != [] {
      var before, p := ports[..|ports| - 1], ports[|ports| - 1];
      assert before + [p] == ports;
      var r, log := After(m, before), Checked(m, before);
      QuietExactly(m, before);
      Pipeline(m, before);
      Snoc(m, before, p);
      R.RunSnoc(m.rob, Inputs(before), Input(p));
      ChannelCodeMeaning(p);
      AllPassSnoc(before, p);
      if r.rob.outValid {
        ChecksContinue(r, log, r.rob.out);
        SequentialSnoc(log, r.rob.out);
      } else {
        assert log + [] == log;
      }
    }
  }

  lemma AllPassSnoc(ports: seq<Port>, p: Port)
    ensures AllPass(ports + [p]) <==> AllPass(ports) && Passes(p)
  {
    var all := ports + [p];
    assert all[|ports|] == p;
    assert forall j :: 0 <= j < |ports| ==> all[j] == ports[j];
  }

  /** The output shows an internal code one cycle later and hides none. */
  lemma ReportedNext(s: State, p: Port)
    requires s.rob.Sized()
    ensures Step(s, p).errcode == 0 <==> s.AllQuiet()
  {
    assert Step(s, p).errcode == Report(s.ch0Errcode, s.rob.errcode, s.errcodeP, s.errcodeR);
  }

  lemma CleanSnoc(m: State, ports: seq<Port>, p: Port)
    requires m.rob.Sized()
    ensures Clean(m, ports + [p]) == (After(m, ports).AllQuiet() && Clean(m, ports))
  {
    Snoc(m, ports, p);
    ReportedNext(After(m, ports), p);
  }

  lemma QuietSnoc(m: State, ports: seq<Port>, p: Port)
    requires m.rob.Sized()
    ensures Quiet(m, ports + [p]) == (After(m, ports + [p]).AllQuiet() && Quiet(m, ports))
  {
    assert (ports + [p])[..|ports|] == ports;
  }

  lemma {:induction false} CleanIsQuiet(m: State, ports: seq<Port>, p: Port)
    requires m.IsReset()
    ensures Clean(m, ports + [p]) == Quiet(m, ports)
  {
    CleanSnoc(m, ports, p);
    if ports != [] {
      var before, q := ports[..|ports| - 1], ports[|ports| - 1];
      assert before + [q] == ports;
      CleanIsQuiet(m, before, q);
      QuietSnoc(m, before, q);
    }
  }

  /** A run shows no error exactly if every report conforms, the reorder buffer is content, and the
      instructions in order form a sequential run. */
  lemma CleanExactly(m: State, ports: seq<Port>, p: Port)
    requires m.IsReset()
    ensures Clean(m, ports + [p]) <==>
            AllPass(ports) && R.ErrorFree(m.rob, Inputs(ports)) && Sequential(Checked(m, ports))
  {
    CleanIsQuiet(m, ports, p);
    QuietExactly(m, ports);
  }

  /** No false alarm: conforming reports, numbered inside the window, of a sequential run. */
  lemma ConformingRunIsClean(m: State, ports: seq<Port>, subs: seq<Option<R.Submission<Retired>>>, p: Port)
    requires m.IsReset() && Inputs(ports) == R.AllSent(subs) && R.InWindow(m.rob, subs)
    requires AllPass(ports) && Sequential(Checked(m, ports))
    ensures Clean(m, ports + [p])
  {
    R.NoFalseAlarm(m.rob, subs, None);
    CleanExactly(m, ports, p);
  }

  // ---- soundness ----

  /** What isa_spec says of a report: whether the word is an instruction, and its effects on the reported operands. */
  function Specified(q: Port): (bool, Expected) {
    Spec(q.insn, Operands(q.core.pcRdata, q.core.rs1Rdata, q.core.rs2Rdata, q.memRdata))
  }

  /** An instruction, and reported with the source registers that isa_spec decodes. */
  predicate Trusted(p: Port) {
    p.valid ==> Specified(p).0 && p.core.rs1Addr == Specified(p).1.rs1 && p.core.rs2Addr == Specified(p).1.rs2
  }

  /** Instruction n of the log is `q`, it goes on where the last one left, reads the registers as written so far,
      and has the effects `e`: registers, next pc, trap, and the bytes written and read at the address. */
  predicate Executes(log: Log, n: nat, q: Port, e: Expected)
    requires n < |log|
  {
    var r, regs := q.core, RegFile(log[..n]);
    && q.valid && log[n].order == q.order == n % TWO_64 && log[n].data == r
    && (n > 0 && !log[n - 1].data.trap && !r.intr ==> r.pcRdata == log[n - 1].data.pcWdata)
    && r.rs1Addr == e.rs1 && (X(e.rs1) in regs ==> r.rs1Rdata == regs[X(e.rs1)])
    && r.rs2Addr == e.rs2 && (X(e.rs2) in regs ==> r.rs2Rdata == regs[X(e.rs2)])
    && X(0) in regs && regs[X(0)] == 0
    && r.rdAddr == e.rd && r.rdWdata == e.rdWdata && r.pcWdata == e.pcWdata && r.trap == e.trap
    && AccessesMemory(q, e)
  }

  /** The expected bytes are written and read, and whatever is accessed is at the expected address. */
  predicate AccessesMemory(q: Port, e: Expected) {
    && q.memWmask == e.wmask
    && (q.memWmask != 0 || q.memRmask != 0 ==> q.memAddr == e.memAddr)
    && (forall lane: nat :: lane < 4 && HasByte(e.wmask, lane) ==> ByteOf(q.memWdata, lane) == ByteOf(e.memWdata, lane))
    && (forall lane: nat :: lane < 4 && HasByte(e.rmask, lane) ==> HasByte(q.memRmask, lane))
  }

  predicate HasByte(m: Mask, lane: nat) {
    match lane
    case 0 => m & 1 != 0
    case 1 => m & 2 != 0
    case 2 => m & 4 != 0
    case _ => m & 8 != 0
  }

  function ByteOf(x: Word, lane: nat): bv8 {
    match lane
    case 0 => (x & 0xff) as bv8
    case 1 => ((x >> 8) & 0xff) as bv8
    case 2 => ((x >> 16) & 0xff) as bv8
    case _ => ((x >> 24) & 0xff) as bv8
  }

  lemma SameBytes(x: Word, y: Word)
    ensures x & 0xff == y & 0xff ==> ByteOf(x, 0) == ByteOf(y, 0)
    ensures x & 0xff00 == y & 0xff00 ==> ByteOf(x, 1) == ByteOf(y, 1)
    ensures x & 0xff0000 == y & 0xff0000 ==> ByteOf(x, 2) == ByteOf(y, 2)
    ensures x & 0xff000000 == y & 0xff000000 ==> ByteOf(x, 3) == ByteOf(y, 3)
  {
  }

  lemma ConformingAccess(q: Port, e: Expected)
    requires MemoryConforms(q, e)
    ensures AccessesMemory(q, e)
  {
    hide ByteOf;
    SameBytes(q.memWdata, e.memWdata);
  }

  lemma {:induction false} ArrivedFrom(ports: seq<Port>, e: R.Entry<Retired>)
    requires e in R.Arrived(Inputs(ports))
    ensures exists q :: q in ports && q.valid && e == R.Entry(q.order, q.core)
  {
    if ports != [] {
      var before, p := ports[..|ports| - 1], ports[|ports| - 1];
      assert Inputs(ports)[..|Inputs(before)|] == Inputs(before);
      if e in R.Arrived(Inputs(before)) {
        ArrivedFrom(before, e);
      } else {
        assert p in ports && p.valid;
      }
    }
  }

  lemma {:induction false} ZeroStays(log: Log)
    requires forall k :: 0 <= k < |log| && log[k].data.rdAddr == 0 ==> log[k].data.rdWdata == 0
    ensures X(0) in RegFile(log) && RegFile(log)[X(0)] == 0
  {
    if log != [] {
      ZeroStays(log[..|log| - 1]);
    }
  }

  /** Where instruction n came from. */
  lemma Source(m: State, ports: seq<Port>, n: nat) returns (q: Port)
    requires m.IsReset() && ports != [] && R.ErrorFree(m.rob, Inputs(ports)) && n < |Checked(m, ports)|
    ensures q in ports && q.valid && q.order == n % TWO_64
    ensures Checked(m, ports)[n] == R.Entry(q.order, q.core)
  {
    var before, p := ports[..|ports| - 1], ports[|ports| - 1];
    assert before + [p] == ports;
    Snoc(m, before, p);
    R.RunSnoc(m.rob, Inputs(before), Input(p));
    R.OutputsWereInputs(m.rob, Inputs(before), n);
    ArrivedFrom(before, Checked(m, ports)[n]);
    q :| q in before && q.valid && Checked(m, ports)[n] == R.Entry(q.order, q.core);
  }

  /** A clean run of trusted reports is a sequential execution of the instruction set: instruction n carries
      order n, follows on, reads the latest writes and x0 as 0, and has the effects isa_spec gives it. */
  lemma MonitorSound(m: State, ports: seq<Port>, p: Port, n: nat)
    requires m.IsReset() && Clean(m, ports + [p]) && forall q :: q in ports ==> Trusted(q)
    requires n < |Checked(m, ports)|
    ensures exists q :: q in ports && Specified(q).0 && Executes(Checked(m, ports), n, q, Specified(q).1)
  {
    var log := Checked(m, ports);
    CleanExactly(m, ports, p);
    forall k | 0 <= k < n && log[k].data.rdAddr == 0
      ensures log[k].data.rdWdata == 0
    {
      var q := Source(m, ports, k);
      ConformsIfTrusted(ports, q);
      IsaDecoding.ZeroRegisterWrite(CHAIN, q.insn, OperandsOf(q));
    }
    ZeroStays(log[..n]);
    var q := Source(m, ports, n);
    ConformsIfTrusted(ports, q);
    assert FollowsOn(log, n) && ReadsRegisters(log, n);
    assert Executes(log, n, q, Specified(q).1);
  }

  /** On 32-bit instructions those effects are the manual's, on integers: a clean run (MonitorSound) executes them. */
  lemma ManualEffects(q: Port, op: Op32)
    requires Valid32(op, q.insn)
    ensures Specified(q).0
    ensures var x := Operands(q.core.pcRdata, q.core.rs1Rdata, q.core.rs2Rdata, q.memRdata);
            IsaManual.Effect(op, IsaManual.ValuesOf(op, q.insn, x), Specified(q).1)
  {
    hide IsaManual.Effect, IsaManual.ValuesOf, Valid32;
    IsaManual.SpecIsManual(op, q.insn, Operands(q.core.pcRdata, q.core.rs1Rdata, q.core.rs2Rdata, q.memRdata));
  }

  lemma ConformsIfTrusted(ports: seq<Port>, q: Port)
    requires AllPass(ports) && q in ports && Trusted(q) && q.valid
    ensures Specified(q) == (SpecValid(q), Expects(q)) && SpecValid(q)
    ensures CoreConforms(q.core, Expects(q)) && AccessesMemory(q, Expects(q))
    ensures q.core.rs1Addr == Expects(q).rs1 && q.core.rs2Addr == Expects(q).rs2
  {
    hide MemoryConforms, AccessesMemory;
    assert Passes(q);
    ConformingAccess(q, Expects(q));
  }

  // ---- what the monitor does not see ----

  /** "Expected intr after trap" can never be raised: a trapped instruction invalidates the shadow pc ... */
  lemma TrapCheckIsDead(m: State, ports: seq<Port>)
    requires m.IsReset()
    ensures !(After(m, ports).pcValid && After(m, ports).pcTrap)
    ensures After(m, ports).errcodeP != 133
  {
  }

  /** ... so after a trap any pc is accepted, intr or not. */
  lemma AnyPcAfterTrap(m: State, ports: seq<Port>, r: Retired)
    requires m.IsReset() && Checked(m, ports) != [] && Checked(m, ports)[|Checked(m, ports)| - 1].data.trap
    ensures var s := After(m, ports); PcCode(s.pcValid, s.pcTrap, s.pc, r) == 0
  {
    Pipeline(m, ports);
  }
}
