/**
 The cache in front of a line memory of arbitrary latency, against the flat shadow memory.
 While a request waits, the requester keeps asking for some word of the same line; the memory answers in
 any cycle it likes, with the addressed line when the answer is to a read.
 */
module CacheRefinement {
  import opened Wrappers
  import opened FlatMemory
  import opened CacheSpec

  datatype Request = Request(read: bool, write: bool, addr: Address, wdata: Word, be: ByteEnable)

  function RequestOf(i: Inputs): Request { Request(i.read, i.write, i.addr, i.wdata, i.be) }

  /** Cache, line memory, and the address of a request that was not answered in its last cycle. */
  datatype System = System(cache: CacheState, mem: Memory, pending: Option<Address>)

  predicate SameLine(a: Address, b: Address) { a.tag == b.tag && a.index == b.index }

  /** Of a waiting request only the line is held; word, data, byte enables and kind may change. */
  predicate Legal(sys: System, i: Inputs) {
    var o := Output(sys.cache, i);
    && (sys.pending.Some? ==> i.Active() && SameLine(i.addr, sys.pending.value))
    && (o.pmemRead && i.pmemResp ==> i.pmemRdata == sys.mem[LineNo(o.pmemAddress)])
  }

  function SysStep(sys: System, i: Inputs): System {
    var o := Output(sys.cache, i);
    System(
      Step(sys.cache, i),
      if o.pmemWrite && i.pmemResp then sys.mem[LineNo(o.pmemAddress) := o.pmemWdata] else sys.mem,
      if i.Active() && !o.memResp then Some(i.addr) else None)
  }

  // ---- one set ----

  /** What the controller is doing to a set: nothing, writing the victim back, or filling it. */
  datatype Phase = Quiet | Evicting(tag: Tag) | Filling(tag: Tag)

  /** Clean lines equal memory, except the victim whose bit was cleared early or whose data is not final. */
  predicate Excused(cs: CacheSet, ph: Phase, w: WayNo) {
    !ph.Quiet? && w == Victim(cs.plru)
  }

  ghost predicate SetInv(cs: CacheSet, ph: Phase, m: Memory, s: SetNo) {
    && (forall w: WayNo :: cs.ways[w].dirty ==> cs.ways[w].valid)
    && (forall v: WayNo, w: WayNo :: v != w && cs.ways[v].valid && cs.ways[w].valid ==> cs.ways[v].tag != cs.ways[w].tag)
    && (forall w: WayNo :: cs.ways[w].valid && !cs.ways[w].dirty && !Excused(cs, ph, w)
          ==> cs.ways[w].data == m[LineOf(cs.ways[w].tag, s)])
    && (ph.Evicting? ==> cs.ways[Victim(cs.plru)].valid && !AnyHit(cs, ph.tag))
    && (ph.Filling? ==>
          && !cs.ways[Victim(cs.plru)].dirty
          && forall w: WayNo :: Hits(cs.ways[w], ph.tag) ==> w == Victim(cs.plru))
  }

  /** Way `w` speaks for tag `t`: a hit, unless it is the way being filled. */
  predicate Holds(cs: CacheSet, ph: Phase, t: Tag, w: WayNo) {
    Hits(cs.ways[w], t) && !(ph.Filling? && w == Victim(cs.plru))
  }

  /** The line a program sees at tag `t` of this set. */
  function SetLine(cs: CacheSet, ph: Phase, t: Tag, below: Line): Line {
    if Holds(cs, ph, t, 0) then cs.ways[0].data
    else if Holds(cs, ph, t, 1) then cs.ways[1].data
    else if Holds(cs, ph, t, 2) then cs.ways[2].data
    else if Holds(cs, ph, t, 3) then cs.ways[3].data
    else below
  }

  lemma SetLineIs(cs: CacheSet, ph: Phase, m: Memory, s: SetNo, t: Tag, w: WayNo, below: Line)
    requires SetInv(cs, ph, m, s)
    ensures Holds(cs, ph, t, w) ==> SetLine(cs, ph, t, below) == cs.ways[w].data
    ensures (forall v: WayNo :: !Holds(cs, ph, t, v)) ==> SetLine(cs, ph, t, below) == below
  {
  }

  // ---- the three kinds of step on the addressed set ----

  lemma HitStep(cs: CacheSet, m: Memory, s: SetNo, i: Inputs)
    requires SetInv(cs, Quiet, m, s) && i.Active() && AnyHit(cs, i.addr.tag)
    ensures SetInv(SetAfter(Hit, cs, i), Quiet, m, s)
    ensures forall t: Tag ::
      SetLine(SetAfter(Hit, cs, i), Quiet, t, m[LineOf(t, s)]) ==
      var seen := SetLine(cs, Quiet, t, m[LineOf(t, s)]);
      if !i.read && t == i.addr.tag then MergeWord(seen, Lane(i.addr), i.wdata, i.be) else seen
  {
  }

  /** A miss only moves the controller; the phase of the addressed set changes. */
  lemma MissStep(cs: CacheSet, m: Memory, s: SetNo, i: Inputs)
    requires SetInv(cs, Quiet, m, s) && i.Active() && !AnyHit(cs, i.addr.tag)
    ensures var ph := if cs.ways[Victim(cs.plru)].dirty then Evicting(i.addr.tag) else Filling(i.addr.tag);
            SetInv(cs, ph, m, s) &&
            forall t: Tag :: SetLine(cs, ph, t, m[LineOf(t, s)]) == SetLine(cs, Quiet, t, m[LineOf(t, s)])
  {
  }

  /** A line written back is already the line a program sees. */
  lemma WriteBack(cs: CacheSet, m: Memory, s: SetNo, t: Tag)
    requires SetInv(cs, Evicting(t), m, s)
    ensures var v := cs.ways[Victim(cs.plru)];
            var m' := m[LineOf(v.tag, s) := v.data];
            && SetInv(cs, Evicting(t), m', s)
            && forall u: Tag :: SetLine(cs, Evicting(t), u, m'[LineOf(u, s)]) == SetLine(cs, Evicting(t), u, m[LineOf(u, s)])
  {
  }

  /** Clearing the victim's dirty bit early is excused. */
  lemma ClearDirty(cs: CacheSet, m: Memory, s: SetNo, i: Inputs)
    requires SetInv(cs, Evicting(i.addr.tag), m, s)
    ensures var ph := Evicting(i.addr.tag);
            var cs' := SetAfter(MissDirty, cs, i);
            && SetInv(cs', ph, m, s)
            && (forall w: WayNo :: w != Victim(cs.plru) ==> cs'.ways[w] == cs.ways[w])
            && (forall t: Tag :: SetLine(cs', ph, t, m[LineOf(t, s)]) == SetLine(cs, ph, t, m[LineOf(t, s)]))
  {
  }

  /** Once the victim's line is in memory the fill may start. */
  lemma StartFill(cs: CacheSet, m: Memory, s: SetNo, t: Tag)
    requires SetInv(cs, Evicting(t), m, s)
    requires var v := cs.ways[Victim(cs.plru)]; !v.dirty && m[LineOf(v.tag, s)] == v.data
    ensures SetInv(cs, Filling(t), m, s)
    ensures forall u: Tag :: SetLine(cs, Filling(t), u, m[LineOf(u, s)]) == SetLine(cs, Evicting(t), u, m[LineOf(u, s)])
  {
  }

  lemma EvictStep(cs: CacheSet, m: Memory, s: SetNo, i: Inputs)
    requires SetInv(cs, Evicting(i.addr.tag), m, s) && i.Active()
    ensures var cs' := SetAfter(MissDirty, cs, i);
            var v := cs.ways[Victim(cs.plru)];
            var ph := if i.pmemResp then Filling(i.addr.tag) else Evicting(i.addr.tag);
            var m' := if i.pmemResp then m[LineOf(v.tag, s) := v.data] else m;
            SetInv(cs', ph, m', s) &&
            forall t: Tag :: SetLine(cs', ph, t, m'[LineOf(t, s)]) == SetLine(cs, Evicting(i.addr.tag), t, m[LineOf(t, s)])
  {
    ClearDirty(cs, m, s, i);
    if i.pmemResp {
      var cs' := SetAfter(MissDirty, cs, i);
      var v := cs'.ways[Victim(cs.plru)];
      WriteBack(cs', m, s, i.addr.tag);
      StartFill(cs', m[LineOf(v.tag, s) := v.data], s, i.addr.tag);
    }
  }

  lemma FillStep(cs: CacheSet, m: Memory, s: SetNo, i: Inputs)
    requires SetInv(cs, Filling(i.addr.tag), m, s) && i.Active()
    requires i.pmemResp ==> i.pmemRdata == m[LineOf(i.addr.tag, s)]
    ensures var cs' := SetAfter(MissClean, cs, i);
            var ph := if i.pmemResp then Quiet else Filling(i.addr.tag);
            && SetInv(cs', ph, m, s)
            && (i.pmemResp ==> AnyHit(cs', i.addr.tag))
            && forall t: Tag :: SetLine(cs', ph, t, m[LineOf(t, s)]) == SetLine(cs, Filling(i.addr.tag), t, m[LineOf(t, s)])
  {
    var cs' := SetAfter(MissClean, cs, i);
    var ph := if i.pmemResp then Quiet else Filling(i.addr.tag);
    assert forall w: WayNo :: w != Victim(cs.plru) ==> cs'.ways[w] == cs.ways[w];
    assert Hits(cs'.ways[Victim(cs.plru)], i.addr.tag);
    assert SetInv(cs', ph, m, s);
  }

  // ---- the whole system ----

  function PhaseOf(sys: System, s: SetNo): Phase {
    if sys.pending.Some? && s == sys.pending.value.index then
      match sys.cache.ctrl
      case Hit => Quiet
      case MissDirty => Evicting(sys.pending.value.tag)
      case MissClean => Filling(sys.pending.value.tag)
    else Quiet
  }

  ghost predicate Inv(sys: System) {
    && (forall s: SetNo :: SetInv(sys.cache.sets[s], PhaseOf(sys, s), sys.mem, s))
    && (sys.pending.None? ==> sys.cache.ctrl.Hit?)
    && (sys.pending.Some? ==>
          var a := sys.pending.value;
          sys.cache.ctrl.Hit? ==> AnyHit(sys.cache.sets[a.index], a.tag))
  }

  /** The memory a program sees through the cache. */
  function Abs(sys: System): (m: Memory)
    ensures forall ln: nat :: ln < LINES ==>
      m[ln] == SetLine(sys.cache.sets[ln % 8], PhaseOf(sys, ln % 8), ln / 8, sys.mem[ln])
  {
    seq(LINES, ln requires 0 <= ln < LINES =>
      SetLine(sys.cache.sets[ln % 8], PhaseOf(sys, ln % 8), ln / 8, sys.mem[ln]))
  }

  lemma ResetEstablishes(sys: System)
    requires IsReset(sys.cache) && sys.pending.None?
    ensures Inv(sys) && Abs(sys) == sys.mem
  {
  }

  /** The effect of one legal cycle on the addressed set. */
  lemma AddressedSetStep(sys: System, i: Inputs)
    requires Inv(sys) && Legal(sys, i)
    ensures var k := i.addr.index;
            var sys' := SysStep(sys, i);
            && SetInv(sys'.cache.sets[k], PhaseOf(sys', k), sys'.mem, k)
            && forall t: Tag ::
                 SetLine(sys'.cache.sets[k], PhaseOf(sys', k), t, sys'.mem[LineOf(t, k)]) ==
                 var seen := SetLine(sys.cache.sets[k], PhaseOf(sys, k), t, sys.mem[LineOf(t, k)]);
                 if Output(sys.cache, i).memResp && !i.read && t == i.addr.tag
                 then MergeWord(seen, Lane(i.addr), i.wdata, i.be) else seen
  {
    var k := i.addr.index;
    var cs := sys.cache.sets[k];
    match sys.cache.ctrl {
      case Hit =>
        if i.Active() {
          if AnyHit(cs, i.addr.tag) {
            HitStep(cs, sys.mem, k, i);
          } else {
            MissStep(cs, sys.mem, k, i);
          }
        }
      case MissDirty =>
        EvictStep(cs, sys.mem, k, i);
      case MissClean =>
        FillStep(cs, sys.mem, k, i);
    }
  }

  /** A cycle leaves every other set, and the memory lines below it, alone. */
  lemma OtherSetStep(sys: System, i: Inputs, s: SetNo)
    requires Inv(sys) && Legal(sys, i) && s != i.addr.index
    ensures var sys' := SysStep(sys, i);
            && PhaseOf(sys, s) == PhaseOf(sys', s) == Quiet
            && sys'.cache.sets[s] == sys.cache.sets[s]
            && (forall t: Tag :: sys'.mem[LineOf(t, s)] == sys.mem[LineOf(t, s)])
            && SetInv(sys'.cache.sets[s], Quiet, sys'.mem, s)
  {
  }

  /** The cache invariant holds after every legal cycle. */
  lemma StepKeepsInv(sys: System, i: Inputs)
    requires Inv(sys) && Legal(sys, i)
    ensures Inv(SysStep(sys, i))
  {
    var sys' := SysStep(sys, i);
    AddressedSetStep(sys, i);
    forall s: SetNo
      ensures SetInv(sys'.cache.sets[s], PhaseOf(sys', s), sys'.mem, s)
    {
      if s != i.addr.index {
        OtherSetStep(sys, i, s);
      }
    }
    if sys.cache.ctrl.MissClean? {
      FillStep(sys.cache.sets[i.addr.index], sys.mem, i.addr.index, i);
    }
  }

  /** The line at `ln` as a program sees it, before and after a cycle. */
  lemma StepLine(sys: System, i: Inputs, ln: nat)
    requires Inv(sys) && Legal(sys, i) && ln < LINES
    ensures Abs(SysStep(sys, i))[ln] ==
              if Output(sys.cache, i).memResp && !i.read && ln == LineNo(i.addr)
              then MergeWord(Abs(sys)[ln], Lane(i.addr), i.wdata, i.be) else Abs(sys)[ln]
  {
    var t: Tag := ln / 8;
    assert ln == LineOf(t, ln % 8);
    assert LineNo(i.addr) == LineOf(i.addr.tag, i.addr.index);
    if ln % 8 == i.addr.index {
      AddressedSetStep(sys, i);
    } else {
      OtherSetStep(sys, i, ln % 8);
    }
  }

  /** Misses, write-backs and fills are invisible; a completed write changes exactly its enabled bytes. */
  lemma StepAbs(sys: System, i: Inputs)
    requires Inv(sys) && Legal(sys, i)
    ensures Abs(SysStep(sys, i)) ==
              if Output(sys.cache, i).memResp && !i.read then WriteWord(Abs(sys), i.addr, i.wdata, i.be) else Abs(sys)
  {
    var want := if Output(sys.cache, i).memResp && !i.read then WriteWord(Abs(sys), i.addr, i.wdata, i.be) else Abs(sys);
    forall ln: nat | ln < LINES
      ensures Abs(SysStep(sys, i))[ln] == want[ln]
    {
      StepLine(sys, i, ln);
    }
  }

  /** A completed read returns the word the abstract memory holds. */
  lemma StepReads(sys: System, i: Inputs)
    requires Inv(sys) && Legal(sys, i)
    requires Output(sys.cache, i).memResp
    ensures Output(sys.cache, i).memRdata == ReadWord(Abs(sys), i.addr)
  {
    var k := i.addr.index;
    assert LineNo(i.addr) == LineOf(i.addr.tag, k);
    SetLineIs(sys.cache.sets[k], Quiet, sys.mem, k, i.addr.tag, FirstHit(sys.cache.sets[k], i.addr.tag),
              sys.mem[LineNo(i.addr)]);
  }

  // ---- whole runs against the shadow-memory checker ----

  ghost predicate LegalRun(sys: System, inputs: seq<Inputs>)
    decreases |inputs|
  {
    inputs != [] ==> Legal(sys, inputs[0]) && LegalRun(SysStep(sys, inputs[0]), inputs[1..])
  }

  function Run(sys: System, inputs: seq<Inputs>): System
    decreases |inputs|
  {
    if inputs == [] then sys else Run(SysStep(sys, inputs[0]), inputs[1..])
  }

  datatype Answer = Answer(req: Request, rdata: Word)

  /** Requests in the order they were answered, with the data they were answered with. */
  function Answers(sys: System, inputs: seq<Inputs>): seq<Answer>
    decreases |inputs|
  {
    if inputs == [] then []
    else
      var o := Output(sys.cache, inputs[0]);
      var rest := Answers(SysStep(sys, inputs[0]), inputs[1..]);
      if o.memResp then [Answer(RequestOf(inputs[0]), o.memRdata)] + rest else rest
  }

  /** The `data` process of the shadow memory over all answers. */
  function Check(c: Checker, log: seq<Answer>): Checker
    decreases |log|
  {
    if log == [] then c
    else
      var a := log[0];
      Check(CheckOne(c, a.req.read, a.req.addr, a.req.wdata, a.req.be, a.rdata), log[1..])
  }

  lemma {:induction false} RunKeepsInv(sys: System, inputs: seq<Inputs>)
    requires Inv(sys) && LegalRun(sys, inputs)
    ensures Inv(Run(sys, inputs))
    decreases |inputs|
  {
    if inputs != [] {
      StepKeepsInv(sys, inputs[0]);
      RunKeepsInv(SysStep(sys, inputs[0]), inputs[1..]);
    }
  }

  /** Over every legal run the checker counts no mismatch and ends with the memory seen through the cache. */
  lemma {:induction false} RunAgrees(sys: System, inputs: seq<Inputs>, errcount: nat)
    requires Inv(sys) && LegalRun(sys, inputs)
    ensures Check(Checker(Abs(sys), errcount), Answers(sys, inputs)) == Checker(Abs(Run(sys, inputs)), errcount)
    decreases |inputs|
  {
    if inputs != [] {
      var i := inputs[0];
      var sys' := SysStep(sys, i);
      StepKeepsInv(sys, i);
      StepAbs(sys, i);
      RunAgrees(sys', inputs[1..], errcount);
      if Output(sys.cache, i).memResp {
        StepReads(sys, i);
        var log := Answers(sys, inputs);
        assert log[1..] == Answers(sys', inputs[1..]);
      }
    }
  }

  // ---- the same without the checker ----

  /** Memory `m` after the writes of a log; reads leave it alone. */
  function MemoryAfter(m: Memory, log: seq<Answer>): Memory {
    if log == [] then m
    else
      var before, last := MemoryAfter(m, log[..|log| - 1]), log[|log| - 1].req;
      if last.read then before else WriteWord(before, last.addr, last.wdata, last.be)
  }

  /** Answer k is to a read, and its data is not the word that the earlier writes left. */
  predicate WrongRead(m: Memory, log: seq<Answer>, k: nat)
    requires k < |log|
  {
    log[k].req.read && log[k].rdata != ReadWord(MemoryAfter(m, log[..k]), log[k].req.addr)
  }

  function WrongReads(m: Memory, log: seq<Answer>): nat {
    if log == [] then 0
    else WrongReads(m, log[..|log| - 1]) + if WrongRead(m, log, |log| - 1) then 1 else 0
  }

  function CheckAnswer(c: Checker, a: Answer): Checker {
    CheckOne(c, a.req.read, a.req.addr, a.req.wdata, a.req.be, a.rdata)
  }

  lemma {:induction false} CheckSnoc(c: Checker, log: seq<Answer>, a: Answer)
    ensures Check(c, log + [a]) == CheckAnswer(Check(c, log), a)
    decreases |log|
  {
    if log == [] {
      assert ([] + [a])[1..] == [];
    } else {
      assert (log + [a])[1..] == log[1..] + [a];
      CheckSnoc(CheckAnswer(c, log[0]), log[1..], a);
    }
  }

  /** Over any log, of this cache or any other, the checker performs the writes and counts the wrong reads. */
  lemma {:induction false} CheckCounts(c: Checker, log: seq<Answer>)
    ensures Check(c, log).mem == MemoryAfter(c.mem, log)
    ensures Check(c, log).errcount == c.errcount + WrongReads(c.mem, log)
  {
    if log != [] {
      var before, a := log[..|log| - 1], log[|log| - 1];
      assert before + [a] == log;
      CheckCounts(c, before);
      CheckSnoc(c, before, a);
    }
  }

  lemma {:induction false} NoneWrong(m: Memory, log: seq<Answer>, k: nat)
    requires WrongReads(m, log) == 0 && k < |log|
    ensures !WrongRead(m, log, k)
  {
    var before := log[..|log| - 1];
    if k < |log| - 1 {
      NoneWrong(m, before, k);
      assert before[..k] == log[..k];
    }
  }

  /** From reset: cache and line memory together are indistinguishable from the flat shadow memory.  Every read is
      answered with the word that the earlier writes left, and those writes are all a program sees in the end. */
  lemma CacheRefinesShadowMemory(sys: System, inputs: seq<Inputs>)
    requires IsReset(sys.cache) && sys.pending.None? && LegalRun(sys, inputs)
    ensures Inv(Run(sys, inputs))
    ensures Check(Checker(sys.mem, 0), Answers(sys, inputs)) == Checker(Abs(Run(sys, inputs)), 0)
    ensures var log := Answers(sys, inputs);
            && (forall k: nat :: k < |log| && log[k].req.read ==>
                  log[k].rdata == ReadWord(MemoryAfter(sys.mem, log[..k]), log[k].req.addr))
            && Abs(Run(sys, inputs)) == MemoryAfter(sys.mem, log)
  {
    ResetEstablishes(sys);
    RunKeepsInv(sys, inputs);
    RunAgrees(sys, inputs, 0);
    var log := Answers(sys, inputs);
    CheckCounts(Checker(sys.mem, 0), log);
    forall k: nat | k < |log| && log[k].req.read
      ensures log[k].rdata == ReadWord(MemoryAfter(sys.mem, log[..k]), log[k].req.addr)
    {
      NoneWrong(sys.mem, log, k);
      assert !WrongRead(sys.mem, log, k);
    }
  }

  // ---- byte by byte ----

  /** Answer k is to a write that enables the byte at address n. */
  predicate Writes(a: Answer, n: int)
    requires 0 <= n < 0x1_0000_0000
  {
    !a.req.read && n / 4 == Bits(a.req.addr) / 4 && a.req.be[n % 4]
  }

  /** A byte is the one last written to its address ... */
  lemma {:induction false} LatestByte(m: Memory, log: seq<Answer>, n: int, k: nat)
    requires 0 <= n < 0x1_0000_0000 && k < |log|
    requires Writes(log[k], n) && forall j :: k < j < |log| ==> !Writes(log[j], n)
    ensures ByteAt(MemoryAfter(m, log), n) == log[k].req.wdata[n % 4]
  {
    OneMoreAnswer(m, log, n);
    if k < |log| - 1 {
      var before := log[..|log| - 1];
      assert forall j :: 0 <= j < |before| ==> before[j] == log[j];
      LatestByte(m, before, n, k);
    }
  }

  /** ... or the initial one. */
  lemma {:induction false} UntouchedByte(m: Memory, log: seq<Answer>, n: int)
    requires 0 <= n < 0x1_0000_0000 && forall k :: 0 <= k < |log| ==> !Writes(log[k], n)
    ensures ByteAt(MemoryAfter(m, log), n) == ByteAt(m, n)
  {
    if log != [] {
      OneMoreAnswer(m, log, n);
      UntouchedByte(m, log[..|log| - 1], n);
    }
  }

  lemma OneMoreAnswer(m: Memory, log: seq<Answer>, n: int)
    requires 0 <= n < 0x1_0000_0000 && log != []
    ensures var a := log[|log| - 1];
            ByteAt(MemoryAfter(m, log), n) ==
            if Writes(a, n) then a.req.wdata[n % 4] else ByteAt(MemoryAfter(m, log[..|log| - 1]), n)
  {
    var before, last := MemoryAfter(m, log[..|log| - 1]), log[|log| - 1].req;
    if !last.read {
      WrittenBytes(before, last.addr, last.wdata, last.be, n);
    }
  }
}
