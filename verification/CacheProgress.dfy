/**
 Liveness of a held request, steadiness of the memory port, and what goes wrong when the requester
 breaks its side of the bargain.

 In contracts, `P(x) == true` instead of `P(x)` keeps the verifier from unfolding P where it is only passed on.
 */
module CacheProgress {
  import opened Wrappers
  import opened FlatMemory
  import opened CacheSpec
  import opened CacheRefinement

  // ---- the memory port ----

  /** What hvl/param_memory.sv watches while a transfer is outstanding. */
  datatype PortCommand = PortCommand(read: bool, write: bool, address: Address, wdata: Option<Line>)

  function CommandOf(o: Outputs): PortCommand {
    PortCommand(o.pmemRead, o.pmemWrite, o.pmemAddress, if o.pmemWrite then Some(o.pmemWdata) else None)
  }

  /** An unanswered command is repeated unchanged in the next cycle. */
  lemma PortSteady(sys: System, i: Inputs, next: Inputs)
    requires Inv(sys) && Legal(sys, i) && Legal(SysStep(sys, i), next)
    requires !sys.cache.ctrl.Hit? && !i.pmemResp
    ensures CommandOf(Output(SysStep(sys, i).cache, next)) == CommandOf(Output(sys.cache, i))
    ensures !SysStep(sys, i).cache.ctrl.Hit?
  {
  }

  /** The commands issued along a run, cycle by cycle. */
  function Commands(sys: System, inputs: seq<Inputs>): seq<PortCommand>
    decreases |inputs|
  {
    if inputs == [] then []
    else [CommandOf(Output(sys.cache, inputs[0]))] + Commands(SysStep(sys, inputs[0]), inputs[1..])
  }

  /** From the first cycle of a transfer to its answer, however long that takes, the port does not move. */
  lemma {:induction false} TransferSteady(sys: System, inputs: seq<Inputs>, k: nat)
    requires Inv(sys) && LegalRun(sys, inputs) && !sys.cache.ctrl.Hit?
    requires k < |inputs| && forall j :: 0 <= j < k ==> !inputs[j].pmemResp
    ensures |Commands(sys, inputs)| == |inputs|
    ensures Commands(sys, inputs)[k] == Commands(sys, inputs)[0]
    ensures Commands(sys, inputs)[k].read != Commands(sys, inputs)[k].write
    decreases |inputs|
  {
    CommandsLength(sys, inputs);
    if k > 0 {
      PortSteady(sys, inputs[0], inputs[1]);
      StepKeepsInv(sys, inputs[0]);
      assert LegalRun(SysStep(sys, inputs[0]), inputs[1..]);
      TransferSteady(SysStep(sys, inputs[0]), inputs[1..], k - 1);
    }
  }

  lemma {:induction false} CommandsLength(sys: System, inputs: seq<Inputs>)
    ensures |Commands(sys, inputs)| == |inputs|
    decreases |inputs|
  {
    if inputs != [] {
      CommandsLength(SysStep(sys, inputs[0]), inputs[1..]);
    }
  }

  // ---- liveness ----

  /** Transactions and look-ups still ahead of a request. */
  function StageOf(ctrl: CtrlState, cs: CacheSet, t: Tag): nat {
    match ctrl
    case MissDirty => 2
    case MissClean => 1
    case Hit => if AnyHit(cs, t) then 0 else if cs.ways[Victim(cs.plru)].dirty then 3 else 2
  }

  function Stage(c: CacheState, r: Request): nat {
    StageOf(c.ctrl, c.sets[r.addr.index], r.addr.tag)
  }

  predicate Serving(sys: System, r: Request) {
    (r.read || r.write) && (sys.pending.Some? ==> SameLine(r.addr, sys.pending.value))
  }

  /** In any run, a cycle without an answer takes the request one stage further, or waits for memory. */
  lemma StageDrops(sys: System, i: Inputs)
    requires i.Active()
    ensures var r := RequestOf(i);
            var sys' := SysStep(sys, i);
            && (Stage(sys.cache, r) == 0 <==> Output(sys.cache, i).memResp)
            && (!Output(sys.cache, i).memResp ==>
                  Stage(sys'.cache, r) ==
                    (if !sys.cache.ctrl.Hit? && !i.pmemResp then Stage(sys.cache, r) else Stage(sys.cache, r) - 1))
  {
  }

  /** The inputs of a cycle when memory answers after `wait` more cycles and drives `junk` until then. */
  function Drive(sys: System, r: Request, wait: nat, junk: nat -> Line): (i: Inputs)
    requires Serving(sys, r)
    ensures Legal(sys, i) && RequestOf(i) == r
    ensures i.pmemResp == (wait == 0)
  {
    var ask := Inputs(r.read, r.write, r.addr, r.wdata, r.be, wait == 0, junk(wait));
    if wait == 0 then ask.(pmemRdata := sys.mem[LineNo(Output(sys.cache, ask).pmemAddress)]) else ask
  }

  /** How long a request took and what it cost at the memory port. */
  datatype Tally = Tally(cycles: nat, writeBacks: nat, fills: nat)

  /** Hold `r` until it is answered; `wait` is what remains of the outstanding transfer's latency. */
  function Serve(sys: System, r: Request, wait: nat, evictLatency: nat, fillLatency: nat, junk: nat -> Line): Tally
    requires Inv(sys) && Serving(sys, r)
    decreases Stage(sys.cache, r), wait
  {
    var i := Drive(sys, r, wait, junk);
    var o := Output(sys.cache, i);
    StageDrops(sys, i);
    StepKeepsInv(sys, i);
    var sys' := SysStep(sys, i);
    if o.memResp then Tally(1, 0, 0)
    else
      var wait' := if sys.cache.ctrl == sys'.cache.ctrl then (if wait == 0 then 0 else wait - 1)
                   else if sys'.cache.ctrl.MissDirty? then evictLatency else fillLatency;
      var rest := Serve(sys', r, wait', evictLatency, fillLatency, junk);
      Tally(rest.cycles + 1,
            rest.writeBacks + (if o.pmemWrite && i.pmemResp then 1 else 0),
            rest.fills + (if o.pmemRead && i.pmemResp then 1 else 0))
  }

  /** Memory latencies of a request, and what the memory drives before it answers. */
  datatype Latencies = Latencies(evict: nat, fill: nat, junk: nat -> Line)

  predicate Costs(sys: System, r: Request, wait: nat, l: Latencies, t: Tally)
    requires Inv(sys) && Serving(sys, r)
  {
    Serve(sys, r, wait, l.evict, l.fill, l.junk) == t
  }

  lemma ServeAnswered(sys: System, r: Request, wait: nat, l: Latencies)
    requires Inv(sys) == true && Serving(sys, r) == true && Stage(sys.cache, r) == 0
    ensures Costs(sys, r, wait, l, Tally(1, 0, 0)) == true
  {
  }

  /** One cycle of a transfer: it goes on waiting, or is answered and the controller moves on. */
  lemma ServeCycle(sys: System, r: Request, wait: nat, l: Latencies, t: Tally) returns (next: System)
    requires Inv(sys) && Serving(sys, r) && !sys.cache.ctrl.Hit?
    ensures Inv(next) == true && Serving(next, r) == true
    ensures next.cache.ctrl == if wait > 0 then sys.cache.ctrl else if sys.cache.ctrl.MissDirty? then MissClean else Hit
    ensures next.cache.ctrl.Hit? ==> Stage(next.cache, r) == 0
    ensures Costs(next, r, if wait > 0 then wait - 1 else l.fill, l, t) ==>
              Costs(sys, r, wait, l,
                    Tally(t.cycles + 1,
                          t.writeBacks + (if wait == 0 && sys.cache.ctrl.MissDirty? then 1 else 0),
                          t.fills + (if wait == 0 && sys.cache.ctrl.MissClean? then 1 else 0))) == true
  {
    var i := Drive(sys, r, wait, l.junk);
    StageDrops(sys, i);
    StepKeepsInv(sys, i);
    next := SysStep(sys, i);
  }

  /** A fill in flight: the rest of its latency, the answer, and the hit. */
  lemma {:induction false} ServeFill(sys: System, r: Request, wait: nat, l: Latencies)
    requires Inv(sys) == true && Serving(sys, r) == true && sys.cache.ctrl.MissClean?
    ensures Costs(sys, r, wait, l, Tally(wait + 2, 0, 1)) == true
    decreases wait
  {
    if wait > 0 {
      var next := ServeCycle(sys, r, wait, l, Tally(wait + 1, 0, 1));
      ServeFill(next, r, wait - 1, l);
    } else {
      var next := ServeCycle(sys, r, wait, l, Tally(1, 0, 0));
      ServeAnswered(next, r, l.fill, l);
    }
  }

  /** A write-back in flight is followed by the fill. */
  lemma {:induction false} ServeEvict(sys: System, r: Request, wait: nat, l: Latencies)
    requires Inv(sys) == true && Serving(sys, r) == true && sys.cache.ctrl.MissDirty?
    ensures Costs(sys, r, wait, l, Tally(wait + l.fill + 3, 1, 1)) == true
    decreases wait
  {
    if wait > 0 {
      var next := ServeCycle(sys, r, wait, l, Tally(wait + l.fill + 2, 1, 1));
      ServeEvict(next, r, wait - 1, l);
    } else {
      var next := ServeCycle(sys, r, wait, l, Tally(l.fill + 2, 0, 1));
      ServeFill(next, r, l.fill, l);
    }
  }

  /** For every memory latency: one cycle on a hit, one fill on a clean miss, one write-back more on a dirty one. */
  lemma RequestCompletes(sys: System, r: Request, wait: nat, evictLatency: nat, fillLatency: nat, junk: nat -> Line)
    requires Inv(sys) && Serving(sys, r) && sys.cache.ctrl.Hit?
    ensures Serve(sys, r, wait, evictLatency, fillLatency, junk) ==
              match Stage(sys.cache, r)
              case 0 => Tally(1, 0, 0)
              case 2 => Tally(fillLatency + 3, 0, 1)
              case _ => Tally(evictLatency + fillLatency + 4, 1, 1)
  {
    var i, l := Drive(sys, r, wait, junk), Latencies(evictLatency, fillLatency, junk);
    var sys' := SysStep(sys, i);
    StageDrops(sys, i);
    StepKeepsInv(sys, i);
    if Stage(sys.cache, r) == 2 {
      ServeFill(sys', r, fillLatency, l);
    } else if Stage(sys.cache, r) == 3 {
      ServeEvict(sys', r, evictLatency, l);
    }
  }

  // ---- the promise the requester makes, and one it need not make ----

  /** A request, its fill waiting, a cycle in which the fill is answered with the request changed to `last`,
      and the request again. */
  function Disturbed(ask: Inputs, last: Inputs, junk: Line, k: nat): Inputs
    requires k < 4
  {
    match k
    case 0 => ask.(pmemResp := false)
    case 1 => ask.(pmemResp := false, pmemRdata := junk)
    case 2 => last.(pmemResp := true)
    case _ => ask
  }

  function AfterThree(c: CacheState, ask: Inputs, last: Inputs, junk: Line): CacheState {
    Step(Step(Step(c, Disturbed(ask, last, junk, 0)), Disturbed(ask, last, junk, 1)), Disturbed(ask, last, junk, 2))
  }

  /** A request withdrawn, or moved to another set, in the cycle that ends its fill leaves whatever was on
      the memory bus before in the cache, as a valid clean line. */
  lemma WithdrawnRequestCorrupts(c: CacheState, ask: Inputs, last: Inputs, junk: Line)
    requires IsReset(c) && ask.Active()
    requires !last.Active() || last.addr.index != ask.addr.index
    ensures var c3 := AfterThree(c, ask, last, junk);
            && Output(c3, ask).memResp
            && Output(c3, ask).memRdata == LineWord(junk, Lane(ask.addr))
  {
    var k := ask.addr.index;
    var c1 := Step(c, Disturbed(ask, last, junk, 0));
    var c2 := Step(c1, Disturbed(ask, last, junk, 1));
    var c3 := Step(c2, Disturbed(ask, last, junk, 2));
    assert c1 == c.(ctrl := MissClean);
    assert c2.sets[k].ways[3] == Way(true, false, ask.addr.tag, junk);
    assert forall w: WayNo :: w < 3 ==> !c2.sets[k].ways[w].valid;
    assert c3.ctrl == Hit && c3.sets[k] == c2.sets[k];
    assert Hits(c3.sets[k].ways[3], ask.addr.tag);
  }

  /** With read and write both asserted cache and shadow memory agree that it is a read: the answer is the
      word a program sees, and nothing is written. */
  lemma ReadWinsOverWrite(sys: System, i: Inputs, errcount: nat)
    requires Inv(sys) && Legal(sys, i) && i.read && i.write && Output(sys.cache, i).memResp
    ensures CheckOne(Checker(Abs(sys), errcount), i.read, i.addr, i.wdata, i.be, Output(sys.cache, i).memRdata)
            == Checker(Abs(SysStep(sys, i)), errcount)
    ensures Output(sys.cache, i).memRdata == ReadWord(Abs(sys), i.addr)
    ensures Abs(SysStep(sys, i)) == Abs(sys)
  {
    StepAbs(sys, i);
    StepReads(sys, i);
  }
}
