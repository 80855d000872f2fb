/**
 python/cache_4_way.sv: controller and datapath wired together.  One call of `Cycle` is one clock
 period: the wires settle from the registers and the inputs, the outputs are sampled, the edge loads
 the registers.  The registers refine CacheSpec.Step and the outputs are CacheSpec.Output.
 */
module Cache {
  import opened FlatMemory
  import opened CacheSpec
  import opened CacheController
  import opened CacheDatapath

  /** The signals a legal `Drive` may produce for the addressed set, whatever the controller state. */
  predicate Driven(ctrl: CtrlState, cs: CacheSet, i: Inputs, s: Signals) {
    && s.whichTag == Victim(cs.plru)
    && match ctrl
       case Hit => HitArm(i.read, i.write, HitFlags(cs, i.addr.tag), cs.plru, s)
       case MissClean => FillArm(i.read, i.write, Victim(cs.plru), s)
       case MissDirty => EvictArm(Victim(cs.plru), s)
  }

  lemma FirstOfHits(cs: CacheSet, t: Tag)
    ensures Any(HitFlags(cs, t)) == AnyHit(cs, t)
    ensures AnyHit(cs, t) ==> First(HitFlags(cs, t)) == FirstHit(cs, t)
  {
  }

  /** Way `w` of the addressed set after the edge, from the signals. */
  function WayAfter(cs: CacheSet, w: WayNo, i: Inputs, s: Signals): Way {
    LoadedWay(cs.ways[w], i.addr.tag, w, s, Replicate(i.wdata), WordEnables(Lane(i.addr), i.be), i.pmemRdata)
  }

  /** Each way of the addressed set is loaded as the set-level step says. */
  lemma LoadsMakeStep(ctrl: CtrlState, cs: CacheSet, i: Inputs, s: Signals, w: WayNo)
    requires Driven(ctrl, cs, i, s)
    ensures WayAfter(cs, w, i, s) == SetAfter(ctrl, cs, i).ways[w]
  {
    LanesKept(cs.ways[w].data, i.pmemRdata);
    LanesKept(cs.ways[w].data, Replicate(i.wdata));
    if ctrl.Hit? {
      FirstOfHits(cs, i.addr.tag);
      AdapterWrites(cs.ways[w].data, Lane(i.addr), i.wdata, i.be);
    }
  }

  lemma SetEdge(ctrl: CtrlState, cs: CacheSet, cs': CacheSet, i: Inputs, s: Signals)
    requires Driven(ctrl, cs, i, s)
    requires forall w: WayNo :: cs'.ways[w] == WayAfter(cs, w, i, s)
    requires cs'.plru == if s.plruLoad then s.plruIn else cs.plru
    ensures cs' == SetAfter(ctrl, cs, i)
  {
    FirstOfHits(cs, i.addr.tag);
    forall w: WayNo
      ensures cs'.ways[w] == SetAfter(ctrl, cs, i).ways[w]
    {
      LoadsMakeStep(ctrl, cs, i, s, w);
    }
    assert cs'.ways == SetAfter(ctrl, cs, i).ways;
  }

  /** Arrays loaded set by set and way by way as the signals say hold the stepped state. */
  lemma EdgeIsStep(c: CacheState, sets': Sets, i: Inputs, s: Signals)
    requires var k := i.addr.index;
      && Driven(c.ctrl, c.sets[k], i, s)
      && (forall w: WayNo :: sets'[k].ways[w] == WayAfter(c.sets[k], w, i, s))
      && sets'[k].plru == (if s.plruLoad then s.plruIn else c.sets[k].plru)
      && (forall j: SetNo :: j != k ==> sets'[j] == c.sets[j])
    ensures sets' == Step(c, i).sets
  {
    var k := i.addr.index;
    SetEdge(c.ctrl, c.sets[k], sets'[k], i, s);
  }

  lemma OutputsMatch(c: CacheState, i: Inputs, s: Signals)
    requires Driven(c.ctrl, c.sets[i.addr.index], i, s)
    ensures var o := Output(c, i);
            && o.memResp == s.done && o.pmemRead == s.pmemRead && o.pmemWrite == s.pmemWrite
            && SelectedWay(c, i) == s.cachelineSel
            && (s.newAddressSel <==> c.ctrl.MissDirty?)
  {
  }

  /** The wires of the datapath read the addressed set. */
  lemma WiresRead(d: Datapath, a: Address, w: WayNo)
    ensures d.HitLines(a) == HitFlags(d.Contents()[a.index], a.tag)
    ensures d.DirtyOut(a)[w] == d.Contents()[a.index].ways[w].dirty
    ensures d.PlruOut(a) == d.Contents()[a.index].plru
    ensures d.CachelineOut(a, w) == d.Contents()[a.index].ways[w].data
    ensures d.NewAddress(a, true, w) == LineAddress(d.Contents()[a.index].ways[w].tag, a.index)
    ensures d.NewAddress(a, false, w) == LineAddress(a.tag, a.index)
  {
  }

  class Cache {
    const control: Controller
    const datapath: Datapath

    constructor ()
      ensures fresh(control) && fresh(datapath)
    {
      control := new Controller();
      datapath := new Datapath();
    }

    ghost function View(): CacheState
      reads control, datapath
    {
      CacheState(control.currState, datapath.Contents())
    }

    /** The always_comb blocks: signals, next state and outputs of this cycle. */
    method Settle(i: Inputs) returns (o: Outputs)
      modifies control`sig, control`replaceWhichWay, control`dirty, control`nextState
      ensures o == Output(View(), i)
      ensures Driven(View().ctrl, View().sets[i.addr.index], i, control.sig)
      ensures control.nextState == CtrlAfter(View().ctrl, View().sets[i.addr.index], i)
    {
      ghost var c := View();
      ghost var cs := c.sets[i.addr.index];
      FirstOfHits(cs, i.addr.tag);
      WiresRead(datapath, i.addr, Victim(cs.plru));
      var hits := datapath.HitLines(i.addr);
      control.Drive(i.read, i.write, hits, datapath.DirtyOut(i.addr), datapath.PlruOut(i.addr));
      control.DecideNext(i.read, i.write, hits, i.pmemResp);
      var s := control.sig;
      OutputsMatch(c, i, s);
      WiresRead(datapath, i.addr, s.cachelineSel);
      var line := datapath.CachelineOut(i.addr, s.cachelineSel);
      o := Outputs(s.done, line[Lane(i.addr)..Lane(i.addr) + 4], s.pmemRead, s.pmemWrite,
                   datapath.NewAddress(i.addr, s.newAddressSel, s.whichTag), line);
    }

    method Cycle(rst: bool, i: Inputs) returns (o: Outputs)
      modifies control, datapath
      ensures o == Output(old(View()), i)
      ensures rst ==> IsReset(View())
      ensures !rst ==> View() == Step(old(View()), i)
    {
      ghost var before := View();
      o := Settle(i);
      datapath.Load(rst, i.addr, control.sig, Replicate(i.wdata), WordEnables(Lane(i.addr), i.be), i.pmemRdata);
      if !rst {
        EdgeIsStep(before, datapath.Contents(), i, control.sig);
      }
      control.Clock(rst);
    }
  }
}
