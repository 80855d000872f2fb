/**
 What one clock edge of the 4-way write-back cache does, stated on values: which way hits, which way
 is the victim, and how the addressed set changes in each controller state.  The signal-level
 controller and datapath (CacheController, CacheDatapath) are proved to refine this step.
 */
module CacheSpec {
  import opened FlatMemory

  type WayNo = w: int | 0 <= w < 4
  type Flags = s: seq<bool> | |s| == 4 witness [false, false, false, false]
  type PlruBits = s: seq<bool> | |s| == 3 witness [false, false, false]

  datatype CtrlState = Hit | MissClean | MissDirty

  datatype Way = Way(valid: bool, dirty: bool, tag: Tag, data: Line)
  type Ways = s: seq<Way> | |s| == 4 witness seq(4, _ => Way(false, false, 0, ZERO_LINE))
  datatype CacheSet = CacheSet(ways: Ways, plru: PlruBits)
  type Sets = s: seq<CacheSet> | |s| == 8
    witness seq(8, _ => CacheSet(seq(4, _ => Way(false, false, 0, ZERO_LINE)), [false, false, false]))

  /** The registers of the cache: controller state and the tag/valid/dirty/PLRU/data arrays. */
  datatype CacheState = CacheState(ctrl: CtrlState, sets: Sets)

  /** Requester and memory-port inputs sampled in one cycle. */
  datatype Inputs = Inputs(read: bool, write: bool, addr: Address, wdata: Word, be: ByteEnable,
                           pmemResp: bool, pmemRdata: Line)
  {
    predicate Active() { read || write }
  }

  /** Combinational outputs of one cycle. */
  datatype Outputs = Outputs(memResp: bool, memRdata: Word, pmemRead: bool, pmemWrite: bool,
                             pmemAddress: Address, pmemWdata: Line)

  /** {tag, index, 5'b0} */
  function LineAddress(t: Tag, s: SetNo): Address { Address(t, s, 0, 0) }

  // ---- 3-bit tree PLRU ----

  /** Walk from bit 1 to bit 0 or bit 2, always away from the stored direction. */
  function Victim(p: PlruBits): WayNo {
    if p[1] then (if p[0] then 0 else 1) else (if p[2] then 2 else 3)
  }

  /** Point the two bits on the path of way `w` at it. */
  function Touch(p: PlruBits, w: WayNo): PlruBits {
    if w < 2 then p[1 := false][0 := w == 1] else p[1 := true][2 := w == 3]
  }

  /** The hit lines are examined in order, so with several hits the last one wins shared bits. */
  function TouchHits(p: PlruBits, hits: Flags): PlruBits {
    var p1 := if hits[0] then Touch(p, 0) else p;
    var p2 := if hits[1] then Touch(p1, 1) else p1;
    var p3 := if hits[2] then Touch(p2, 2) else p2;
    if hits[3] then Touch(p3, 3) else p3
  }

  // ---- lookup ----

  predicate Hits(way: Way, t: Tag) { way.valid && way.tag == t }

  predicate AnyHit(cs: CacheSet, t: Tag) {
    exists w: WayNo :: Hits(cs.ways[w], t)
  }

  function FirstHit(cs: CacheSet, t: Tag): (w: WayNo)
    requires AnyHit(cs, t)
    ensures Hits(cs.ways[w], t)
    ensures forall v: WayNo :: v < w ==> !Hits(cs.ways[v], t)
  {
    if Hits(cs.ways[0], t) then 0
    else if Hits(cs.ways[1], t) then 1
    else if Hits(cs.ways[2], t) then 2
    else 3
  }

  function HitFlags(cs: CacheSet, t: Tag): Flags {
    [Hits(cs.ways[0], t), Hits(cs.ways[1], t), Hits(cs.ways[2], t), Hits(cs.ways[3], t)]
  }

  // ---- one clock edge ----

  function SetAfter(ctrl: CtrlState, cs: CacheSet, i: Inputs): CacheSet {
    var v := Victim(cs.plru);
    match ctrl
    case Hit =>
      if i.Active() && AnyHit(cs, i.addr.tag) then
        var h := FirstHit(cs, i.addr.tag);
        var way := cs.ways[h];
        var way' := if i.read then way
                    else way.(dirty := true, data := MergeWord(way.data, Lane(i.addr), i.wdata, i.be));
        CacheSet(cs.ways[h := way'], TouchHits(cs.plru, HitFlags(cs, i.addr.tag)))
      else cs
    case MissDirty => cs.(ways := cs.ways[v := cs.ways[v].(dirty := false)])
    case MissClean =>
      if i.Active() then
        cs.(ways := cs.ways[v := cs.ways[v].(valid := true, tag := i.addr.tag, data := i.pmemRdata)])
      else cs
  }

  function CtrlAfter(ctrl: CtrlState, cs: CacheSet, i: Inputs): CtrlState {
    match ctrl
    case Hit =>
      if i.Active() && !AnyHit(cs, i.addr.tag)
      then (if cs.ways[Victim(cs.plru)].dirty then MissDirty else MissClean)
      else Hit
    case MissDirty => if i.pmemResp then MissClean else MissDirty
    case MissClean => if i.pmemResp then Hit else MissClean
  }

  function Step(c: CacheState, i: Inputs): CacheState {
    var s := i.addr.index;
    CacheState(CtrlAfter(c.ctrl, c.sets[s], i), c.sets[s := SetAfter(c.ctrl, c.sets[s], i)])
  }

  /** After reset: controller in `hit`, nothing valid or dirty, PLRU bits zero; tags and data are free. */
  predicate IsReset(c: CacheState) {
    && c.ctrl == Hit
    && (forall s: SetNo :: c.sets[s].plru == [false, false, false])
    && (forall s: SetNo, w: WayNo :: !c.sets[s].ways[w].valid && !c.sets[s].ways[w].dirty)
  }

  // ---- outputs ----

  /** Way whose line is on cacheline_out this cycle. */
  function SelectedWay(c: CacheState, i: Inputs): WayNo {
    var cs := c.sets[i.addr.index];
    match c.ctrl
    case Hit => if i.Active() && AnyHit(cs, i.addr.tag) then FirstHit(cs, i.addr.tag) else 0
    case MissDirty => Victim(cs.plru)
    case MissClean => if i.Active() then Victim(cs.plru) else 0
  }

  function Output(c: CacheState, i: Inputs): Outputs {
    var s := i.addr.index;
    var cs := c.sets[s];
    var line := cs.ways[SelectedWay(c, i)].data;
    Outputs(
      c.ctrl.Hit? && i.Active() && AnyHit(cs, i.addr.tag),
      LineWord(line, Lane(i.addr)),
      c.ctrl.MissClean?,
      c.ctrl.MissDirty?,
      if c.ctrl.MissDirty? then LineAddress(cs.ways[Victim(cs.plru)].tag, s) else LineAddress(i.addr.tag, s),
      line)
  }
}
