/**
 The PLRU bits and dirty bits of the cache along a run: hits and fills load exactly what the generated policy
 loads, so its guarantees hold of the cache, and only completed writes leave dirty lines.
 */
module CacheReplacement {
  import opened Wrappers
  import opened FlatMemory
  import opened CacheSpec
  import opened CacheRefinement
  import G = GeneratedPlru
  import P = Plru
  import opened Arithmetic

  // ---- one cycle ----

  function OnlyHit(w: WayNo): Flags { [w == 0, w == 1, w == 2, w == 3] }

  /** With one way hitting the controller loads what the generated policy loads, with none it keeps the bits. */
  lemma OneHitLoads(p: PlruBits, w: WayNo)
    ensures Pow2(2) == 4 && TouchHits(p, OnlyHit(w)) == G.Load(2, p, w)
    ensures TouchHits(p, [false, false, false, false]) == p
  {
    G.FourWayLoad(p, w);
  }

  /** Distinct tags: the first hit is the only one. */
  lemma OneWayHits(sys: System, s: SetNo, t: Tag)
    requires Inv(sys) && AnyHit(sys.cache.sets[s], t)
    ensures HitFlags(sys.cache.sets[s], t) == OnlyHit(FirstHit(sys.cache.sets[s], t))
  {
    var cs := sys.cache.sets[s];
    assert SetInv(cs, PhaseOf(sys, s), sys.mem, s);
  }

  /** The way that answers in this cycle. */
  function Served(sys: System, i: Inputs): WayNo
    requires Output(sys.cache, i).memResp
  {
    FirstHit(sys.cache.sets[i.addr.index], i.addr.tag)
  }

  lemma HitsTouch(c: CacheState, i: Inputs, s: SetNo)
    ensures Step(c, i).sets[s].plru ==
            if Output(c, i).memResp && i.addr.index == s then TouchHits(c.sets[s].plru, HitFlags(c.sets[s], i.addr.tag))
            else c.sets[s].plru
  {
  }

  /** An answer loads the way it came from into the PLRU bits of its set; nothing else changes them. */
  lemma PlruStep(sys: System, i: Inputs, s: SetNo)
    requires Inv(sys) && Legal(sys, i)
    ensures Pow2(2) == 4
    ensures SysStep(sys, i).cache.sets[s].plru ==
            var p := sys.cache.sets[s].plru;
            if Output(sys.cache, i).memResp && i.addr.index == s then G.Load(2, p, Served(sys, i)) else p
  {
    hide Inv, Legal, Step, TouchHits, HitFlags, FirstHit, G.Load, Pow2;
    OneHitLoads(sys.cache.sets[s].plru, 0);
    HitsTouch(sys.cache, i, s);
    if Output(sys.cache, i).memResp && i.addr.index == s {
      OneWayHits(sys, s, i.addr.tag);
      OneHitLoads(sys.cache.sets[s].plru, Served(sys, i));
    }
  }

  // ---- runs ----

  /** The ways of set s that answered, in order. */
  function ServedWays(sys: System, inputs: seq<Inputs>, s: SetNo): (ws: seq<nat>)
    ensures forall j :: 0 <= j < |ws| ==> ws[j] < 4
    decreases |inputs|
  {
    if inputs == [] then []
    else
      var i, rest := inputs[0], ServedWays(SysStep(sys, inputs[0]), inputs[1..], s);
      if Output(sys.cache, i).memResp && i.addr.index == s then [Served(sys, i)] + rest else rest
  }

  /** The bits of a set after a run are the generated updates of the ways that answered. */
  lemma {:induction false} PlruOfRun(sys: System, inputs: seq<Inputs>, s: SetNo)
    requires Inv(sys) && LegalRun(sys, inputs)
    ensures Pow2(2) == 4
    ensures Run(sys, inputs).cache.sets[s].plru == G.LoadAll(2, sys.cache.sets[s].plru, ServedWays(sys, inputs, s))
    decreases |inputs|
  {
    hide Inv, Legal, SysStep, Output, Served, G.Load, Pow2;
    FourWays();
    if inputs != [] {
      PlruStep(sys, inputs[0], s);
      StepKeepsInv(sys, inputs[0]);
      PlruOfRun(SysStep(sys, inputs[0]), inputs[1..], s);
    }
  }

  lemma FourWays()
    ensures Pow2(2) == 4
  {
    assert Pow2(1) == 2;
  }

  /** A way that just answered is not the one to replace before two answers from other ways of its set. */
  lemma AnswerProtects(sys: System, i: Inputs, inputs: seq<Inputs>)
    requires Inv(sys) && LegalRun(sys, [i] + inputs) && Output(sys.cache, i).memResp
    requires Victim(Run(sys, [i] + inputs).cache.sets[i.addr.index].plru) == Served(sys, i)
    ensures P.Others(ServedWays(SysStep(sys, i), inputs, i.addr.index), Served(sys, i)) >= 2
  {
    var s, next := i.addr.index, SysStep(sys, i);
    assert ([i] + inputs)[0] == i && ([i] + inputs)[1..] == inputs;
    FourWays();
    PlruStep(sys, i, s);
    StepKeepsInv(sys, i);
    PlruOfRun(next, inputs, s);
    G.FourWayReplace(Run(next, inputs).cache.sets[s].plru);
    G.HitProtects(2, sys.cache.sets[s].plru, Served(sys, i), ServedWays(next, inputs, s));
  }

  // ---- replacement in turn ----

  /** Once filled, a waiting request hits the way that was replaced for it. */
  predicate FilledVictim(sys: System) {
    sys.pending.Some? && sys.cache.ctrl.Hit? ==>
      var cs := sys.cache.sets[sys.pending.value.index];
      Hits(cs.ways[Victim(cs.plru)], sys.pending.value.tag)
  }

  lemma FilledVictimStep(sys: System, i: Inputs)
    requires Inv(sys) && Legal(sys, i) && FilledVictim(sys)
    ensures FilledVictim(SysStep(sys, i))
  {
  }

  /** A request answered after a miss is served by the way to replace. */
  lemma ServedAfterMiss(sys: System, i: Inputs)
    requires Inv(sys) && Legal(sys, i) && FilledVictim(sys)
    requires sys.pending.Some? && Output(sys.cache, i).memResp
    ensures Served(sys, i) == Victim(sys.cache.sets[i.addr.index].plru)
  {
    assert SetInv(sys.cache.sets[i.addr.index], PhaseOf(sys, i.addr.index), sys.mem, i.addr.index);
  }

  /** Every request that set s answers in the run had missed. */
  predicate EachMissed(sys: System, inputs: seq<Inputs>, s: SetNo)
    decreases |inputs|
  {
    inputs != [] ==>
      && (Output(sys.cache, inputs[0]).memResp && inputs[0].addr.index == s ==> sys.pending.Some?)
      && EachMissed(SysStep(sys, inputs[0]), inputs[1..], s)
  }

  /** The ways that replacing the victim n times over takes. */
  function InTurn(p: PlruBits, n: nat): (ws: seq<nat>)
    ensures |ws| == n
    decreases n
  {
    if n == 0 then [] else [Victim(p) as nat] + InTurn(Touch(p, Victim(p)), n - 1)
  }

  lemma {:induction false} MissesInTurn(sys: System, inputs: seq<Inputs>, s: SetNo)
    requires Inv(sys) && FilledVictim(sys) && LegalRun(sys, inputs) && EachMissed(sys, inputs, s)
    ensures var ws := ServedWays(sys, inputs, s); ws == InTurn(sys.cache.sets[s].plru, |ws|)
    decreases |inputs|
  {
    hide Inv, Legal, SysStep, Output, Served, FilledVictim, G.Load, Pow2, Victim, Touch;
    if inputs != [] {
      var i := inputs[0];
      FourWays();
      PlruStep(sys, i, s);
      StepKeepsInv(sys, i);
      FilledVictimStep(sys, i);
      MissesInTurn(SysStep(sys, i), inputs[1..], s);
      if Output(sys.cache, i).memResp && i.addr.index == s {
        ServedAfterMiss(sys, i);
        G.FourWayLoad(sys.cache.sets[s].plru, Served(sys, i));
      }
    }
  }

  lemma {:induction false} InTurnIsRounds(p: PlruBits, n: nat, j: nat)
    requires j < n
    ensures Pow2(2) == 4 && InTurn(p, n)[j] == G.Replace(2, G.Rounds(2, p, j))
    decreases n
  {
    FourWays();
    G.FourWayReplace(p);
    if j > 0 {
      G.FourWayLoad(p, Victim(p));
      InTurnIsRounds(Touch(p, Victim(p)), n - 1, j - 1);
      RoundsCons(p, j);
    }
  }

  lemma {:induction false} RoundsCons(p: PlruBits, j: nat)
    requires j > 0
    ensures Pow2(2) == 4 && G.Rounds(2, p, j) == G.Rounds(2, Touch(p, Victim(p)), j - 1)
  {
    FourWays();
    G.FourWayReplace(p);
    G.FourWayLoad(p, Victim(p));
    if j > 1 {
      RoundsCons(p, j - 1);
    }
  }

  /** Of up to four misses in a row that a set answers no two take the same way, and after four the bits are back. */
  lemma MissesTakeTurns(sys: System, inputs: seq<Inputs>, s: SetNo)
    requires Inv(sys) && FilledVictim(sys) && LegalRun(sys, inputs) && EachMissed(sys, inputs, s)
    requires |ServedWays(sys, inputs, s)| <= 4
    ensures var ws := ServedWays(sys, inputs, s);
            && (forall j, l :: 0 <= j < l < |ws| ==> ws[j] != ws[l])
            && (|ws| == 4 ==> Run(sys, inputs).cache.sets[s].plru == sys.cache.sets[s].plru)
  {
    var p, ws := sys.cache.sets[s].plru, ServedWays(sys, inputs, s);
    FourWays();
    MissesInTurn(sys, inputs, s);
    G.RoundRobin(2, p);
    forall j | 0 <= j < |ws|
      ensures ws[j] == G.Replace(2, G.Rounds(2, p, j)) && ws[j] < 4
    {
      InTurnIsRounds(p, |ws|, j);
    }
    forall j, l | 0 <= j < l < |ws|
      ensures ws[j] != ws[l]
    {
      assert j == P.RoundOf(P.Unflatten(p, 2), 2, ws[j]);
      assert l == P.RoundOf(P.Unflatten(p, 2), 2, ws[l]);
    }
    PlruOfRun(sys, inputs, s);
    LoadsInTurn(p, |ws|);
  }

  lemma {:induction false} LoadsInTurn(p: PlruBits, n: nat)
    ensures Pow2(2) == 4 && (forall j :: 0 <= j < n ==> InTurn(p, n)[j] < 4)
    ensures G.LoadAll(2, p, InTurn(p, n)) == G.Rounds(2, p, n)
    decreases n
  {
    FourWays();
    if n > 0 {
      var next := Touch(p, Victim(p));
      G.FourWayLoad(p, Victim(p));
      LoadsInTurn(next, n - 1);
      assert InTurn(p, n)[1..] == InTurn(next, n - 1);
      RoundsCons(p, n);
    }
  }

  // ---- dirty lines ----

  ghost predicate HasDirty(sys: System, s: SetNo, t: Tag) {
    exists w: WayNo :: sys.cache.sets[s].ways[w].dirty && sys.cache.sets[s].ways[w].tag == t
  }

  predicate WritesLine(a: Answer, s: SetNo, t: Tag) { !a.req.read && a.req.addr.index == s && a.req.addr.tag == t }

  /** A line becomes dirty only by a completed write to it. */
  lemma DirtyStep(sys: System, i: Inputs, s: SetNo, t: Tag)
    requires Inv(sys) && Legal(sys, i) && HasDirty(SysStep(sys, i), s, t)
    ensures HasDirty(sys, s, t) ||
            (Output(sys.cache, i).memResp && WritesLine(Answer(RequestOf(i), Output(sys.cache, i).memRdata), s, t))
  {
    var cs, cs' := sys.cache.sets[s], SysStep(sys, i).cache.sets[s];
    var w: WayNo :| cs'.ways[w].dirty && cs'.ways[w].tag == t;
    assert SetInv(cs, PhaseOf(sys, s), sys.mem, s);
    if cs.ways[w].dirty && cs.ways[w].tag == t {
      assert HasDirty(sys, s, t);
    }
  }

  /** From reset, every dirty line was written by an answered request: reading never makes work for a later eviction. */
  lemma {:induction false} DirtyMeansWritten(sys: System, inputs: seq<Inputs>, s: SetNo, t: Tag)
    requires Inv(sys) && LegalRun(sys, inputs) && HasDirty(Run(sys, inputs), s, t)
    ensures HasDirty(sys, s, t) || exists a :: a in Answers(sys, inputs) && WritesLine(a, s, t)
    decreases |inputs|
  {
    hide Inv, Legal, SysStep, Output, HasDirty, WritesLine;
    if inputs != [] {
      var i, next := inputs[0], SysStep(sys, inputs[0]);
      StepKeepsInv(sys, i);
      DirtyMeansWritten(next, inputs[1..], s, t);
      if HasDirty(next, s, t) {
        DirtyStep(sys, i, s, t);
      }
      assert forall a :: a in Answers(next, inputs[1..]) ==> a in Answers(sys, inputs);
    }
  }
}
