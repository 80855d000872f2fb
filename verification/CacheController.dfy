/**
 python/cache_cntrl_4.sv, signal by signal: the void functions and case arms overwrite the output
 signals in the order of the source.  Contracts say which arrays are loaded with what, in terms of the
 hit flags and the PLRU bits only.  The read strobes, constant 1 in the source, are left out.
 */
module CacheController {
  import opened CacheSpec

  /** write_sel_way_N: 2'b00, 2'b01 and 2'b10. */
  datatype WriteSel = Keep | FillLine | ByteEnabled
  type WriteSels = s: seq<WriteSel> | |s| == 4 witness [Keep, Keep, Keep, Keep]

  datatype Signals = Signals(
    whichTag: WayNo, newAddressSel: bool, cachelineSel: WayNo,
    validIn: Flags, validLoad: Flags, dirtyIn: Flags, dirtyLoad: Flags, tagLoad: Flags,
    plruIn: PlruBits, plruLoad: bool,
    writeSel: WriteSels, writeReadSel: Flags,
    pmemRead: bool, pmemWrite: bool, done: bool)

  const NONE: Flags := [false, false, false, false]
  const KEEP_ALL: WriteSels := [Keep, Keep, Keep, Keep]

  predicate Any(f: Flags) { f[0] || f[1] || f[2] || f[3] }

  function First(f: Flags): WayNo {
    if f[0] then 0 else if f[1] then 1 else if f[2] then 2 else 3
  }

  /** No register of the cache changes at this edge. */
  predicate NoLoads(s: Signals) {
    !s.plruLoad && s.dirtyLoad == NONE && s.tagLoad == NONE && s.validLoad == NONE && s.writeSel == KEEP_ALL
  }

  /** What the case arm for `hit` commands. */
  predicate HitArm(read: bool, write: bool, hits: Flags, plru: PlruBits, s: Signals) {
    && !s.pmemRead && !s.pmemWrite && !s.newAddressSel
    && (s.done <==> (read || write) && Any(hits))
    && s.cachelineSel == (if s.done then First(hits) else 0)
    && (!s.done ==> NoLoads(s))
    && (s.done ==>
          && s.plruLoad && s.plruIn == TouchHits(plru, hits)
          && s.tagLoad == NONE && s.validLoad == NONE
          && (read ==> s.dirtyLoad == NONE && s.writeSel == KEEP_ALL)
          && (!read ==>
                && s.dirtyLoad == NONE[First(hits) := true] && s.dirtyIn[First(hits)]
                && s.writeSel == KEEP_ALL[First(hits) := ByteEnabled]
                && s.writeReadSel[First(hits)]))
  }

  /** What the case arm for `miss_clean` commands: the victim is filled from memory every cycle. */
  predicate FillArm(read: bool, write: bool, victim: WayNo, s: Signals) {
    && s.pmemRead && !s.pmemWrite && !s.newAddressSel && !s.done
    && s.cachelineSel == (if read || write then victim else 0)
    && !s.plruLoad && s.dirtyLoad == NONE
    && (!(read || write) ==> NoLoads(s))
    && (read || write ==>
          && s.tagLoad == NONE[victim := true]
          && s.validLoad == NONE[victim := true] && s.validIn[victim]
          && s.writeSel == KEEP_ALL[victim := FillLine] && !s.writeReadSel[victim])
  }

  /** What the case arm for `miss_dirty` commands: the victim's dirty bit is cleared every cycle. */
  predicate EvictArm(victim: WayNo, s: Signals) {
    && s.pmemWrite && !s.pmemRead && s.newAddressSel && !s.done
    && s.cachelineSel == victim
    && !s.plruLoad && s.tagLoad == NONE && s.validLoad == NONE && s.writeSel == KEEP_ALL
    && s.dirtyLoad == NONE[victim := true] && !s.dirtyIn[victim]
  }

  class Controller {
    var currState: CtrlState
    var nextState: CtrlState
    var sig: Signals
    var replaceWhichWay: WayNo
    var dirty: bool

    constructor ()
      ensures currState == Hit
    {
      currState, nextState := Hit, Hit;
      replaceWhichWay, dirty := 0, false;
      sig := Signals(0, false, 0, NONE, NONE, NONE, NONE, NONE, [false, false, false], false,
                     KEEP_ALL, NONE, false, false, false);
    }

    method LoadPlru(plruOut: PlruBits, h: Flags)
      modifies this`sig
      ensures sig == old(sig).(plruIn := TouchHits(plruOut, h))
    {
      var p := plruOut;
      if h[0] {
        p := p[1 := false];
        p := p[0 := false];
      }
      if h[1] {
        p := p[1 := false];
        p := p[0 := true];
      }
      if h[2] {
        p := p[1 := true];
        p := p[2 := false];
      }
      if h[3] {
        p := p[1 := true];
        p := p[2 := true];
      }
      sig := sig.(plruIn := p);
    }

    method WhichDirty(replace: WayNo, d: Flags)
      modifies this`dirty
      ensures dirty == d[replace]
    {
      match replace
      case 0 => dirty := d[0];
      case 1 => dirty := d[1];
      case 2 => dirty := d[2];
      case _ => dirty := d[3];
    }

    /** Everything but which_tag and DirtyN_in, which the source leaves latched. */
    method SetDefaults()
      modifies this`sig
      ensures NoLoads(sig) && sig.cachelineSel == 0 && sig.writeReadSel == NONE
      ensures !sig.pmemRead && !sig.pmemWrite && !sig.newAddressSel && !sig.done
      ensures sig.whichTag == old(sig.whichTag)
    {
      sig := sig.(cachelineSel := 0);
      sig := sig.(validIn := NONE);
      sig := sig.(plruIn := [false, false, false], plruLoad := false);
      sig := sig.(dirtyLoad := NONE);
      sig := sig.(tagLoad := NONE);
      sig := sig.(validLoad := NONE);
      sig := sig.(writeSel := KEEP_ALL);
      sig := sig.(pmemRead := false, pmemWrite := false, newAddressSel := false, done := false);
      sig := sig.(writeReadSel := NONE);
    }

    method WhichReplace(plru: PlruBits)
      modifies this`sig, this`replaceWhichWay
      ensures replaceWhichWay == Victim(plru)
      ensures sig == old(sig).(whichTag := Victim(plru))
    {
      var temp := [!plru[0], !plru[1], !plru[2]];
      if !temp[1] {
        if !temp[0] {
          replaceWhichWay := 0;
          sig := sig.(whichTag := 0);
        }
      }
      if !temp[1] {
        if temp[0] {
          replaceWhichWay := 1;
          sig := sig.(whichTag := 1);
        }
      }
      if temp[1] {
        if !temp[2] {
          replaceWhichWay := 2;
          sig := sig.(whichTag := 2);
        }
      }
      if temp[1] {
        if temp[2] {
          replaceWhichWay := 3;
          sig := sig.(whichTag := 3);
        }
      }
    }

    /** Dirty bit, write enable and data select of the way being written. */
    method CommandWrite(way: WayNo)
      modifies this`sig
      ensures sig == old(sig).(cachelineSel := way,
                               dirtyIn := old(sig).dirtyIn[way := true],
                               dirtyLoad := old(sig).dirtyLoad[way := true],
                               writeReadSel := old(sig).writeReadSel[way := true],
                               writeSel := old(sig).writeSel[way := ByteEnabled])
    {
      sig := sig.(cachelineSel := way);
      sig := sig.(dirtyIn := sig.dirtyIn[way := true]);
      sig := sig.(dirtyLoad := sig.dirtyLoad[way := true]);
      sig := sig.(writeReadSel := sig.writeReadSel[way := true]);
      sig := sig.(writeSel := sig.writeSel[way := ByteEnabled]);
    }

    method CommandFill(way: WayNo)
      modifies this`sig
      ensures sig == old(sig).(tagLoad := old(sig).tagLoad[way := true],
                               validLoad := old(sig).validLoad[way := true],
                               validIn := old(sig).validIn[way := true],
                               writeSel := old(sig).writeSel[way := FillLine])
    {
      sig := sig.(tagLoad := sig.tagLoad[way := true]);
      sig := sig.(validLoad := sig.validLoad[way := true]);
      sig := sig.(validIn := sig.validIn[way := true]);
      sig := sig.(writeSel := sig.writeSel[way := FillLine]);
    }

    method CommandClean(way: WayNo)
      modifies this`sig
      ensures sig == old(sig).(dirtyIn := old(sig).dirtyIn[way := false],
                               dirtyLoad := old(sig).dirtyLoad[way := true])
    {
      sig := sig.(dirtyIn := sig.dirtyIn[way := false]);
      sig := sig.(dirtyLoad := sig.dirtyLoad[way := true]);
    }

    /** The `hit` arm, entered with the defaults in place. */
    method DriveHit(read: bool, write: bool, hits: Flags, plruOut: PlruBits)
      requires NoLoads(sig) && sig.cachelineSel == 0
      requires !sig.pmemRead && !sig.pmemWrite && !sig.newAddressSel && !sig.done
      modifies this`sig
      ensures HitArm(read, write, hits, plruOut, sig)
      ensures sig.whichTag == old(sig.whichTag)
    {
      if !(read || write) {
        SetDefaults();
      } else if Any(hits) {
        sig := sig.(plruLoad := true);
        LoadPlru(plruOut, hits);
        if read {
          if hits[0] { sig := sig.(cachelineSel := 0); }
          else if hits[1] { sig := sig.(cachelineSel := 1); }
          else if hits[2] { sig := sig.(cachelineSel := 2); }
          else if hits[3] { sig := sig.(cachelineSel := 3); }
        } else if write {
          if hits[0] { CommandWrite(0); }
          else if hits[1] { CommandWrite(1); }
          else if hits[2] { CommandWrite(2); }
          else if hits[3] { CommandWrite(3); }
        }
        sig := sig.(done := true);
      }
    }

    /** First always_comb block: the output signals of this cycle. */
    method Drive(read: bool, write: bool, hits: Flags, dirtyOut: Flags, plruOut: PlruBits)
      modifies this`sig, this`replaceWhichWay, this`dirty
      ensures replaceWhichWay == Victim(plruOut) && dirty == dirtyOut[Victim(plruOut)]
      ensures sig.whichTag == Victim(plruOut)
      ensures currState.Hit? ==> HitArm(read, write, hits, plruOut, sig)
      ensures currState.MissClean? ==> FillArm(read, write, Victim(plruOut), sig)
      ensures currState.MissDirty? ==> EvictArm(Victim(plruOut), sig)
    {
      SetDefaults();
      WhichReplace(plruOut);
      WhichDirty(replaceWhichWay, dirtyOut);
      match currState {
        case Hit =>
          DriveHit(read, write, hits, plruOut);
        case MissClean =>
          sig := sig.(pmemRead := true);
          if read {
            sig := sig.(cachelineSel := replaceWhichWay);
            CommandFill(replaceWhichWay);
          } else if write {
            sig := sig.(cachelineSel := replaceWhichWay);
            CommandFill(replaceWhichWay);
          }
        case MissDirty =>
          sig := sig.(pmemWrite := true);
          sig := sig.(newAddressSel := true);
          sig := sig.(cachelineSel := replaceWhichWay);
          CommandClean(replaceWhichWay);
      }
    }

    /** Second always_comb block. */
    method DecideNext(read: bool, write: bool, hits: Flags, memResp: bool)
      modifies this`nextState
      ensures nextState ==
        match currState
        case Hit => if (read || write) && !Any(hits) then (if dirty then MissDirty else MissClean) else Hit
        case MissDirty => if memResp then MissClean else MissDirty
        case MissClean => if memResp then Hit else MissClean
    {
      nextState := currState;
      match currState {
        case Hit =>
          if read || write {
            if Any(hits) {
              nextState := Hit;
            } else if !Any(hits) && !dirty {
              nextState := MissClean;
            } else if !Any(hits) && dirty {
              nextState := MissDirty;
            }
          }
        case MissDirty =>
          if !memResp { nextState := MissDirty; } else { nextState := MissClean; }
        case MissClean =>
          if !memResp { nextState := MissClean; } else { nextState := Hit; }
      }
    }

    /** The state register. */
    method Clock(rst: bool)
      modifies this`currState
      ensures currState == if rst then Hit else nextState
    {
      if rst { currState := Hit; } else { currState := nextState; }
    }
  }
}
