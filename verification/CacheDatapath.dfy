/**
 python/cache_datapath_4.sv and python/cache_4_way.sv.  The datapath keeps one array per way for tag,
 valid, dirty and data and one PLRU array; the modules array_4_way, data_array_4_way and
 bus_adapter_4_way are not part of this model and are taken as: reads show the contents before the
 edge, loads happen at the edge, reset clears every array but the data, bytes are written under their
 enables, and a 32-bit word is replicated over the line.
 */
module CacheDatapath {
  import opened FlatMemory
  import opened CacheSpec
  import opened CacheController

  type Enables = s: seq<bool> | |s| == 32 witness seq(32, _ => false)

  /** mem_wdata256 and mem_byte_enable256. */
  function Replicate(w: Word): Line { seq(32, i requires 0 <= i < 32 => w[i % 4]) }

  function WordEnables(lane: nat, be: ByteEnable): Enables
    requires lane <= 28
  {
    seq(32, i requires 0 <= i < 32 => lane <= i < lane + 4 && be[i - lane])
  }

  /** A data-array write: enabled byte lanes of `stored` take the new line. */
  function WriteLanes(stored: Line, en: Enables, line: Line): Line {
    seq(32, i requires 0 <= i < 32 => if en[i] then line[i] else stored[i])
  }

  function WriteEnable(sel: WriteSel, be256: Enables): Enables {
    match sel
    case ByteEnabled => be256
    case FillLine => seq(32, _ => true)
    case Keep => seq(32, _ => false)
  }

  /** Bus adapter and byte enables together perform the shadow memory's byte write. */
  lemma AdapterWrites(line: Line, lane: nat, wdata: Word, be: ByteEnable)
    requires lane <= 28 && lane % 4 == 0
    ensures WriteLanes(line, WordEnables(lane, be), Replicate(wdata)) == MergeWord(line, lane, wdata, be)
  {
  }

  /** data_in_N and write_en_way_N multiplexers, and the data array's byte write. */
  function LoadedData(line: Line, w: WayNo, s: Signals, wdata256: Line, be256: Enables, cachelineIn: Line): Line {
    var dataIn := if s.writeReadSel[w] then wdata256 else cachelineIn;
    WriteLanes(line, WriteEnable(s.writeSel[w], be256), dataIn)
  }

  /** What the load signals of way `w` make of its entry in the addressed set. */
  function LoadedWay(way: Way, tag: Tag, w: WayNo, s: Signals, wdata256: Line, be256: Enables, cachelineIn: Line): Way {
    Way(if s.validLoad[w] then s.validIn[w] else way.valid,
        if s.dirtyLoad[w] then s.dirtyIn[w] else way.dirty,
        if s.tagLoad[w] then tag else way.tag,
        LoadedData(way.data, w, s, wdata256, be256, cachelineIn))
  }

  lemma LanesKept(line: Line, other: Line)
    ensures WriteLanes(line, seq(32, _ => false), other) == line
    ensures WriteLanes(line, seq(32, _ => true), other) == other
  {
  }

  type Tags = s: seq<Tag> | |s| == 8 witness seq(8, _ => 0)
  type Lines = s: seq<Line> | |s| == 8 witness seq(8, _ => ZERO_LINE)
  type SetFlags = s: seq<bool> | |s| == 8 witness seq(8, _ => false)
  type PlruArray = s: seq<PlruBits> | |s| == 8 witness seq(8, _ => [false, false, false])

  /** The tag, valid, dirty and data array instances of one way. */
  datatype WayArrays = WayArrays(tags: Tags, valid: SetFlags, dirty: SetFlags, data: Lines)
  {
    function At(s: SetNo): Way { Way(valid[s], dirty[s], tags[s], data[s]) }

    /** A clock edge: each array loads entry `k` if told to. */
    function Loaded(k: SetNo, tag: Tag, w: WayNo, s: Signals, wdata256: Line, be256: Enables, cachelineIn: Line): (r: WayArrays)
      ensures forall j: SetNo ::
        r.At(j) == (if j == k then LoadedWay(At(j), tag, w, s, wdata256, be256, cachelineIn) else At(j))
    {
      WayArrays(
        if s.tagLoad[w] then tags[k := tag] else tags,
        if s.validLoad[w] then valid[k := s.validIn[w]] else valid,
        if s.dirtyLoad[w] then dirty[k := s.dirtyIn[w]] else dirty,
        data[k := LoadedData(data[k], w, s, wdata256, be256, cachelineIn)])
    }

    function Cleared(): (r: WayArrays)
      ensures forall j: SetNo :: r.At(j) == Way(false, false, 0, data[j])
    {
      WayArrays(seq(8, _ => 0), seq(8, _ => false), seq(8, _ => false), data)
    }
  }

  type AllWays = s: seq<WayArrays> | |s| == 4 witness seq(4, _ => EMPTY_WAY)
  const EMPTY_WAY := WayArrays(seq(8, _ => 0), seq(8, _ => false), seq(8, _ => false), seq(8, _ => ZERO_LINE))

  /** The arrays regrouped set by set. */
  function SetsOf(ways: AllWays, plru: PlruArray): (r: Sets)
    ensures forall s: SetNo, w: WayNo :: r[s].ways[w] == ways[w].At(s)
    ensures forall s: SetNo :: r[s].plru == plru[s]
  {
    seq(8, s requires 0 <= s < 8 =>
      CacheSet(seq(4, w requires 0 <= w < 4 => ways[w].At(s)), plru[s]))
  }

  lemma OtherSetsKept(ways: AllWays, plru: PlruArray, ways': AllWays, plru': PlruArray, k: SetNo)
    requires forall w: WayNo, j: SetNo :: j != k ==> ways'[w].At(j) == ways[w].At(j)
    requires forall j: SetNo :: j != k ==> plru'[j] == plru[j]
    ensures forall j: SetNo :: j != k ==> SetsOf(ways', plru')[j] == SetsOf(ways, plru)[j]
  {
  }

  class Datapath {
    var ways: AllWays
    var plru: PlruArray

    constructor ()
    {
      ways := seq(4, _ => EMPTY_WAY);
      plru := seq(8, _ => [false, false, false]);
    }

    ghost function Contents(): Sets
      reads this
    {
      SetsOf(ways, plru)
    }

    // ---- pure wires ----

    function HitLines(address: Address): Flags
      reads this
    {
      var s := address.index;
      var t := address.tag;
      [t == ways[0].tags[s] && ways[0].valid[s], t == ways[1].tags[s] && ways[1].valid[s],
       t == ways[2].tags[s] && ways[2].valid[s], t == ways[3].tags[s] && ways[3].valid[s]]
    }

    function DirtyOut(address: Address): Flags
      reads this
    {
      var s := address.index;
      [ways[0].dirty[s], ways[1].dirty[s], ways[2].dirty[s], ways[3].dirty[s]]
    }

    function PlruOut(address: Address): PlruBits
      reads this
    {
      plru[address.index]
    }

    function CachelineOut(address: Address, sel: WayNo): Line
      reads this
    {
      ways[sel].data[address.index]
    }

    function NewAddress(address: Address, newAddressSel: bool, whichTag: WayNo): Address
      reads this
    {
      if newAddressSel
      then LineAddress(ways[whichTag].tags[address.index], address.index)
      else LineAddress(address.tag, address.index)
    }

    // ---- clock edge ----

    /** Every array of every way loads, or keeps, the entry of the addressed set. */
    method Load(rst: bool, address: Address, s: Signals, wdata256: Line, be256: Enables, cachelineIn: Line)
      modifies this
      ensures rst ==> forall k: SetNo :: Contents()[k].plru == [false, false, false]
      ensures rst ==> forall k: SetNo, w: WayNo :: !Contents()[k].ways[w].valid && !Contents()[k].ways[w].dirty
      ensures !rst ==> forall k: SetNo :: k != address.index ==> Contents()[k] == old(Contents())[k]
      ensures !rst ==> forall w: WayNo ::
                Contents()[address.index].ways[w]
                == LoadedWay(old(Contents())[address.index].ways[w], address.tag, w, s, wdata256, be256, cachelineIn)
      ensures !rst ==> Contents()[address.index].plru ==
                         if s.plruLoad then s.plruIn else old(Contents())[address.index].plru
    {
      ghost var before := ways;
      var k := address.index;
      for w := 0 to 4
        invariant plru == old(plru)
        invariant forall v: WayNo ::
          ways[v] == if v < w then old(ways)[v].Loaded(k, address.tag, v, s, wdata256, be256, cachelineIn)
                     else old(ways)[v]
      {
        ways := ways[w := ways[w].Loaded(k, address.tag, w, s, wdata256, be256, cachelineIn)];
      }
      if s.plruLoad { plru := plru[k := s.plruIn]; }
      if rst {
        ways := seq(4, w requires 0 <= w < 4 reads this => ways[w].Cleared());
        plru := seq(8, _ => [false, false, false]);
      } else {
        OtherSetsKept(before, old(plru), ways, plru, k);
      }
    }
  }
}
