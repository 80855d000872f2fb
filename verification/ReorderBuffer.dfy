/**
 riscv_formal_monitor_rv32imc_rob of hvl/rvfimon.v: 256 slots addressed by the low byte of the order
 number, emptied in order at a 64-bit cursor.  All registers are read before the clock edge and written
 at it; of two writes to the same bit the later one in the source wins.
 */
module ReorderBuffer {
  import opened MachineWords
  import opened Wrappers

  const SLOTS := 256

  datatype Entry<D> = Entry(order: Word64, data: D)

  /** The registers; `out` is the pair o0_order, o0_data. */
  datatype State<D> = State(buffer: seq<Entry<D>>, valid: seq<bool>, cursor: Word64,
                            outValid: bool, out: Entry<D>, errcode: nat)
  {
    predicate Sized() { |buffer| == SLOTS && |valid| == SLOTS }

    predicate IsReset() {
      Sized() && valid == seq(SLOTS, _ => false) && cursor == 0 && !outValid && errcode == 0
    }
  }

  function SlotOf(order: Word64): (k: nat)
    ensures k < SLOTS
  {
    order % SLOTS
  }

  /** An unexpected head is reported in preference to an occupied slot. */
  function Errcode<D>(s: State<D>, i: Option<Entry<D>>): nat
    requires s.Sized()
  {
    var c := SlotOf(s.cursor);
    if s.valid[c] && s.buffer[c].order != s.cursor then 61000 + c
    else if i.Some? && s.valid[SlotOf(i.value.order)] then 60000 + SlotOf(i.value.order)
    else 0
  }

  /** A code names the slot it is about: 61000 + slot for a head with another order number, and otherwise
      60000 + slot for an arrival whose slot is taken. */
  lemma ErrcodeMeaning<D>(s: State<D>, i: Option<Entry<D>>, k: nat)
    requires s.Sized() && k < SLOTS
    ensures Errcode(s, i) == 61000 + k <==> k == s.cursor % 256 && s.valid[k] && s.buffer[k].order != s.cursor
    ensures Errcode(s, i) == 60000 + k <==>
              && i.Some? && k == i.value.order % 256 && s.valid[k]
              && !(s.valid[SlotOf(s.cursor)] && s.buffer[SlotOf(s.cursor)].order != s.cursor)
  {
  }

  function Stored<D>(s: State<D>, i: Option<Entry<D>>): (r: State<D>)
    requires s.Sized()
    ensures r.Sized()
  {
    match i
    case None => s
    case Some(e) => s.(buffer := s.buffer[SlotOf(e.order) := e], valid := s.valid[SlotOf(e.order) := true])
  }

  function Step<D>(s: State<D>, i: Option<Entry<D>>): (r: State<D>)
    requires s.Sized()
    ensures r.Sized()
  {
    var c, t, code := SlotOf(s.cursor), Stored(s, i), Errcode(s, i);
    if s.valid[c] then
      State(t.buffer, t.valid[c := false], (s.cursor + 1) % TWO_64, true, s.buffer[c], code)
    else
      State(t.buffer, t.valid, s.cursor, false, s.out, code)
  }

  class Rob<D> {
    const buffer: array<Entry<D>>
    var valid: seq<bool>
    var cursor: Word64
    var o0Valid: bool
    var o0: Entry<D>
    var errcode: nat

    ghost function View(): State<D>
      reads this, buffer
    {
      State(buffer[..], valid, cursor, o0Valid, o0, errcode)
    }

    /** Registers hold anything until the first reset. */
    constructor (power: Entry<D>)
      ensures fresh(this) && fresh(buffer) && View().Sized()
    {
      buffer := new Entry<D>[SLOTS](_ => power);
      valid := seq(SLOTS, _ => true);
      cursor, o0Valid, o0, errcode := 0, true, power, 0;
    }

    /** One rising clock edge. */
    method Clock(reset: bool, i0: Option<Entry<D>>)
      requires View().Sized()
      modifies this, buffer
      ensures reset ==> View().IsReset() && buffer[..] == old(buffer[..])
      ensures !reset ==> View() == Step(old(View()), i0)
    {
      var was, head := valid, buffer[SlotOf(cursor)];
      o0Valid := false;
      errcode := 0;
      if reset {
        valid := seq(SLOTS, _ => false);
        cursor := 0;
      } else {
        if i0.Some? {
          var k := SlotOf(i0.value.order);
          if was[k] {
            errcode := 60000 + k;
          }
          buffer[k] := i0.value;
          valid := valid[k := true];
        }
        var c := SlotOf(cursor);
        if was[c] {
          if head.order != cursor {
            errcode := 61000 + c;
          }
          o0Valid := true;
          o0 := head;
          valid := valid[c := false];
          cursor := (cursor + 1) % TWO_64;
        }
      }
    }
  }

  // ---- runs ----

  function After<D>(s: State<D>, ins: seq<Option<Entry<D>>>): (r: State<D>)
    requires s.Sized()
    ensures r.Sized()
  {
    if ins == [] then s else Step(After(s, ins[..|ins| - 1]), ins[|ins| - 1])
  }

  function Arrived<D>(ins: seq<Option<Entry<D>>>): seq<Entry<D>> {
    if ins == [] then []
    else Arrived(ins[..|ins| - 1]) + if ins[|ins| - 1].Some? then [ins[|ins| - 1].value] else []
  }

  function Emitted<D>(s: State<D>, ins: seq<Option<Entry<D>>>): seq<Entry<D>>
    requires s.Sized()
  {
    if ins == [] then []
    else Emitted(s, ins[..|ins| - 1]) + if After(s, ins).outValid then [After(s, ins).out] else []
  }

  lemma RunSnoc<D>(s: State<D>, ins: seq<Option<Entry<D>>>, i: Option<Entry<D>>)
    requires s.Sized()
    ensures After(s, ins + [i]) == Step(After(s, ins), i)
    ensures var r := Step(After(s, ins), i);
            Emitted(s, ins + [i]) == Emitted(s, ins) + if r.outValid then [r.out] else []
    ensures ErrorFree(s, ins + [i]) <==> Errcode(After(s, ins), i) == 0 && ErrorFree(s, ins)
  {
  }

  /** errcode is 0 after every cycle. */
  predicate ErrorFree<D>(s: State<D>, ins: seq<Option<Entry<D>>>)
    requires s.Sized()
  {
    ins != [] ==> After(s, ins).errcode == 0 && ErrorFree(s, ins[..|ins| - 1])
  }

  // ---- conservation ----

  ghost function Cell<D>(s: State<D>, k: nat): multiset<Entry<D>>
    requires s.Sized() && k < SLOTS
  {
    if s.valid[k] then multiset{s.buffer[k]} else multiset{}
  }

  /** The entries waiting in slots below n. */
  ghost function Held<D>(s: State<D>, n: nat): multiset<Entry<D>>
    requires s.Sized() && n <= SLOTS
  {
    if n == 0 then multiset{} else Held(s, n - 1) + Cell(s, n - 1)
  }

  lemma {:induction false} HeldSame<D>(s: State<D>, t: State<D>, n: nat)
    requires s.Sized() && t.Sized() && n <= SLOTS
    requires forall j :: 0 <= j < n ==> Cell(s, j) == Cell(t, j)
    ensures Held(s, n) == Held(t, n)
  {
    if n > 0 {
      HeldSame(s, t, n - 1);
    }
  }

  /** Two buffers that differ in slot k only. */
  lemma {:induction false} HeldChange<D>(s: State<D>, t: State<D>, k: nat, n: nat)
    requires s.Sized() && t.Sized() && k < n <= SLOTS
    requires forall j :: 0 <= j < SLOTS && j != k ==> Cell(s, j) == Cell(t, j)
    ensures Held(t, n) + Cell(s, k) == Held(s, n) + Cell(t, k)
  {
    if n - 1 == k {
      HeldSame(s, t, k);
      Exchange(Held(s, k), Cell(t, k), Cell(s, k));
    } else {
      HeldChange(s, t, k, n - 1);
      assert Cell(s, n - 1) == Cell(t, n - 1);
      AddBoth(Held(t, n - 1), Cell(s, k), Held(s, n - 1), Cell(t, k), Cell(s, n - 1));
    }
  }

  lemma Exchange<T>(a: multiset<T>, x: multiset<T>, y: multiset<T>)
    ensures a + x + y == a + y + x
  {
  }

  lemma AddBoth<T>(a: multiset<T>, x: multiset<T>, b: multiset<T>, y: multiset<T>, c: multiset<T>)
    requires a + x == b + y
    ensures a + c + x == b + c + y
  {
    Exchange(a, c, x);
    Exchange(b, c, y);
  }

  /** In = out + held, once more for one cycle. */
  lemma Balance<T>(a: multiset<T>, e: multiset<T>, h: multiset<T>, i: multiset<T>, o: multiset<T>, h': multiset<T>)
    requires a == e + h && h + i == h' + o
    ensures a + i == e + o + h'
  {
    assert a + i == e + (h + i) == e + (h' + o);
  }

  lemma {:induction false} HeldNothing<D>(s: State<D>, n: nat)
    requires s.IsReset() && n <= SLOTS
    ensures Held(s, n) == multiset{}
  {
    if n > 0 {
      HeldNothing(s, n - 1);
    }
  }

  ghost function Input<D>(i: Option<Entry<D>>): multiset<Entry<D>> {
    match i case None => multiset{} case Some(e) => multiset{e}
  }

  ghost function Output<D>(s: State<D>): multiset<Entry<D>> { if s.outValid then multiset{s.out} else multiset{} }

  /** An error-free cycle loses and invents nothing. */
  lemma StepConserves<D>(s: State<D>, i: Option<Entry<D>>)
    requires s.Sized() && Errcode(s, i) == 0
    ensures Held(s, SLOTS) + Input(i) == Held(Step(s, i), SLOTS) + Output(Step(s, i))
  {
    StoreConserves(s, i);
    RemoveConserves(s, i);
  }

  lemma RemoveConserves<D>(s: State<D>, i: Option<Entry<D>>)
    requires s.Sized() && Errcode(s, i) == 0
    ensures Held(Stored(s, i), SLOTS) == Held(Step(s, i), SLOTS) + Output(Step(s, i))
  {
    var c, t, r := SlotOf(s.cursor), Stored(s, i), Step(s, i);
    if s.valid[c] {
      HeldChange(t, r, c, SLOTS);
      assert Cell(t, c) == Output(r) && Cell(r, c) == multiset{};
    } else {
      HeldSame(t, r, SLOTS);
    }
  }

  lemma StoreConserves<D>(s: State<D>, i: Option<Entry<D>>)
    requires s.Sized() && (i.Some? ==> !s.valid[SlotOf(i.value.order)])
    ensures Held(Stored(s, i), SLOTS) == Held(s, SLOTS) + Input(i)
  {
    if i.Some? {
      var k, t := SlotOf(i.value.order), Stored(s, i);
      HeldChange(s, t, k, SLOTS);
      assert Cell(s, k) == multiset{} && Cell(t, k) == Input(i);
    }
  }

  lemma {:induction false} Conservation<D>(s: State<D>, ins: seq<Option<Entry<D>>>)
    requires s.IsReset() && ErrorFree(s, ins)
    ensures multiset(Arrived(ins)) == multiset(Emitted(s, ins)) + Held(After(s, ins), SLOTS)
  {
    if ins == [] {
      HeldNothing(s, SLOTS);
    } else {
      var before, i := ins[..|ins| - 1], ins[|ins| - 1];
      Conservation(s, before);
      StepConserves(After(s, before), i);
      Balance(multiset(Arrived(before)), multiset(Emitted(s, before)), Held(After(s, before), SLOTS), Input(i),
              Output(After(s, ins)), Held(After(s, ins), SLOTS));
    }
  }

  /** As long as errcode stays 0 the orders come out as 0, 1, 2, ... modulo 2^64. */
  lemma {:induction false} InOrder<D>(s: State<D>, ins: seq<Option<Entry<D>>>)
    requires s.IsReset() && ErrorFree(s, ins)
    ensures After(s, ins).cursor == |Emitted(s, ins)| % TWO_64
    ensures forall n :: 0 <= n < |Emitted(s, ins)| ==> Emitted(s, ins)[n].order == n % TWO_64
  {
    if ins != [] {
      InOrder(s, ins[..|ins| - 1]);
      NextNumber(|Emitted(s, ins[..|ins| - 1])|);
    }
  }

  lemma NextNumber(n: nat)
    ensures (n % TWO_64 + 1) % TWO_64 == (n + 1) % TWO_64
  {
  }

  /** What comes out was put in: entry n of the output is an arrival numbered n, data included. */
  lemma OutputsWereInputs<D>(s: State<D>, ins: seq<Option<Entry<D>>>, n: nat)
    requires s.IsReset() && ErrorFree(s, ins) && n < |Emitted(s, ins)|
    ensures Emitted(s, ins)[n] in Arrived(ins) && Emitted(s, ins)[n].order == n % TWO_64
  {
    Conservation(s, ins);
    InOrder(s, ins);
    assert Emitted(s, ins)[n] in multiset(Emitted(s, ins));
    assert Emitted(s, ins)[n] in multiset(Arrived(ins));
  }

  // ---- a submitter that keeps inside the window ----

  /** Instruction number n of an unbounded run; only its low 64 bits are sent. */
  datatype Submission<D> = Submission(n: nat, data: D)

  function Sent<D>(sub: Option<Submission<D>>): Option<Entry<D>> {
    match sub case None => None case Some(x) => Some(Entry(x.n % TWO_64, x.data))
  }

  function AllSent<D>(subs: seq<Option<Submission<D>>>): (ins: seq<Option<Entry<D>>>)
    ensures |ins| == |subs|
  {
    if subs == [] then [] else AllSent(subs[..|subs| - 1]) + [Sent(subs[|subs| - 1])]
  }

  /** The data last submitted under number n. */
  function Find<D>(subs: seq<Option<Submission<D>>>, n: nat): Option<D> {
    if subs == [] then None
    else
      var x := subs[|subs| - 1];
      if x.Some? && x.value.n == n then Some(x.value.data) else Find(subs[..|subs| - 1], n)
  }

  function Count<D>(s: State<D>, subs: seq<Option<Submission<D>>>): nat
    requires s.Sized()
  {
    |Emitted(s, AllSent(subs))|
  }

  /** Every number is new and at most 255 ahead of the next one to come out. */
  predicate InWindow<D>(s: State<D>, subs: seq<Option<Submission<D>>>)
    requires s.Sized()
  {
    subs != [] ==>
      var before, x := subs[..|subs| - 1], subs[|subs| - 1];
      && InWindow(s, before)
      && Admissible(before, x, Count(s, before))
  }

  predicate Admissible<D>(subs: seq<Option<Submission<D>>>, x: Option<Submission<D>>, e: nat) {
    x.Some? ==> Find(subs, x.value.n) == None && e <= x.value.n < e + SLOTS
  }

  /** Slot of number n: free, or holding what was submitted under n. */
  ghost predicate HoldsNumber<D>(r: State<D>, found: Option<D>, n: nat)
    requires r.Sized()
  {
    && r.valid[n % SLOTS] == found.Some?
    && (found.Some? ==> r.buffer[n % SLOTS] == Entry(n % TWO_64, found.value))
  }

  /** The slots hold exactly the submitted numbers of the window at `e`. */
  ghost predicate Waiting<D>(r: State<D>, subs: seq<Option<Submission<D>>>, e: nat) {
    && r.Sized() && r.cursor == e % TWO_64
    && (forall n: nat :: e <= n < e + SLOTS ==> HoldsNumber(r, Find(subs, n), n))
    && (forall n: nat :: n >= e + SLOTS ==> Find(subs, n) == None)
  }

  lemma SlotOfNumber(n: nat)
    ensures SlotOf(n % TWO_64) == n % SLOTS
  {
  }

  lemma SlotsDiffer(n: nat, m: nat, e: nat)
    requires e <= n < e + SLOTS && e <= m <= e + SLOTS
    ensures n % SLOTS == m % SLOTS <==> n == m || (n == e && m == e + SLOTS)
  {
  }

  function Next<D>(subs: seq<Option<Submission<D>>>, e: nat): nat { if Find(subs, e).Some? then e + 1 else e }

  lemma FindSnoc<D>(subs: seq<Option<Submission<D>>>, x: Option<Submission<D>>, n: nat)
    ensures Find(subs + [x], n) == if x.Some? && x.value.n == n then Some(x.value.data) else Find(subs, n)
  {
  }

  /** A number of the window meets a free slot, and the head is the number expected. */
  lemma StepWaits<D>(r: State<D>, subs: seq<Option<Submission<D>>>, x: Option<Submission<D>>, e: nat)
    requires Waiting(r, subs, e) && Admissible(subs, x, e)
    ensures Errcode(r, Sent(x)) == 0
    ensures var t := Step(r, Sent(x));
            && t.outValid == Find(subs, e).Some?
            && (t.outValid ==> t.out == Entry(e % TWO_64, Find(subs, e).value))
            && Waiting(t, subs + [x], Next(subs, e))
  {
    SlotOfNumber(e);
    NextNumber(e);
    assert HoldsNumber(r, Find(subs, e), e);
    if x.Some? {
      SlotOfNumber(x.value.n);
      assert HoldsNumber(r, Find(subs, x.value.n), x.value.n);
    }
    var t, e' := Step(r, Sent(x)), Next(subs, e);
    forall n: nat
      ensures n >= e' + SLOTS ==> Find(subs + [x], n) == None
      ensures e' <= n < e' + SLOTS ==> HoldsNumber(t, Find(subs + [x], n), n)
    {
      FindSnoc(subs, x, n);
      if e' <= n < e' + SLOTS {
        WindowSlot(r, subs, x, e, n);
      }
    }
  }

  /** One slot after the step. */
  lemma WindowSlot<D>(r: State<D>, subs: seq<Option<Submission<D>>>, x: Option<Submission<D>>, e: nat, n: nat)
    requires Waiting(r, subs, e) && Admissible(subs, x, e)
    requires Next(subs, e) <= n < Next(subs, e) + SLOTS
    ensures HoldsNumber(Step(r, Sent(x)), if x.Some? && x.value.n == n then Some(x.value.data) else Find(subs, n), n)
  {
    SlotOfNumber(e);
    assert HoldsNumber(r, Find(subs, e), e);
    if x.Some? {
      SlotOfNumber(x.value.n);
      SlotsDiffer(x.value.n, n, e);
    }
    SlotsDiffer(e, n, e);
    var q, t := n % SLOTS, Step(r, Sent(x));
    if n == e + SLOTS {
      assert !t.valid[q];
    } else if x.Some? && x.value.n == n {
      assert t.valid[q] && t.buffer[q] == Sent(x).value;
    } else {
      assert HoldsNumber(r, Find(subs, n), n);
      assert t.valid[q] == r.valid[q] && t.buffer[q] == r.buffer[q];
    }
  }

  /** No error so far, the window tracked, and output n is submission n. */
  ghost predicate Tracked<D>(s: State<D>, subs: seq<Option<Submission<D>>>)
    requires s.Sized()
  {
    var ins := AllSent(subs);
    && ErrorFree(s, ins)
    && Waiting(After(s, ins), subs, |Emitted(s, ins)|)
    && InTurn(Emitted(s, ins), subs)
  }

  ghost predicate InTurn<D>(out: seq<Entry<D>>, subs: seq<Option<Submission<D>>>) {
    forall n :: 0 <= n < |out| ==> Find(subs, n).Some? && out[n] == Entry(n % TWO_64, Find(subs, n).value)
  }

  lemma TurnKept<D>(out: seq<Entry<D>>, subs: seq<Option<Submission<D>>>, x: Option<Submission<D>>)
    requires InTurn(out, subs) && Admissible(subs, x, |out|)
    ensures InTurn(out, subs + [x])
  {
  }

  lemma TurnGrows<D>(out: seq<Entry<D>>, e: Entry<D>, subs: seq<Option<Submission<D>>>)
    requires InTurn(out, subs) && Find(subs, |out|).Some?
    requires e == Entry(|out| % TWO_64, Find(subs, |out|).value)
    ensures InTurn(out + [e], subs)
  {
  }

  lemma AllSentSnoc<D>(subs: seq<Option<Submission<D>>>, x: Option<Submission<D>>)
    ensures AllSent(subs + [x]) == AllSent(subs) + [Sent(x)]
  {
    assert (subs + [x])[..|subs|] == subs;
  }

  lemma TrackedSnoc<D>(s: State<D>, subs: seq<Option<Submission<D>>>, x: Option<Submission<D>>)
    requires s.Sized() && Tracked(s, subs) && Admissible(subs, x, Count(s, subs))
    ensures Tracked(s, subs + [x])
  {
    var ins := AllSent(subs);
    var r, out := After(s, ins), Emitted(s, ins);
    AllSentSnoc(subs, x);
    StepWaits(r, subs, x, |out|);
    RunSnoc(s, ins, Sent(x));
    TurnKept(out, subs, x);
    FindSnoc(subs, x, |out|);
    var t := Step(r, Sent(x));
    if t.outValid {
      TurnGrows(out, t.out, subs + [x]);
    }
  }

  lemma {:induction false} WindowKept<D>(s: State<D>, subs: seq<Option<Submission<D>>>)
    requires s.IsReset() && InWindow(s, subs)
    ensures Tracked(s, subs)
  {
    if subs != [] {
      var before, x := subs[..|subs| - 1], subs[|subs| - 1];
      WindowKept(s, before);
      TrackedSnoc(s, before, x);
      assert before + [x] == subs;
    }
  }

  /** New numbers inside the window never raise an error, number n comes out n-th with its own data, and
      it comes out as soon as it is next and there. */
  lemma NoFalseAlarm<D>(s: State<D>, subs: seq<Option<Submission<D>>>, x: Option<Submission<D>>)
    requires s.IsReset() && InWindow(s, subs)
    ensures ErrorFree(s, AllSent(subs))
    ensures InTurn(Emitted(s, AllSent(subs)), subs)
    ensures Step(After(s, AllSent(subs)), Sent(x)).outValid <==> Find(subs, Count(s, subs)).Some?
  {
    WindowKept(s, subs);
    var r, e := After(s, AllSent(subs)), Count(s, subs);
    SlotOfNumber(e);
    assert HoldsNumber(r, Find(subs, e), e);
  }
}
