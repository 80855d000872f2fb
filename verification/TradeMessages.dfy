/**
 process_execution of testcode/src/comp3.c over a stream of messages, and the two byte-swap functions.
 `unsigned` and `int` wrap around at 32 bits.

 In contracts, `P(x) == true` instead of `P(x)` keeps the verifier from unfolding P where it is only passed on.
 */
module TradeMessages {
  import opened Arithmetic
  import opened MachineWords

  // ---- byte order ----

  /** __bswapsi2 */
  function Swap32(u: bv32): bv32 {
    ((u & 0xff000000) >> 24) | ((u & 0x00ff0000) >> 8) | ((u & 0x0000ff00) << 8) | ((u & 0x000000ff) << 24)
  }

  /** __bswapdi2 */
  function Swap64(u: bv64): bv64 {
    ((u & 0xff00000000000000) >> 56) | ((u & 0x00ff000000000000) >> 40)
    | ((u & 0x0000ff0000000000) >> 24) | ((u & 0x000000ff00000000) >> 8)
    | ((u & 0x00000000ff000000) << 8) | ((u & 0x0000000000ff0000) << 24)
    | ((u & 0x000000000000ff00) << 40) | ((u & 0x00000000000000ff) << 56)
  }

  function Swap16(u: bv16): bv16 { (u >> 8) | (u << 8) }

  lemma SwapTwice(x: bv32, y: bv64, z: bv16)
    ensures Swap32(Swap32(x)) == x && Swap64(Swap64(y)) == y && Swap16(Swap16(z)) == z
  {
  }

  /** The integers that words stand for. */
  function Number8(u: bv8): nat { u as int }
  function Number16(u: bv16): nat { u as int }
  function Number32(u: bv32): nat { u as int }
  function Number64(u: bv64): nat { u as int }

  /** The number that bytes spell, most significant first. */
  function BigEndian(bytes: seq<bv8>): nat {
    if bytes == [] then 0 else 256 * BigEndian(bytes[..|bytes| - 1]) + Number8(bytes[|bytes| - 1])
  }

  lemma ShiftOne(a: nat, b: nat, n: nat)
    ensures 256 * (a * Pow2(8 * n) + b) == a * Pow2(8 * (n + 1)) + 256 * b
  {
    var p := Pow2(8 * n);
    assert Pow2(4) == 16;
    Pow2Sum(4, 4);
    Pow2Sum(8, 8 * n);
    assert 256 * (a * p) == a * (256 * p);
  }

  lemma BigEndianSnoc(bytes: seq<bv8>)
    requires bytes != []
    ensures BigEndian(bytes) == 256 * BigEndian(bytes[..|bytes| - 1]) + Number8(bytes[|bytes| - 1])
  {
  }

  lemma {:induction false} BigEndianConcat(high: seq<bv8>, low: seq<bv8>)
    ensures BigEndian(high + low) == BigEndian(high) * Pow2(8 * |low|) + BigEndian(low)
  {
    hide Number8, Pow2;
    if low == [] {
      assert high + low == high && Pow2(0) == 1 by { Pow2Zero(); }
    } else {
      hide BigEndian;
      var all, front := high + low, low[..|low| - 1];
      assert all[..|all| - 1] == high + front;
      BigEndianSnoc(all);
      BigEndianSnoc(low);
      BigEndianConcat(high, front);
      ShiftOne(BigEndian(high), BigEndian(front), |front|);
    }
  }

  lemma Pow2Zero()
    ensures Pow2(0) == 1
  {
  }

  /** Two halves in one word. */
  function Pair8(high: bv8, low: bv8): bv16 { (low as bv16) | ((high as bv16) << 8) }
  function Pair16(high: bv16, low: bv16): bv32 { (low as bv32) | ((high as bv32) << 16) }
  function Pair32(high: bv32, low: bv32): bv64 { (low as bv64) | ((high as bv64) << 32) }

  lemma Value8(high: bv8, low: bv8)
    ensures ((low as bv16) | ((high as bv16) << 8)) as int == 0x100 * (high as int) + (low as int)
  {
  }

  lemma PairValue8(high: bv8, low: bv8)
    ensures Number16(Pair8(high, low)) == 0x100 * Number8(high) + Number8(low)
  {
    Value8(high, low);
  }

  lemma Value16(high: bv16, low: bv16)
    ensures ((low as bv32) | ((high as bv32) << 16)) as int == 0x1_0000 * (high as int) + (low as int)
  {
  }

  lemma PairValue16(high: bv16, low: bv16)
    ensures Number32(Pair16(high, low)) == 0x1_0000 * Number16(high) + Number16(low)
  {
    Value16(high, low);
  }

  lemma Value32(high: bv32, low: bv32)
    ensures ((low as bv64) | ((high as bv64) << 32)) as int == 0x1_0000_0000 * (high as int) + (low as int)
  {
  }

  lemma PairValue32(high: bv32, low: bv32)
    ensures Number64(Pair32(high, low)) == TWO_32 * Number32(high) + Number32(low)
  {
    Value32(high, low);
  }

  // Each swap exchanges the halves and swaps them.

  lemma SwapPair8(high: bv8, low: bv8)
    ensures Swap16(Pair8(high, low)) == Pair8(low, high)
  {
  }

  lemma SwapHalves16(high: bv16, low: bv16)
    ensures Swap32((low as bv32) | ((high as bv32) << 16)) == (Swap16(high) as bv32) | ((Swap16(low) as bv32) << 16)
  {
  }

  lemma SwapPair16(high: bv16, low: bv16)
    ensures Swap32(Pair16(high, low)) == Pair16(Swap16(low), Swap16(high))
  {
    hide Swap16, Swap32;
    SwapHalves16(high, low);
  }

  lemma SwapHalves(low: bv32, high: bv32)
    ensures Swap64((low as bv64) | ((high as bv64) << 32)) == (Swap32(high) as bv64) | ((Swap32(low) as bv64) << 32)
  {
  }

  lemma SwapPair32(high: bv32, low: bv32)
    ensures Swap64(Pair32(high, low)) == Pair32(Swap32(low), Swap32(high))
  {
    hide Swap32, Swap64;
    SwapHalves(low, high);
  }

  /** A field as loaded from its bytes, the first byte the least significant. */
  function Little16(b: seq<bv8>): bv16
    requires |b| == 2
  {
    Pair8(b[1], b[0])
  }

  function Little32(b: seq<bv8>): bv32
    requires |b| == 4
  {
    Pair16(Little16(b[2..]), Little16(b[..2]))
  }

  function Little64(b: seq<bv8>): bv64
    requires |b| == 8
  {
    Pair32(Little32(b[4..]), Little32(b[..4]))
  }

  lemma Powers()
    ensures Pow2(16) == 0x1_0000 && Pow2(32) == TWO_32
  {
    assert Pow2(4) == 16;
    Pow2Sum(4, 4);
    Pow2Sum(8, 8);
    Pow2Sum(16, 16);
  }

  lemma OneByte(b: seq<bv8>)
    requires |b| == 1
    ensures BigEndian(b) == Number8(b[0])
  {
    assert b[..0] == [];
  }

  /** A swapped load is the number that the bytes spell, for fields of 16, 32 and 64 bits. */
  lemma SwapSpells16(b: seq<bv8>)
    requires |b| == 2
    ensures Number16(Swap16(Little16(b))) == BigEndian(b)
  {
    hide Swap16, Pair8, Number8, Number16;
    OneByte(b[..1]);
    SwapPair8(b[1], b[0]);
    PairValue8(b[0], b[1]);
  }

  lemma SwapSpells32(b: seq<bv8>)
    requires |b| == 4
    ensures Number32(Swap32(Little32(b))) == BigEndian(b)
  {
    hide Swap16, Swap32, Pair16, Little16, BigEndian, Number16, Number32;
    SwapSpells16(b[..2]);
    SwapSpells16(b[2..]);
    SwapPair16(Little16(b[2..]), Little16(b[..2]));
    PairValue16(Swap16(Little16(b[..2])), Swap16(Little16(b[2..])));
    BigEndianConcat(b[..2], b[2..]);
    assert b[..2] + b[2..] == b;
    Powers();
  }

  lemma SwapSpells64(b: seq<bv8>)
    requires |b| == 8
    ensures Number64(Swap64(Little64(b))) == BigEndian(b)
  {
    hide Swap32, Swap64, Pair32, Little32, BigEndian, Number32, Number64;
    SwapSpells32(b[..4]);
    SwapSpells32(b[4..]);
    SwapPair32(Little32(b[4..]), Little32(b[..4]));
    PairValue32(Swap32(Little32(b[..4])), Swap32(Little32(b[4..])));
    BigEndianConcat(b[..4], b[4..]);
    assert b[..4] + b[4..] == b;
    Powers();
  }

  // ---- messages ----

  /** struct exec_notification; multi-byte fields as loaded, before the swap. */
  datatype Message = Message(kind: char, subkind: char, tradeType: char, side: char, timestamp: bv32, price: bv32,
                             symbol: string, contracts: bv16, liquidity: bv8, strike: bv16, expiration: bv16,
                             messageId: bv64)
  {
    /** Skipped only if both letters are wrong. */
    predicate Passes() { kind == 'N' || subkind == 'E' }

    function Id(): Word64 { Swap64(messageId) as int }
    function Price(): Word32 { Swap32(price) as int }
    function Contracts(): (n: int)
      ensures 0 <= n < 0x10000
    {
      Swap16(contracts) as int
    }
    function Strike(): (n: int)
      ensures 0 <= n < 0x10000
    {
      Swap16(strike) as int
    }
    function Expiration(): nat { Swap16(expiration) as int }
    predicate Long() { Expiration() > 10 }
    predicate Maker() { liquidity == LIQUIDITY_MAKER }

    /** Distance of the price from the strike price. */
    function Distance(): nat { Abs(Price() - Strike()) }

    function PutChange(): int { PutsBy(tradeType, side, Contracts()) }
    function CallChange(): int { CallsBy(tradeType, side, Contracts()) }
  }

  /** Contribution to puts_count and calls_count: bought counts up, sold counts down. */
  function PutsBy(tradeType: char, side: char, n: int): int {
    if tradeType != 'P' then 0 else if side == 'B' then n else -n
  }

  function CallsBy(tradeType: char, side: char, n: int): int {
    if tradeType != 'C' then 0 else if side == 'S' then -n else n
  }

  /** The number fields of a message in network byte order are the numbers its bytes spell. */
  lemma FieldsSpell(m: Message, contracts: seq<bv8>, strike: seq<bv8>, expiration: seq<bv8>, price: seq<bv8>,
                    id: seq<bv8>)
    requires |contracts| == |strike| == |expiration| == 2 && |price| == 4 && |id| == 8
    requires m.contracts == Little16(contracts) && m.strike == Little16(strike) && m.expiration == Little16(expiration)
    requires m.price == Little32(price) && m.messageId == Little64(id)
    ensures m.Contracts() == BigEndian(contracts) && m.Strike() == BigEndian(strike)
    ensures m.Expiration() == BigEndian(expiration)
    ensures m.Price() == BigEndian(price) && m.Id() == BigEndian(id)
  {
    hide Swap16, Swap32, Swap64, Little16, Little32, Little64, BigEndian;
    SwapSpells16(contracts);
    SwapSpells16(strike);
    SwapSpells16(expiration);
    SwapSpells32(price);
    SwapSpells64(id);
  }

  const RISK_THRESHOLD := 100
  const LIQUIDITY_MAKER: bv8 := 1

  datatype State = State(oldMessageId: Word64, contractsProcessed: Word32, putsCount: Int32, callsCount: Int32)

  const START := State(0, 0, 0, 0)

  /** Counters after `contracts`, `put` and `call` more. */
  function Count(s: State, id: Word64, contracts: int, put: int, call: int): State {
    State(id, ToWord(s.contractsProcessed + contracts), Wrap32(s.putsCount + put), Wrap32(s.callsCount + call))
  }

  function Step(s: State, m: Message): State {
    if !m.Passes() || m.Id() <= s.oldMessageId then s
    else Count(s, m.Id(), m.Contracts(), m.PutChange(), m.CallChange())
  }

  /** The risk in exact arithmetic: the distance from the strike price, doubled for long expirations. */
  function ExactRisk(price: int, strike: int, long: bool, maker: bool): int {
    (if long then 8 else 4) * Abs(price - strike) - (if maker then 2 else 0)
  }

  /** `vol`: the wrapped difference without its sign. */
  function Volume(d: int): Int32 { if Wrap32(d) < 0 then Negate(Wrap32(d)) else Wrap32(d) }

  function RiskFrom(vol: int, long: bool, maker: bool): Int32 {
    var shifted: int := Wrap32(4 * vol);
    var doubled: int := if long then Wrap32(shifted + shifted) else shifted;
    if maker then Wrap32(doubled - 2) else doubled
  }

  /** The risk as the code computes it, wrapping at every step. */
  function WrappedRisk(price: int, strike: int, long: bool, maker: bool): Int32 {
    RiskFrom(Volume(price - strike), long, maker)
  }

  function RiskOf(m: Message): Int32 {
    WrappedRisk(m.Price(), m.Strike(), m.Long(), m.Maker())
  }

  function ExactRiskOf(m: Message): int { ExactRisk(m.Price(), m.Strike(), m.Long(), m.Maker()) }

  class Processor {
    var oldMessageId: Word64
    var contractsProcessed: Word32
    var putsCount: Int32
    var callsCount: Int32

    function View(): State
      reads this
    {
      State(oldMessageId, contractsProcessed, putsCount, callsCount)
    }

    constructor ()
      ensures View() == START
    {
      oldMessageId, contractsProcessed, putsCount, callsCount := 0, 0, 0, 0;
    }

    /** Returns 1 exactly for an accepted message whose wrapped risk is over the threshold (see FlagOfMessage). */
    method ProcessExecution(trade: Message) returns (r: nat)
      modifies this
      ensures View() == Step(old(View()), trade)
      ensures (trade.kind != 'N' && trade.subkind != 'E') || trade.Id() <= old(oldMessageId) ==>
                View() == old(View()) && r == 0
      ensures (trade.kind == 'N' || trade.subkind == 'E') && trade.Id() > old(oldMessageId) ==>
                && oldMessageId == trade.Id()
                && r == if RiskOf(trade) > RISK_THRESHOLD then 1 else 0
    {
      if trade.kind != 'N' && trade.subkind != 'E' { return 0; }
      var messageId := trade.Id();
      if messageId <= oldMessageId { return 0; }
      Book(messageId, trade.Contracts(), trade.tradeType, trade.side);
      r := CheckRisk(trade.Price(), trade.Strike(), trade.Long(), trade.Maker());
    }

    /** The updates for an accepted message. */
    method Book(messageId: Word64, contracts: int, tradeType: char, side: char)
      modifies this
      ensures View() == Count(old(View()), messageId, contracts, PutsBy(tradeType, side, contracts),
                              CallsBy(tradeType, side, contracts))
    {
      SmallChange(putsCount);
      SmallChange(callsCount);
      oldMessageId := messageId;
      contractsProcessed := ToWord(contractsProcessed + contracts);
      if tradeType == 'P' {
        putsCount := Wrap32(putsCount + if side == 'B' then contracts else -contracts);
      } else if tradeType == 'C' {
        callsCount := Wrap32(callsCount + if side == 'S' then -contracts else contracts);
      }
    }

    /** The rest of process_execution. */
    static method CheckRisk(price: int, strike: int, long: bool, maker: bool) returns (r: nat)
      requires 0 <= price < TWO_32 && 0 <= strike < 0x10000
      ensures r == if WrappedRisk(price, strike, long, maker) > RISK_THRESHOLD then 1 else 0
      ensures Abs(price - strike) < RiskLimit(long, maker) ==>
                (r == 1 <==> ExactRisk(price, strike, long, maker) > RISK_THRESHOLD)
      ensures Abs(price - strike) == RiskLimit(long, maker) ==> r == 0
    {
      FlagUpToLimit(price, strike, long, maker);
      var vol: int := Wrap32(price - strike);
      if vol < 0 { vol := Negate(vol); }
      var risk: int := Wrap32(4 * vol);
      if long { risk := Wrap32(risk + risk); }
      if maker { risk := Wrap32(risk - 2); }
      if risk > RISK_THRESHOLD { return 1; }
      return 0;
    }
  }

  lemma SmallChange(i: Int32)
    ensures Wrap32(i + 0) == i
  {
  }

  // ---- streams ----

  function Run(s: State, ms: seq<Message>): State {
    if ms == [] then s else Step(Run(s, ms[..|ms| - 1]), ms[|ms| - 1])
  }

  /** Type letter N or subtype letter E. */
  predicate IsNotification(m: Message) { m.kind == 'N' || m.subkind == 'E' }

  /** Message j is a notification and its id exceeds 0 and the id of every notification before it. */
  predicate Record(ms: seq<Message>, j: nat)
    requires j < |ms|
  {
    && IsNotification(ms[j]) && ms[j].Id() > 0
    && forall i :: 0 <= i < j && IsNotification(ms[i]) ==> ms[i].Id() < ms[j].Id()
  }

  function Contracts(ms: seq<Message>): nat {
    if ms == [] then 0
    else Contracts(ms[..|ms| - 1]) + if Record(ms, |ms| - 1) then ms[|ms| - 1].Contracts() else 0
  }

  /** Contracts of the records of one trade type, those whose side is the given letter or those whose side is not. */
  function Traded(ms: seq<Message>, tradeType: char, side: char, same: bool): nat {
    if ms == [] then 0
    else
      var m := ms[|ms| - 1];
      Traded(ms[..|ms| - 1], tradeType, side, same) +
      if Record(ms, |ms| - 1) && m.tradeType == tradeType && (m.side == side) == same then m.Contracts() else 0
  }

  /** Puts bought less the other puts, and calls not sold less calls sold. */
  function Puts(ms: seq<Message>): int { Traded(ms, 'P', 'B', true) - Traded(ms, 'P', 'B', false) }

  function Calls(ms: seq<Message>): int { Traded(ms, 'C', 'S', false) - Traded(ms, 'C', 'S', true) }

  lemma TradedSnoc(ms: seq<Message>, m: Message, tradeType: char, side: char, same: bool)
    ensures Traded(ms + [m], tradeType, side, same) ==
            Traded(ms, tradeType, side, same) +
            if Record(ms + [m], |ms|) && m.tradeType == tradeType && (m.side == side) == same then m.Contracts() else 0
  {
    assert (ms + [m])[..|ms|] == ms;
  }

  /** What one more record adds to both sums is what the code adds. */
  lemma ChangesSum(ms: seq<Message>, m: Message)
    ensures Puts(ms + [m]) == Puts(ms) + if Record(ms + [m], |ms|) then m.PutChange() else 0
    ensures Calls(ms + [m]) == Calls(ms) + if Record(ms + [m], |ms|) then m.CallChange() else 0
  {
    hide Record, Traded, Message.Contracts;
    TradedSnoc(ms, m, 'P', 'B', true);
    TradedSnoc(ms, m, 'P', 'B', false);
    TradedSnoc(ms, m, 'C', 'S', true);
    TradedSnoc(ms, m, 'C', 'S', false);
  }

  /** The largest id of a notification. */
  predicate IsLargest(ms: seq<Message>, id: Word64) {
    && (forall i :: 0 <= i < |ms| && IsNotification(ms[i]) ==> ms[i].Id() <= id)
    && (id == 0 || exists i :: 0 <= i < |ms| && IsNotification(ms[i]) && ms[i].Id() == id)
  }

  lemma LargestStep(ms: seq<Message>, m: Message, id: Word64)
    requires IsLargest(ms, id)
    ensures Record(ms + [m], |ms|) <==> IsNotification(m) && m.Id() > id
    ensures IsLargest(ms + [m], if IsNotification(m) && m.Id() > id then m.Id() else id)
  {
    var all := ms + [m];
    assert all[|ms|] == m && forall i :: 0 <= i < |ms| ==> all[i] == ms[i];
    if id != 0 {
      var i :| 0 <= i < |ms| && IsNotification(ms[i]) && ms[i].Id() == id;
      assert IsNotification(all[i]) && all[i].Id() == id;
    }
  }

  lemma CountAgrees(s: State, id: Word64, dn: int, dp: int, dc: int, n: int, p: int, c: int)
    requires s.contractsProcessed == ToWord(n) && s.putsCount == Wrap32(p) && s.callsCount == Wrap32(c)
    ensures Count(s, id, dn, dp, dc) == State(id, ToWord(n + dn), Wrap32(p + dp), Wrap32(c + dc))
  {
  }

  /** `s` is what the stream leaves: its largest id, and its sums modulo 2^32. */
  predicate Totals(s: State, ms: seq<Message>) {
    && IsLargest(ms, s.oldMessageId)
    && s.contractsProcessed == ToWord(Contracts(ms))
    && s.putsCount == Wrap32(Puts(ms)) && s.callsCount == Wrap32(Calls(ms))
  }

  lemma ContractsSnoc(ms: seq<Message>, m: Message)
    ensures Contracts(ms + [m]) == Contracts(ms) + if Record(ms + [m], |ms|) then m.Contracts() else 0
  {
    assert (ms + [m])[..|ms|] == ms;
  }

  lemma TotalsStep(s: State, ms: seq<Message>, m: Message)
    requires Totals(s, ms)
    ensures Totals(Step(s, m), ms + [m])
  {
    hide Record, Contracts, Puts, Calls, IsLargest, ToWord, Wrap32;
    hide Message.Contracts, Message.Id, Message.PutChange, Message.CallChange;
    LargestStep(ms, m, s.oldMessageId);
    ContractsSnoc(ms, m);
    ChangesSum(ms, m);
    if Record(ms + [m], |ms|) {
      CountAgrees(s, m.Id(), m.Contracts(), m.PutChange(), m.CallChange(), Contracts(ms), Puts(ms), Calls(ms));
    }
  }

  /** A message is accepted exactly if it is a record; the counters hold the sums over the records, modulo 2^32. */
  lemma {:induction false} RunTotals(ms: seq<Message>)
    ensures IsLargest(ms, Run(START, ms).oldMessageId)
    ensures Run(START, ms).contractsProcessed == ToWord(Contracts(ms))
    ensures Run(START, ms).putsCount == Wrap32(Puts(ms)) && Run(START, ms).callsCount == Wrap32(Calls(ms))
  {
    if ms != [] {
      var before, m := ms[..|ms| - 1], ms[|ms| - 1];
      RunTotals(before);
      hide Step, Contracts, Puts, Calls, IsLargest, ToWord, Wrap32;
      TotalsStep(Run(START, before), before, m);
      assert before + [m] == ms;
    }
  }

  lemma AcceptedExactly(ms: seq<Message>, m: Message)
    ensures Step(Run(START, ms), m).oldMessageId != Run(START, ms).oldMessageId <==> Record(ms + [m], |ms|)
    ensures Step(Run(START, ms), m) != Run(START, ms) ==> Record(ms + [m], |ms|)
  {
    RunTotals(ms);
    LargestStep(ms, m, Run(START, ms).oldMessageId);
  }

  /** Every contract is counted at most once as a put or a call. */
  lemma {:induction false} CountsWithinTotal(ms: seq<Message>)
    ensures Abs(Puts(ms)) + Abs(Calls(ms)) <= Contracts(ms)
  {
    if ms != [] {
      var before, m := ms[..|ms| - 1], ms[|ms| - 1];
      assert before + [m] == ms;
      CountsWithinTotal(before);
      ChangesSum(before, m);
    }
  }

  /** Each counter is exact precisely if its sum fits its type; a total below 2^31 makes all three exact and
      bounds the two counts. */
  lemma CountersExact(ms: seq<Message>)
    ensures Run(START, ms).contractsProcessed == Contracts(ms) <==> Contracts(ms) < TWO_32
    ensures Run(START, ms).putsCount == Puts(ms) <==> FitsInt(Puts(ms))
    ensures Run(START, ms).callsCount == Calls(ms) <==> FitsInt(Calls(ms))
    ensures Contracts(ms) < 0x8000_0000 ==> var s := Run(START, ms);
            && s.contractsProcessed == Contracts(ms) && s.putsCount == Puts(ms) && s.callsCount == Calls(ms)
            && Abs(s.putsCount) + Abs(s.callsCount) <= s.contractsProcessed
  {
    RunTotals(ms);
    CountsWithinTotal(ms);
    if Contracts(ms) < TWO_32 { WordSmall(Contracts(ms)); }
    if FitsInt(Puts(ms)) { WrapSmall(Puts(ms)); }
    if FitsInt(Calls(ms)) { WrapSmall(Calls(ms)); }
  }

  /** Messages that do not exceed the last accepted id change nothing. */
  lemma {:induction false} StaleStream(s: State, late: seq<Message>)
    requires forall i :: 0 <= i < |late| && late[i].Passes() ==> late[i].Id() <= s.oldMessageId
    ensures Run(s, late) == s
  {
    if late != [] {
      StaleStream(s, late[..|late| - 1]);
    }
  }

  lemma {:induction false} RunConcat(s: State, ms: seq<Message>, more: seq<Message>)
    ensures Run(s, ms + more) == Run(Run(s, ms), more)
  {
    if more == [] {
      assert ms + more == ms;
    } else {
      var all, front, last := ms + more, more[..|more| - 1], more[|more| - 1];
      RunConcat(s, ms, front);
      assert all[..|all| - 1] == ms + front && all[|all| - 1] == last;
      assert Run(s, all) == Step(Run(s, ms + front), last);
    }
  }

  /** Replaying a stream, or any messages of it in any order, changes no state. */
  lemma ReplayChangesNothing(ms: seq<Message>, again: seq<Message>)
    requires forall m :: m in again ==> m in ms
    ensures Run(START, ms + again) == Run(START, ms)
  {
    RunTotals(ms);
    RunConcat(START, ms, again);
    forall i | 0 <= i < |again| && again[i].Passes()
      ensures again[i].Id() <= Run(START, ms).oldMessageId
    {
      assert again[i] in ms;
      var j :| 0 <= j < |ms| && ms[j] == again[i];
    }
    StaleStream(Run(START, ms), again);
  }

  // ---- risk ----

  lemma WordSmall(i: int)
    requires 0 <= i < TWO_32
    ensures ToWord(i) == i
  {
  }

  /** Distance from which the risk no longer fits an int. */
  function RiskLimit(long: bool, maker: bool): int {
    (if long then 0x1000_0000 else 0x2000_0000) + (if maker then 1 else 0)
  }

  /** The distance as a 32-bit subtraction leaves it: measured the short way round. */
  function Folded(d: int): int { if Abs(d) > 0x8000_0000 then TWO_32 - Abs(d) else Abs(d) }

  lemma WrapShift(x: int, k: int)
    ensures Wrap32(x + TWO_32 * k) == Wrap32(x)
  {
    AddMultiple(x, TWO_32, k);
  }

  /** The wrapped volume is the folded distance, up to 2^32. */
  lemma VolumeIs(d: int)
    requires -0x10000 < d < TWO_32
    ensures Volume(d) == Folded(d) || Volume(d) == Folded(d) - TWO_32
  {
    if FitsInt(d) {
      WrapSmall(d);
      WrapSmall(0 - d);
    } else {
      WrapShift(d, -1);
      WrapSmall(d - TWO_32);
      if d > 0x8000_0000 {
        WrapSmall(TWO_32 - d);
      }
    }
  }

  lemma WrapScaled(v: int, vol: int)
    requires vol == v || vol == v - TWO_32
    ensures Wrap32(4 * vol) == Wrap32(4 * v)
  {
    if vol != v {
      assert 4 * vol == 4 * v + TWO_32 * (-4);
      WrapShift(4 * v, -4);
    }
  }

  lemma WrapDoubled(x: int)
    ensures Wrap32(Wrap32(x) + Wrap32(x)) == Wrap32(2 * x)
  {
    WrapLate(x, Wrap32(x));
    WrapLate(x, x);
  }

  lemma RiskFromIs(v: int, vol: int, long: bool, maker: bool)
    requires vol == v || vol == v - TWO_32
    ensures RiskFrom(vol, long, maker) == Wrap32((if long then 8 else 4) * v - (if maker then 2 else 0))
  {
    var x, y := 4 * v, 8 * v;
    WrapScaled(v, vol);
    if long {
      WrapDoubled(x);
      assert 2 * x == y;
      WrapLate(y, -2);
    } else {
      WrapLate(x, -2);
    }
  }

  /** Wrapping at every step or once at the end. */
  lemma WrapOnce(price: int, strike: int, long: bool, maker: bool)
    requires 0 <= price < TWO_32 && 0 <= strike < 0x10000
    ensures WrappedRisk(price, strike, long, maker) ==
            Wrap32((if long then 8 else 4) * Folded(price - strike) - (if maker then 2 else 0))
  {
    VolumeIs(price - strike);
    RiskFromIs(Folded(price - strike), Volume(price - strike), long, maker);
  }

  lemma ExactRiskFits(price: int, strike: int, long: bool, maker: bool)
    ensures FitsInt(ExactRisk(price, strike, long, maker)) <==> Abs(price - strike) < RiskLimit(long, maker)
  {
  }

  /** The risk is computed exactly precisely for distances below the limit. */
  lemma RiskExact(price: int, strike: int, long: bool, maker: bool)
    requires 0 <= price < TWO_32 && 0 <= strike < 0x10000
    ensures WrappedRisk(price, strike, long, maker) == ExactRisk(price, strike, long, maker)
            <==> Abs(price - strike) < RiskLimit(long, maker)
  {
    ExactRiskFits(price, strike, long, maker);
    if Abs(price - strike) < RiskLimit(long, maker) {
      WrapOnce(price, strike, long, maker);
      WrapSmall(ExactRisk(price, strike, long, maker));
    }
  }

  /** Largest distance below the threshold, and the period after which the wrapped risk repeats. */
  function SafeDistance(long: bool): int { if long then 12 else 25 }

  function Period(long: bool): nat { if long then 0x2000_0000 else 0x4000_0000 }

  lemma Repeats(v: int, long: bool, maker: bool)
    ensures var f, m := if long then 8 else 4, if maker then 2 else 0;
            Wrap32(f * v - m) == Wrap32(f * (v % Period(long)) - m)
  {
    var f, m := if long then 8 else 4, if maker then 2 else 0;
    var k, u := v / Period(long), v % Period(long);
    assert v == Period(long) * k + u;
    assert f * v - m == f * u - m + TWO_32 * k;
    WrapShift(f * u - m, k);
  }

  lemma OverThreshold(u: int, long: bool, maker: bool)
    requires 0 <= u < Period(long)
    ensures Wrap32((if long then 8 else 4) * u - (if maker then 2 else 0)) > RISK_THRESHOLD
            <==> SafeDistance(long) < u < RiskLimit(long, maker)
  {
    var x := (if long then 8 else 4) * u - (if maker then 2 else 0);
    if FitsInt(x) {
      WrapSmall(x);
    } else {
      WrapShift(x, -1);
      WrapSmall(x - TWO_32);
    }
  }

  /** When the flag is raised, and when it should be: the distance counts only modulo 2^30, or 2^29 for long
      expirations. */
  lemma FlagExactly(price: int, strike: int, long: bool, maker: bool)
    requires 0 <= price < TWO_32 && 0 <= strike < 0x10000
    ensures WrappedRisk(price, strike, long, maker) > RISK_THRESHOLD <==>
            SafeDistance(long) < Folded(price - strike) % Period(long) < RiskLimit(long, maker)
    ensures ExactRisk(price, strike, long, maker) > RISK_THRESHOLD <==> Abs(price - strike) > SafeDistance(long)
  {
    var v := Folded(price - strike);
    WrapOnce(price, strike, long, maker);
    Repeats(v, long, maker);
    OverThreshold(v % Period(long), long, maker);
  }

  /** Below the limit the computed risk exceeds the threshold exactly if the exact one does; at the limit
      only the exact one does. */
  predicate FlagRule(risk: int, exact: int, distance: int, limit: int) {
    && (distance < limit ==> (risk > RISK_THRESHOLD <==> exact > RISK_THRESHOLD))
    && (distance == limit ==> exact > RISK_THRESHOLD >= risk)
  }

  /** The flag is right below the limit and missed at the limit itself. */
  lemma FlagUpToLimit(price: int, strike: int, long: bool, maker: bool)
    requires 0 <= price < TWO_32 && 0 <= strike < 0x10000
    ensures FlagRule(WrappedRisk(price, strike, long, maker), ExactRisk(price, strike, long, maker),
                     Abs(price - strike), RiskLimit(long, maker))
  {
    FlagExactly(price, strike, long, maker);
    SmallRemainder(Abs(price - strike), Period(long));
  }

  lemma SmallRemainder(x: nat, p: nat)
    requires p > 0
    ensures x < p ==> x % p == x
  {
  }

  /** So process_execution tests the exact risk of every message below the limit, and misses it at the limit. */
  lemma FlagOfMessage(m: Message)
    ensures FlagRule(RiskOf(m), ExactRiskOf(m), m.Distance(), RiskLimit(m.Long(), m.Maker())) == true
  {
    var price: Word32, strike: int, long, maker := m.Price(), m.Strike(), m.Long(), m.Maker();
    var rule := FlagRule(WrappedRisk(price, strike, long, maker), ExactRisk(price, strike, long, maker),
                         Abs(price - strike), RiskLimit(long, maker));
    assert rule by {
      FlagUpToLimit(price, strike, long, maker);
    }
  }

  /** The same in numbers: four times the distance between price and strike, doubled if more than 10 to expiration,
      less 2 for a liquidity maker, is tested against 100 as long as it fits an int. */
  lemma FlagInNumbers(m: Message)
    ensures var distance := Abs(m.Price() - m.Strike());
            var risk := (if m.Expiration() > 10 then 8 else 4) * distance - (if m.liquidity == 1 then 2 else 0);
            risk < 0x8000_0000 ==> (RiskOf(m) > 100 <==> risk > 100)
  {
    hide RiskOf, Message.Price, Message.Strike, Message.Expiration;
    FlagOfMessage(m);
  }

  /** A distance of 2^30 is missed altogether. */
  lemma RiskWraps(long: bool)
    ensures ExactRisk(0x4000_0000, 0, long, false) > RISK_THRESHOLD && WrappedRisk(0x4000_0000, 0, long, false) == 0
  {
  }
}
