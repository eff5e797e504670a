/** The producer of the compact profile: numbered trades, quotes and books, and on every
    trade the running totals of all trades. */
module Producer {
  import opened Bytes
  import opened Messages
  import opened ShmRing
  import opened SenderReader

  const TWO_32 := 0x1_0000_0000
  const TWO_64 := 0x1_0000_0000_0000_0000

  datatype Kind = TradeOnly | BboOnly | BookOnly | Mixed

  // The three record types, with their numbers on the wire.
  const TRADE: Byte := 1
  const BBO: Byte := 2
  const BOOK: Byte := 3

  // When the n-th message arose and when it was stamped.
  datatype Clock = Clock(exchange: nat -> nat, send: nat -> nat)

  datatype Totals = Totals(quantity: nat, notional: nat, trades: nat)

  datatype ProducerState = ProducerState(seqNo: nat, totals: Totals, log: seq<Frame>)

  function TypeOf(kind: Kind, seqNo: nat): Byte {
    match kind
    case TradeOnly => TRADE
    case BboOnly => BBO
    case BookOnly => BOOK
    case Mixed => if seqNo % 3 == 0 then TRADE else if seqNo % 3 == 1 then BBO else BOOK
  }

  function MidPrice(seqNo: nat): nat {
    6_500_000 + (seqNo % 500) * 50
  }

  function Quantity(seqNo: nat): nat {
    1 + (seqNo % 100) * 10
  }

  // Tick direction in bits 5 and 6, aggressor side in bit 0.
  function TradeFlags(seqNo: nat): Byte {
    (seqNo % 4) * 32 + seqNo % 2
  }

  function AddTrade(t: Totals, seqNo: nat): Totals {
    Totals((t.quantity + Quantity(seqNo)) % TWO_64,
           (t.notional + MidPrice(seqNo) * Quantity(seqNo)) % TWO_64,
           (t.trades + 1) % TWO_64)
  }

  // ---------- The frames ----------

  // The 32 bits of send - exchange, in two's complement, and what they are as a signed number.
  function DeltaBits(send: nat, exchange: nat): nat {
    (send - exchange) % TWO_32
  }

  function Signed(bits: nat): int {
    if bits < TWO_32 / 2 then bits else bits - TWO_32
  }

  function Header(seqNo: nat, typ: Byte, flags: Byte, send: nat, exchange: nat): (h: seq<Byte>)
    ensures |h| == HEADER_SIZE
  {
    ToLE(seqNo, 8) + ToLE(send, 8) + ToLE(0, 2) + [typ] + [flags] + ToLE(DeltaBits(send, exchange), 4)
  }

  function TradeBody(seqNo: nat, t: Totals): (b: seq<Byte>)
    ensures |b| == 40
  {
    ToLE(100_000 + seqNo, 8) + ToLE(MidPrice(seqNo), 4) + ToLE(Quantity(seqNo), 4)
    + ToLE(t.quantity, 8) + ToLE(t.notional, 8) + ToLE(t.trades, 8)
  }

  // A row of 16-bit fields.
  function Row(fields: seq<nat>): (b: seq<Byte>)
    ensures |b| == 2 * |fields|
  {
    if fields == [] then [] else Row(fields[..|fields| - 1]) + ToLE(fields[|fields| - 1], 2)
  }

  // Spread, sizes and order counts of a quote; the last field is reserved.
  function QuoteFields(seqNo: nat): (r: seq<nat>)
    ensures |r| == 6
  {
    [100, 1500 + (seqNo % 50) * 100, 1500 + ((seqNo + 7) % 50) * 100, 3 + seqNo % 10, 3 + (seqNo + 3) % 10, 0]
  }

  function BboBody(seqNo: nat): (b: seq<Byte>)
    ensures |b| == 24
  {
    ToLE(900_000 + seqNo, 8) + ToLE(MidPrice(seqNo) - 50, 4) + Row(QuoteFields(seqNo))
  }

  function Offsets(): (r: seq<nat>)
    ensures |r| == 4
  {
    seq(4, i requires 0 <= i < 4 => (i + 1) * 100)
  }

  function Sizes(shifted: nat): (r: seq<nat>)
    ensures |r| == 5
  {
    seq(5, i requires 0 <= i < 5 => 1000 + ((shifted + i) % 40) * 100)
  }

  function Orders(shifted: nat): (r: seq<nat>)
    ensures |r| == 5
  {
    seq(5, i requires 0 <= i < 5 => 2 + (shifted + i) % 8)
  }

  // One side of the book; the asks are like the bids five messages later.
  function Side(top: nat, shifted: nat): (b: seq<Byte>)
    ensures |b| == 32
  {
    ToLE(top, 4) + Row(Offsets()) + Row(Sizes(shifted)) + Row(Orders(shifted))
  }

  function BookBody(seqNo: nat): (b: seq<Byte>)
    ensures |b| == 72
  {
    ToLE(900_000 + seqNo, 8) + Side(MidPrice(seqNo) - 50, seqNo) + Side(MidPrice(seqNo) + 50, seqNo + 5)
  }

  // The frame with number seqNo; t are the totals with this frame included.
  function Image(typ: Byte, seqNo: nat, t: Totals, send: nat, exchange: nat): Frame {
    if typ == TRADE then Header(seqNo, TRADE, TradeFlags(seqNo), send, exchange) + TradeBody(seqNo, t)
    else if typ == BBO then Header(seqNo, BBO, 0, send, exchange) + BboBody(seqNo)
    else Header(seqNo, BOOK, 16, send, exchange) + BookBody(seqNo)
  }

  function NextTotals(kind: Kind, t: Totals, n: nat): Totals {
    if TypeOf(kind, n) == TRADE then AddTrade(t, n) else t
  }

  function NextFrame(kind: Kind, clock: Clock, t: Totals, n: nat): Frame {
    Image(TypeOf(kind, n), n, t, clock.send(n), clock.exchange(n))
  }

  function Produce(kind: Kind, clock: Clock, s: ProducerState): ProducerState {
    var n := s.seqNo + 1;
    var t := NextTotals(kind, s.totals, n);
    ProducerState(n, t, s.log + [NextFrame(kind, clock, t, n)])
  }

  function Produced(kind: Kind, clock: Clock, n: nat): ProducerState {
    if n == 0 then ProducerState(0, Totals(0, 0, 0), [])
    else Produce(kind, clock, Produced(kind, clock, n - 1))
  }

  lemma ProducedSnoc(kind: Kind, clock: Clock, n: nat)
    ensures Produced(kind, clock, n + 1) == Produce(kind, clock, Produced(kind, clock, n))
  {
  }

  // How many messages rounds turns of the loop produce.
  function Reached(count: nat, rounds: nat): nat {
    if count == 0 || rounds < count then rounds else count
  }

  // ---------- What the fields say ----------

  lemma FieldAt(a: seq<Byte>, x: seq<Byte>, c: seq<Byte>)
    ensures (a + x + c)[|a|..|a| + |x|] == x
  {
  }

  lemma ToLEModulo(v: nat)
    ensures v < TWO_64 ==> FromLE(ToLE(v, 8)) == v
    ensures v < TWO_32 ==> FromLE(ToLE(v, 4)) == v
  {
    RangeValues();
    if v < TWO_64 {
      LERoundTrip(v, 8);
    }
    if v < TWO_32 {
      LERoundTrip(v, 4);
    }
  }

  // The header fields are where the readers of a frame look for them.
  lemma HeaderSays(seqNo: nat, typ: Byte, flags: Byte, send: nat, exchange: nat, body: seq<Byte>)
    ensures var f := Header(seqNo, typ, flags, send, exchange) + body;
            && f[..8] == ToLE(seqNo, 8) && f[8..16] == ToLE(send, 8)
            && f[18] == typ && f[20..24] == ToLE(DeltaBits(send, exchange), 4)
  {
    var h := Header(seqNo, typ, flags, send, exchange);
    assert h[..8] == ToLE(seqNo, 8);
    FieldAt(ToLE(seqNo, 8), ToLE(send, 8), ToLE(0, 2) + [typ] + [flags] + ToLE(DeltaBits(send, exchange), 4));
    assert h[8..16] == ToLE(send, 8);
    assert h[20..24] == ToLE(DeltaBits(send, exchange), 4);
  }

  lemma ImageIsValid(typ: Byte, seqNo: nat, t: Totals, send: nat, exchange: nat)
    requires typ == TRADE || typ == BBO || typ == BOOK
    requires seqNo < TWO_64
    ensures var f := Image(typ, seqNo, t, send, exchange);
            ValidFrame(Compact, f) && SeqId(f) == seqNo && f[18] == typ
  {
    ToLEModulo(seqNo);
    HeaderSays(seqNo, TRADE, TradeFlags(seqNo), send, exchange, TradeBody(seqNo, t));
    HeaderSays(seqNo, BBO, 0, send, exchange, BboBody(seqNo));
    HeaderSays(seqNo, BOOK, 16, send, exchange, BookBody(seqNo));
  }

  // ---------- The log ----------

  predicate Typed(kind: Kind, log: seq<Frame>) {
    forall i :: 0 <= i < |log| ==> |log[i]| >= HEADER_SIZE && log[i][18] == TypeOf(kind, i + 1)
  }

  lemma LogSnoc(kind: Kind, log: seq<Frame>, f: Frame)
    requires Numbered(Compact, log) && Typed(kind, log)
    requires ValidFrame(Compact, f) && SeqId(f) == |log| + 1 && f[18] == TypeOf(kind, |log| + 1)
    ensures Numbered(Compact, log + [f]) && Typed(kind, log + [f])
  {
  }

  lemma NextIsValid(kind: Kind, clock: Clock, t: Totals, n: nat)
    requires n < TWO_64
    ensures var f := NextFrame(kind, clock, t, n);
            ValidFrame(Compact, f) && SeqId(f) == n && f[18] == TypeOf(kind, n)
  {
    ImageIsValid(TypeOf(kind, n), n, t, clock.send(n), clock.exchange(n));
  }

  lemma NextIsNumbered(kind: Kind, clock: Clock, t: Totals, log: seq<Frame>, n: nat)
    requires Numbered(Compact, log) && Typed(kind, log) && n == |log| + 1 < TWO_64
    ensures Numbered(Compact, log + [NextFrame(kind, clock, t, n)])
    ensures Typed(kind, log + [NextFrame(kind, clock, t, n)])
  {
    NextIsValid(kind, clock, t, n);
    LogSnoc(kind, log, NextFrame(kind, clock, t, n));
  }

  predicate InOrder(kind: Kind, s: ProducerState) {
    s.seqNo == |s.log| && Numbered(Compact, s.log) && Typed(kind, s.log)
  }

  lemma ProduceInOrder(kind: Kind, clock: Clock, s: ProducerState)
    requires InOrder(kind, s) && s.seqNo + 1 < TWO_64
    ensures InOrder(kind, Produce(kind, clock, s))
  {
    NextIsNumbered(kind, clock, NextTotals(kind, s.totals, s.seqNo + 1), s.log, s.seqNo + 1);
  }

  lemma {:induction false} ProducedInOrder(kind: Kind, clock: Clock, n: nat, s: ProducerState)
    requires n < TWO_64 && s == Produced(kind, clock, n)
    ensures InOrder(kind, s) && s.seqNo == n
  {
    if n == 0 {
    } else {
      var before := Produced(kind, clock, n - 1);
      ProducedInOrder(kind, clock, n - 1, before);
      ProduceInOrder(kind, clock, before);
      ProducedSnoc(kind, clock, n - 1);
    }
  }

  lemma ProducedIsNumbered(kind: Kind, clock: Clock, n: nat)
    requires n < TWO_64
    ensures InOrder(kind, Produced(kind, clock, n)) && Produced(kind, clock, n).seqNo == n
  {
    ProducedInOrder(kind, clock, n, Produced(kind, clock, n));
  }

  // ---------- Totals that survive loss ----------

  datatype Measure = Quantities | Notional | Trades

  predicate IsTrade(f: Frame) {
    |f| == 64 && f[18] == TRADE
  }

  // What a trade adds to a total, from its own price and quantity.
  function Weight(m: Measure, f: Frame): nat {
    if !IsTrade(f) then 0
    else
      match m
      case Quantities => FromLE(f[36..40])
      case Notional => FromLE(f[32..36]) * FromLE(f[36..40])
      case Trades => 1
  }

  // The total a trade carries.
  function Carried(m: Measure, f: Frame): nat
    requires IsTrade(f)
  {
    match m
    case Quantities => FromLE(f[40..48])
    case Notional => FromLE(f[48..56])
    case Trades => FromLE(f[56..64])
  }

  function Total(m: Measure, log: seq<Frame>): nat {
    if log == [] then 0 else Total(m, log[..|log| - 1]) + Weight(m, log[|log| - 1])
  }

  function Of(m: Measure, t: Totals): nat {
    match m
    case Quantities => t.quantity
    case Notional => t.notional
    case Trades => t.trades
  }

  lemma TotalSnoc(m: Measure, log: seq<Frame>, f: Frame)
    ensures Total(m, log + [f]) == Total(m, log) + Weight(m, f)
  {
    assert (log + [f])[..|log|] == log;
  }

  lemma {:induction false} TotalAppend(m: Measure, a: seq<Frame>, b: seq<Frame>)
    ensures Total(m, a + b) == Total(m, a) + Total(m, b)
  {
    if b == [] {
      assert a + b == a;
    } else {
      var init := b[..|b| - 1];
      TotalAppend(m, a, init);
      TotalSnoc(m, a + init, b[|b| - 1]);
      assert a + b == (a + init) + [b[|b| - 1]];
    }
  }

  lemma TradeBodySays(seqNo: nat, t: Totals, h: seq<Byte>)
    requires |h| == HEADER_SIZE
    ensures var f := h + TradeBody(seqNo, t);
            && f[24..32] == ToLE(100_000 + seqNo, 8)
            && f[32..36] == ToLE(MidPrice(seqNo), 4) && f[36..40] == ToLE(Quantity(seqNo), 4)
            && f[40..48] == ToLE(t.quantity, 8) && f[48..56] == ToLE(t.notional, 8)
            && f[56..64] == ToLE(t.trades, 8)
  {
    var b := TradeBody(seqNo, t);
    var f := h + b;
    assert b[..8] == ToLE(100_000 + seqNo, 8);
    assert b[8..12] == ToLE(MidPrice(seqNo), 4);
    assert b[12..16] == ToLE(Quantity(seqNo), 4);
    assert b[16..24] == ToLE(t.quantity, 8);
    assert b[24..32] == ToLE(t.notional, 8);
    assert b[32..40] == ToLE(t.trades, 8);
    assert f[24..32] == b[..8];
  }

  predicate Bounded(t: Totals) {
    t.quantity < TWO_64 && t.notional < TWO_64 && t.trades < TWO_64
  }

  lemma TradeReads(seqNo: nat, t: Totals, send: nat, exchange: nat)
    requires Bounded(t)
    ensures var f := Image(TRADE, seqNo, t, send, exchange);
            && IsTrade(f)
            && FromLE(f[32..36]) == MidPrice(seqNo) && FromLE(f[36..40]) == Quantity(seqNo)
            && forall m :: Carried(m, f) == Of(m, t)
  {
    var h := Header(seqNo, TRADE, TradeFlags(seqNo), send, exchange);
    TradeBodySays(seqNo, t, h);
    HeaderSays(seqNo, TRADE, TradeFlags(seqNo), send, exchange, TradeBody(seqNo, t));
    ToLEModulo(MidPrice(seqNo));
    ToLEModulo(Quantity(seqNo));
    ToLEModulo(t.quantity);
    ToLEModulo(t.notional);
    ToLEModulo(t.trades);
  }

  // A trade frame carries the totals it was built with, and adds its own price and quantity.
  lemma TradeSays(m: Measure, seqNo: nat, before: Totals, send: nat, exchange: nat)
    ensures var t := AddTrade(before, seqNo);
            var f := Image(TRADE, seqNo, t, send, exchange);
            && IsTrade(f) && Carried(m, f) == Of(m, t)
            && Of(m, t) == (Of(m, before) + Weight(m, f)) % TWO_64
  {
    TradeReads(seqNo, AddTrade(before, seqNo), send, exchange);
    match m
    case Quantities =>
    case Notional =>
    case Trades =>
  }

  // The greatest price and quantity a trade can have.
  const MAX_PRICE := 6_524_950
  const MAX_QUANTITY := 991
  const MAX_NOTIONAL := 6_466_225_450

  // So many trades of any size cannot overflow a 64-bit total.
  const MAX_TRADES := 2_852_783_933

  function MaxWeight(m: Measure): nat {
    match m
    case Quantities => MAX_QUANTITY
    case Notional => MAX_NOTIONAL
    case Trades => 1
  }

  lemma ProductBound(a: nat, b: nat, p: nat, q: nat)
    requires a <= p && b <= q
    ensures a * b <= p * q
  {
    assert a * b <= p * b;
    assert p * b <= p * q;
  }

  lemma TradeIsBounded(m: Measure, seqNo: nat, t: Totals, send: nat, exchange: nat)
    requires Bounded(t)
    ensures var f := Image(TRADE, seqNo, t, send, exchange);
            IsTrade(f) && Weight(m, f) <= MaxWeight(m)
  {
    TradeReads(seqNo, t, send, exchange);
    ProductBound(MidPrice(seqNo), Quantity(seqNo), MAX_PRICE, MAX_QUANTITY);
  }

  predicate Light(m: Measure, log: seq<Frame>) {
    forall i :: 0 <= i < |log| ==> Weight(m, log[i]) <= MaxWeight(m)
  }

  lemma LightPiece(m: Measure, log: seq<Frame>, a: nat, b: nat)
    requires Light(m, log) && a <= b <= |log|
    ensures Light(m, log[a..b])
  {
    var piece := log[a..b];
    forall i | 0 <= i < |piece| ensures Weight(m, piece[i]) <= MaxWeight(m) {
      assert piece[i] == log[a + i];
    }
  }

  // The totals are those of the log, and so is what each trade in it carries.
  ghost predicate Running(m: Measure, t: Totals, log: seq<Frame>) {
    && Of(m, t) == Total(m, log) % TWO_64
    && Light(m, log)
    && forall i :: 0 <= i < |log| && IsTrade(log[i]) ==> Carried(m, log[i]) == Total(m, log[..i + 1]) % TWO_64
  }

  lemma AddModulo(a: nat, b: nat, w: nat)
    requires a == b % TWO_64
    ensures (a + w) % TWO_64 == (b + w) % TWO_64
  {
    assert b + w == (a + w) + (b / TWO_64) * TWO_64;
  }

  lemma RunningSnoc(m: Measure, t: Totals, log: seq<Frame>, f: Frame, t': Totals)
    requires Running(m, t, log) && Weight(m, f) <= MaxWeight(m)
    requires Of(m, t') == (Of(m, t) + Weight(m, f)) % TWO_64
    requires IsTrade(f) ==> Carried(m, f) == Of(m, t')
    ensures Running(m, t', log + [f])
  {
    TotalSnoc(m, log, f);
    AddModulo(Of(m, t), Total(m, log), Weight(m, f));
    var more := log + [f];
    forall i | 0 <= i < |more| && IsTrade(more[i]) ensures Carried(m, more[i]) == Total(m, more[..i + 1]) % TWO_64 {
      if i < |log| {
        assert more[..i + 1] == log[..i + 1];
      } else {
        assert more[..i + 1] == more;
      }
    }
  }

  lemma NotATrade(m: Measure, typ: Byte, seqNo: nat, t: Totals, send: nat, exchange: nat)
    requires typ == BBO || typ == BOOK
    ensures !IsTrade(Image(typ, seqNo, t, send, exchange))
  {
  }

  lemma TradeKeepsRunning(m: Measure, t: Totals, log: seq<Frame>, seqNo: nat, send: nat, exchange: nat)
    requires Running(m, t, log)
    ensures var t' := AddTrade(t, seqNo);
            Running(m, t', log + [Image(TRADE, seqNo, t', send, exchange)])
  {
    var t' := AddTrade(t, seqNo);
    TradeSays(m, seqNo, t, send, exchange);
    TradeIsBounded(m, seqNo, t', send, exchange);
    RunningSnoc(m, t, log, Image(TRADE, seqNo, t', send, exchange), t');
  }

  lemma OtherKeepsRunning(m: Measure, t: Totals, log: seq<Frame>, typ: Byte, seqNo: nat, send: nat, exchange: nat)
    requires Running(m, t, log) && (typ == BBO || typ == BOOK)
    ensures Running(m, t, log + [Image(typ, seqNo, t, send, exchange)])
  {
    NotATrade(m, typ, seqNo, t, send, exchange);
    Remainder(Total(m, log));
    RunningSnoc(m, t, log, Image(typ, seqNo, t, send, exchange), t);
  }

  lemma NextKeepsRunning(m: Measure, kind: Kind, clock: Clock, t: Totals, log: seq<Frame>, n: nat)
    requires Running(m, t, log)
    ensures Running(m, NextTotals(kind, t, n), log + [NextFrame(kind, clock, NextTotals(kind, t, n), n)])
  {
    if TypeOf(kind, n) == TRADE {
      TradeKeepsRunning(m, t, log, n, clock.send(n), clock.exchange(n));
      assert NextTotals(kind, t, n) == AddTrade(t, n);
    } else {
      OtherKeepsRunning(m, t, log, TypeOf(kind, n), n, clock.send(n), clock.exchange(n));
      assert NextTotals(kind, t, n) == t;
    }
  }

  ghost predicate RunningIn(m: Measure, s: ProducerState) {
    Running(m, s.totals, s.log)
  }

  lemma ProduceKeepsRunning(m: Measure, kind: Kind, clock: Clock, s: ProducerState)
    requires RunningIn(m, s)
    ensures RunningIn(m, Produce(kind, clock, s))
  {
    NextKeepsRunning(m, kind, clock, s.totals, s.log, s.seqNo + 1);
  }

  lemma {:induction false} SumsAreRunning(m: Measure, kind: Kind, clock: Clock, n: nat, s: ProducerState)
    requires s == Produced(kind, clock, n)
    ensures RunningIn(m, s)
  {
    if n == 0 {
    } else {
      var before := Produced(kind, clock, n - 1);
      SumsAreRunning(m, kind, clock, n - 1, before);
      ProducedSnoc(kind, clock, n - 1);
      assert s == Produce(kind, clock, before);
      ProduceKeepsRunning(m, kind, clock, before);
    }
  }

  lemma TotalsAreRunning(m: Measure, kind: Kind, clock: Clock, n: nat)
    ensures Running(m, Produced(kind, clock, n).totals, Produced(kind, clock, n).log)
  {
    SumsAreRunning(m, kind, clock, n, Produced(kind, clock, n));
  }

  lemma Remainder(x: nat)
    ensures (x % TWO_64) % TWO_64 == x % TWO_64
  {
  }

  lemma {:induction false} TotalBound(m: Measure, log: seq<Frame>)
    requires Light(m, log)
    ensures Total(m, log) <= Total(Trades, log) * MaxWeight(m)
  {
    if log == [] {
    } else {
      LightPiece(m, log, 0, |log| - 1);
      TotalBound(m, log[..|log| - 1]);
      var f := log[|log| - 1];
      assert !IsTrade(f) ==> Weight(m, f) == 0;
    }
  }

  lemma FewTradesFit(m: Measure, log: seq<Frame>)
    requires Light(m, log)
    requires Total(Trades, log) <= MAX_TRADES
    ensures Total(m, log) < TWO_64
  {
    TotalBound(m, log);
    ProductBound(Total(Trades, log), MaxWeight(m), MAX_TRADES, MAX_NOTIONAL);
  }

  lemma DifferenceModulo(a: nat, b: nat, d: nat)
    requires b == a + d
    ensures (b % TWO_64 - a % TWO_64) % TWO_64 == d % TWO_64
  {
    var k := b / TWO_64 - a / TWO_64;
    assert b % TWO_64 - a % TWO_64 == d - k * TWO_64;
  }

  lemma TotalSplit(m: Measure, log: seq<Frame>, a: nat, b: nat)
    requires a <= b <= |log|
    ensures Total(m, log[..b]) == Total(m, log[..a]) + Total(m, log[a..b])
  {
    assert log[..b] == log[..a] + log[a..b];
    TotalAppend(m, log[..a], log[a..b]);
  }

  // Modulo 2^64 what is between two positions is the difference of the totals there; it is
  // the difference itself if few trades are between.
  lemma PieceTotal(m: Measure, log: seq<Frame>, a: nat, b: nat)
    requires Light(m, log) && a <= b <= |log|
    ensures var difference := (Total(m, log[..b]) % TWO_64 - Total(m, log[..a]) % TWO_64) % TWO_64;
            && difference == Total(m, log[a..b]) % TWO_64
            && (Total(Trades, log[a..b]) <= MAX_TRADES ==> difference == Total(m, log[a..b]))
  {
    TotalSplit(m, log, a, b);
    DifferenceModulo(Total(m, log[..a]), Total(m, log[..b]), Total(m, log[a..b]));
    if Total(Trades, log[a..b]) <= MAX_TRADES {
      LightPiece(m, log, a, b);
      FewTradesFit(m, log[a..b]);
    }
  }

  // The totals that two trades carry differ, modulo 2^64, by what the piece of the log that
  // ends with the second adds up to, and exactly by that if few trades are in it.
  predicate Recovers(m: Measure, first: Frame, second: Frame, piece: seq<Frame>)
    requires IsTrade(first) && IsTrade(second)
  {
    var difference := (Carried(m, second) - Carried(m, first)) % TWO_64;
    && difference == Total(m, piece) % TWO_64
    && (Total(Trades, piece) <= MAX_TRADES ==> difference == Total(m, piece))
  }

  lemma RunningDifference(m: Measure, t: Totals, log: seq<Frame>, i: nat, j: nat)
    requires Running(m, t, log) && i < j < |log| && IsTrade(log[i]) && IsTrade(log[j])
    ensures Recovers(m, log[i], log[j], log[i + 1..j + 1])
  {
    PieceTotal(m, log, i + 1, j + 1);
  }

  lemma PrefixFits(m: Measure, log: seq<Frame>, b: nat)
    requires Light(m, log) && b <= |log| && Total(Trades, log[..b]) <= MAX_TRADES
    ensures Total(m, log[..b]) % TWO_64 == Total(m, log[..b])
  {
    LightPiece(m, log, 0, b);
    var piece := log[..b];
    assert log[0..b] == piece;
    FewTradesFit(m, piece);
  }

  lemma RunningFits(m: Measure, t: Totals, log: seq<Frame>, j: nat)
    requires Running(m, t, log) && j < |log| && IsTrade(log[j])
    requires Total(Trades, log[..j + 1]) <= MAX_TRADES
    ensures Carried(m, log[j]) == Total(m, log[..j + 1])
  {
    PrefixFits(m, log, j + 1);
  }

  // Whatever happened to the frames between two trades, the totals they carry give what all
  // trades generated after the first, up to the second, add up to.
  lemma TotalsSurviveLoss(m: Measure, kind: Kind, clock: Clock, n: nat, log: seq<Frame>, i: nat, j: nat)
    requires log == Produced(kind, clock, n).log
    requires i < j < |log| && IsTrade(log[i]) && IsTrade(log[j])
    ensures Recovers(m, log[i], log[j], log[i + 1..j + 1])
  {
    TotalsAreRunning(m, kind, clock, n);
    RunningDifference(m, Produced(kind, clock, n).totals, log, i, j);
  }

  // Up to MAX_TRADES trades in all, no total has wrapped around.
  lemma TotalsDoNotWrap(m: Measure, kind: Kind, clock: Clock, n: nat, log: seq<Frame>, j: nat)
    requires log == Produced(kind, clock, n).log
    requires j < |log| && IsTrade(log[j])
    requires Total(Trades, log[..j + 1]) <= MAX_TRADES
    ensures Carried(m, log[j]) == Total(m, log[..j + 1])
  {
    TotalsAreRunning(m, kind, clock, n);
    RunningFits(m, Produced(kind, clock, n).totals, log, j);
  }

  // ---------- The exchange time ----------

  // exchange_ts_ns(header), in unsigned 64-bit arithmetic.
  function ExchangeTime(header: seq<Byte>): nat
    requires |header| >= HEADER_SIZE
  {
    var delta := Signed(FromLE(header[20..24]));
    var send := FromLE(header[8..16]);
    if delta >= 0 then (send - delta) % TWO_64 else (send + (-delta)) % TWO_64
  }

  lemma SignedDelta(send: nat, exchange: nat)
    ensures -TWO_32 / 2 <= Signed(DeltaBits(send, exchange)) < TWO_32 / 2
    ensures exists k: int :: send - exchange == Signed(DeltaBits(send, exchange)) + k * TWO_32
    ensures Signed(DeltaBits(send, exchange)) == send - exchange <==> -TWO_32 / 2 <= send - exchange < TWO_32 / 2
  {
    var d := send - exchange;
    var k := d / TWO_32;
    assert d == d % TWO_32 + k * TWO_32;
    assert d == Signed(d % TWO_32) + k * TWO_32 || d == Signed(d % TWO_32) + (k + 1) * TWO_32;
  }

  // The exchange time comes back exactly when the difference fits the 32-bit field.
  lemma ExchangeTimeRoundTrip(seqNo: nat, typ: Byte, flags: Byte, send: nat, exchange: nat, body: seq<Byte>)
    requires send < TWO_64 / 2 && exchange < TWO_64 / 2
    ensures ExchangeTime(Header(seqNo, typ, flags, send, exchange) + body) == exchange <==>
            -TWO_32 / 2 <= send - exchange < TWO_32 / 2
  {
    HeaderSays(seqNo, typ, flags, send, exchange, body);
    ToLEModulo(send);
    ToLEModulo(DeltaBits(send, exchange));
    SignedDelta(send, exchange);
    var delta := Signed(DeltaBits(send, exchange));
    if delta != send - exchange {
      assert -TWO_64 < send - delta - exchange < TWO_64;
      DistinctModulo(send - delta, exchange);
    }
  }

  lemma DistinctModulo(a: int, b: nat)
    requires b < TWO_64 && a != b && -TWO_64 < a - b < TWO_64
    ensures a % TWO_64 != b
  {
  }

  // ---------- What the messages say ----------

  predicate TypeAndSize(f: Frame, typ: Byte, size: nat) {
    |f| == size && size > 18 && f[18] == typ
  }

  lemma ImageTypes(typ: Byte, seqNo: nat, t: Totals, send: nat, exchange: nat)
    ensures typ == 1 ==> TypeAndSize(Image(typ, seqNo, t, send, exchange), 1, 64)
    ensures typ == 2 ==> TypeAndSize(Image(typ, seqNo, t, send, exchange), 2, 48)
    ensures typ == 3 ==> TypeAndSize(Image(typ, seqNo, t, send, exchange), 3, 96)
  {
    HeaderSays(seqNo, TRADE, TradeFlags(seqNo), send, exchange, TradeBody(seqNo, t));
    HeaderSays(seqNo, BBO, 0, send, exchange, BboBody(seqNo));
    HeaderSays(seqNo, BOOK, 16, send, exchange, BookBody(seqNo));
  }

  lemma ShortField(v: nat)
    requires v < 0x1_0000
    ensures FromLE(ToLE(v, 2)) == v
  {
    RangeValues();
    LERoundTrip(v, 2);
  }

  lemma {:induction false} RowAt(fields: seq<nat>, k: nat)
    requires k < |fields|
    ensures Row(fields)[2 * k..2 * k + 2] == ToLE(fields[k], 2)
  {
    var n := |fields| - 1;
    if k == n {
    } else {
      RowAt(fields[..n], k);
      assert Row(fields)[2 * k..2 * k + 2] == Row(fields[..n])[2 * k..2 * k + 2];
    }
  }

  // The header fields that all messages have, with the stamp of the message.
  predicate SaysHeader(f: Frame, s: nat, flags: nat, send: nat) {
    && |f| >= 24 && FromLE(f[..8]) == s && FromLE(f[8..16]) == send
    && f[16..18] == [0, 0] && f[19] == flags
  }

  lemma HeaderInFull(seqNo: nat, typ: Byte, flags: Byte, send: nat, exchange: nat, body: seq<Byte>)
    requires seqNo < TWO_64 && send < TWO_64
    ensures SaysHeader(Header(seqNo, typ, flags, send, exchange) + body, seqNo, flags, send)
  {
    HeaderSays(seqNo, typ, flags, send, exchange, body);
    ToLEModulo(seqNo);
    ToLEModulo(send);
    var h := Header(seqNo, typ, flags, send, exchange);
    assert ToLE(0, 2) == [0, 0] by {
      assert ToLE(0, 1) == [0];
    }
    assert (h + body)[16..18] == h[16..18] == ToLE(0, 2);
    assert (h + body)[19] == h[19] == flags;
  }

  // Bytes 20 to 23 are the distance from the exchange time to the stamp, as far as 32 bits go.
  predicate SaysDistance(f: Frame, send: nat, exchange: nat) {
    |f| >= 24 && (FromLE(f[20..24]) + exchange - send) % 0x1_0000_0000 == 0
  }

  lemma Congruent(bits: nat, send: nat, exchange: nat)
    requires bits == (send - exchange) % TWO_32
    ensures (bits + exchange - send) % TWO_32 == 0
  {
    var k := (send - exchange) / TWO_32;
    assert bits + exchange - send == -k * TWO_32;
  }

  lemma DistanceInFull(typ: Byte, seqNo: nat, t: Totals, send: nat, exchange: nat)
    ensures SaysDistance(Image(typ, seqNo, t, send, exchange), send, exchange)
  {
    ToLEModulo(DeltaBits(send, exchange));
    Congruent(DeltaBits(send, exchange), send, exchange);
    HeaderSays(seqNo, TRADE, TradeFlags(seqNo), send, exchange, TradeBody(seqNo, t));
    HeaderSays(seqNo, BBO, 0, send, exchange, BboBody(seqNo));
    HeaderSays(seqNo, BOOK, 16, send, exchange, BookBody(seqNo));
  }

  // What type and size message s has: trades, quotes and books in turn, or one of them only.
  predicate TypeLaw(kind: Kind, s: nat, f: Frame) {
    && (kind == Mixed ==>
          && (TypeAndSize(f, 1, 64) <==> s % 3 == 0)
          && (TypeAndSize(f, 2, 48) <==> s % 3 == 1)
          && (TypeAndSize(f, 3, 96) <==> s % 3 == 2))
    && (kind == TradeOnly ==> TypeAndSize(f, 1, 64))
    && (kind == BboOnly ==> TypeAndSize(f, 2, 48))
    && (kind == BookOnly ==> TypeAndSize(f, 3, 96))
  }

  // What a message of each type says, the running totals of trades apart.
  predicate SaysTrade(f: Frame, s: nat, send: nat) {
    && |f| == 64 && SaysHeader(f, s, 32 * (s % 4) + s % 2, send)
    && FromLE(f[24..32]) == 100_000 + s
    && FromLE(f[32..36]) == 6_500_000 + 50 * (s % 500)
    && FromLE(f[36..40]) == 1 + 10 * (s % 100)
  }

  predicate SaysBbo(f: Frame, s: nat, send: nat) {
    && |f| == 48 && SaysHeader(f, s, 0, send)
    && FromLE(f[24..32]) == 900_000 + s
    && FromLE(f[32..36]) == 6_499_950 + 50 * (s % 500)
    && FromLE(f[36..38]) == 100
    && FromLE(f[38..40]) == 1500 + 100 * (s % 50) && FromLE(f[40..42]) == 1500 + 100 * ((s + 7) % 50)
    && FromLE(f[42..44]) == 3 + s % 10 && FromLE(f[44..46]) == 3 + (s + 3) % 10
    && FromLE(f[46..48]) == 0
  }

  ghost predicate SaysBook(f: Frame, s: nat, send: nat) {
    && |f| == 96 && SaysHeader(f, s, 16, send)
    && FromLE(f[24..32]) == 900_000 + s
    && SaysSide(f, 32, 6_499_950 + 50 * (s % 500), s)
    && SaysSide(f, 64, 6_500_050 + 50 * (s % 500), s + 5)
  }

  lemma TradeInFull(seqNo: nat, t: Totals, send: nat, exchange: nat)
    requires seqNo < TWO_64 - 100_000 && send < TWO_64
    ensures SaysTrade(Image(1, seqNo, t, send, exchange), seqNo, send)
  {
    var h := Header(seqNo, TRADE, TradeFlags(seqNo), send, exchange);
    var b := TradeBody(seqNo, t);
    HeaderInFull(seqNo, TRADE, TradeFlags(seqNo), send, exchange, b);
    TradeBodySays(seqNo, t, h);
    ToLEModulo(100_000 + seqNo);
    ToLEModulo(MidPrice(seqNo));
    ToLEModulo(Quantity(seqNo));
  }

  lemma {:induction false} RowFieldAt(f: Frame, at: nat, fields: seq<nat>, k: nat)
    requires k < |fields| && fields[k] < 0x1_0000
    requires at + 2 * |fields| <= |f| && f[at..at + 2 * |fields|] == Row(fields)
    ensures FromLE(f[at + 2 * k..at + 2 * k + 2]) == fields[k]
  {
    RowAt(fields, k);
    ShortField(fields[k]);
    PartOfSlice(f, at, at + 2 * |fields|, 2 * k, 2 * k + 2);
  }

  lemma PartOfSlice(f: Frame, from: nat, to: nat, a: nat, b: nat)
    requires from <= to <= |f| && a <= b <= to - from
    ensures f[from..to][a..b] == f[from + a..from + b]
  {
    forall k | 0 <= k < b - a ensures f[from..to][a..b][k] == f[from + a..from + b][k] {
      assert f[from..to][a + k] == f[from + a + k];
    }
  }

  // The 16-bit fields from position at on.
  ghost predicate FieldsAre(f: Frame, at: nat, fields: seq<nat>) {
    && at + 2 * |fields| <= |f|
    && forall k: nat :: k < |fields| ==> FromLE(f[at + 2 * k..at + 2 * k + 2]) == fields[k]
  }

  lemma RowInFull(f: Frame, at: nat, fields: seq<nat>)
    requires forall k :: 0 <= k < |fields| ==> fields[k] < 0x1_0000
    requires at + 2 * |fields| <= |f| && f[at..at + 2 * |fields|] == Row(fields)
    ensures FieldsAre(f, at, fields)
  {
    forall k: nat | k < |fields| ensures FromLE(f[at + 2 * k..at + 2 * k + 2]) == fields[k] {
      RowFieldAt(f, at, fields, k);
    }
  }

  lemma SixFields(f: Frame, q: seq<nat>)
    requires |q| == 6 && FieldsAre(f, 36, q)
    ensures FromLE(f[36..38]) == q[0] && FromLE(f[38..40]) == q[1] && FromLE(f[40..42]) == q[2]
    ensures FromLE(f[42..44]) == q[3] && FromLE(f[44..46]) == q[4] && FromLE(f[46..48]) == q[5]
  {
    assert FromLE(f[36 + 2 * 0..36 + 2 * 0 + 2]) == q[0] && FromLE(f[36 + 2 * 1..36 + 2 * 1 + 2]) == q[1];
    assert FromLE(f[36 + 2 * 2..36 + 2 * 2 + 2]) == q[2] && FromLE(f[36 + 2 * 3..36 + 2 * 3 + 2]) == q[3];
    assert FromLE(f[36 + 2 * 4..36 + 2 * 4 + 2]) == q[4] && FromLE(f[36 + 2 * 5..36 + 2 * 5 + 2]) == q[5];
  }

  lemma BboParts(seqNo: nat, h: seq<Byte>)
    requires |h| == HEADER_SIZE
    ensures var f := h + BboBody(seqNo);
            && f[24..32] == ToLE(900_000 + seqNo, 8) && f[32..36] == ToLE(MidPrice(seqNo) - 50, 4)
            && f[36..48] == Row(QuoteFields(seqNo))
  {
    var b := BboBody(seqNo);
    var f := h + b;
    assert f[24..32] == b[..8] && f[32..36] == b[8..12] && f[36..48] == b[12..24];
  }

  lemma BboInFull(seqNo: nat, t: Totals, send: nat, exchange: nat)
    requires seqNo < TWO_64 - 900_000 && send < TWO_64
    ensures SaysBbo(Image(2, seqNo, t, send, exchange), seqNo, send)
  {
    var (h, b, q) := (Header(seqNo, BBO, 0, send, exchange), BboBody(seqNo), QuoteFields(seqNo));
    HeaderInFull(seqNo, BBO, 0, send, exchange, b);
    ToLEModulo(900_000 + seqNo);
    ToLEModulo(MidPrice(seqNo) - 50);
    var f := h + b;
    BboParts(seqNo, h);
    RowInFull(f, 36, q);
    SixFields(f, q);
  }

  // One side of a book from position at on: top price, offsets of the deeper levels, sizes and
  // order counts.
  ghost predicate SaysSide(f: Frame, at: nat, top: nat, s: nat) {
    && at + 32 <= |f| && FromLE(f[at..at + 4]) == top
    && FieldsAre(f, at + 4, [100, 200, 300, 400])
    && FieldsAre(f, at + 12, [1000 + 100 * (s % 40), 1000 + 100 * ((s + 1) % 40), 1000 + 100 * ((s + 2) % 40),
                              1000 + 100 * ((s + 3) % 40), 1000 + 100 * ((s + 4) % 40)])
    && FieldsAre(f, at + 22, [2 + s % 8, 2 + (s + 1) % 8, 2 + (s + 2) % 8, 2 + (s + 3) % 8, 2 + (s + 4) % 8])
  }

  lemma RowsSpelled(s: nat)
    ensures Offsets() == [100, 200, 300, 400]
    ensures Sizes(s) == [1000 + 100 * (s % 40), 1000 + 100 * ((s + 1) % 40), 1000 + 100 * ((s + 2) % 40),
                         1000 + 100 * ((s + 3) % 40), 1000 + 100 * ((s + 4) % 40)]
    ensures Orders(s) == [2 + s % 8, 2 + (s + 1) % 8, 2 + (s + 2) % 8, 2 + (s + 3) % 8, 2 + (s + 4) % 8]
  {
  }

  lemma SideParts(f: Frame, at: nat, top: nat, s: nat)
    requires at + 32 <= |f| && f[at..at + 32] == Side(top, s)
    ensures f[at..at + 4] == ToLE(top, 4) && f[at + 4..at + 4 + 2 * 4] == Row(Offsets())
    ensures f[at + 12..at + 12 + 2 * 5] == Row(Sizes(s)) && f[at + 22..at + 22 + 2 * 5] == Row(Orders(s))
  {
    PartOfSlice(f, at, at + 32, 0, 4);
    PartOfSlice(f, at, at + 32, 4, 12);
    PartOfSlice(f, at, at + 32, 12, 22);
    PartOfSlice(f, at, at + 32, 22, 32);
    var side := Side(top, s);
    assert side[0..4] == ToLE(top, 4) && side[4..12] == Row(Offsets());
    assert side[12..22] == Row(Sizes(s)) && side[22..32] == Row(Orders(s));
  }

  lemma SideInFull(f: Frame, at: nat, top: nat, s: nat)
    requires at + 32 <= |f| && f[at..at + 32] == Side(top, s) && top < TWO_32
    ensures SaysSide(f, at, top, s)
  {
    ToLEModulo(top);
    SideParts(f, at, top, s);
    RowInFull(f, at + 4, Offsets());
    RowInFull(f, at + 12, Sizes(s));
    RowInFull(f, at + 22, Orders(s));
    RowsSpelled(s);
  }

  lemma BookParts(seqNo: nat, h: seq<Byte>)
    requires |h| == HEADER_SIZE
    ensures var f := h + BookBody(seqNo);
            && f[24..32] == ToLE(900_000 + seqNo, 8)
            && f[32..32 + 32] == Side(MidPrice(seqNo) - 50, seqNo)
            && f[64..64 + 32] == Side(MidPrice(seqNo) + 50, seqNo + 5)
  {
    var b := BookBody(seqNo);
    var f := h + b;
    assert f[24..32] == b[..8] && f[32..64] == b[8..40] && f[64..96] == b[40..72];
  }

  lemma BookInFull(seqNo: nat, t: Totals, send: nat, exchange: nat)
    requires seqNo < TWO_64 - 900_000 && send < TWO_64
    ensures SaysBook(Image(3, seqNo, t, send, exchange), seqNo, send)
  {
    var (h, b) := (Header(seqNo, BOOK, 16, send, exchange), BookBody(seqNo));
    HeaderInFull(seqNo, BOOK, 16, send, exchange, b);
    ToLEModulo(900_000 + seqNo);
    BookParts(seqNo, h);
    SideInFull(h + b, 32, MidPrice(seqNo) - 50, seqNo);
    SideInFull(h + b, 64, MidPrice(seqNo) + 50, seqNo + 5);
  }

  ghost predicate MessageLaw(kind: Kind, clock: Clock, s: nat, f: Frame) {
    && TypeLaw(kind, s, f) && SaysDistance(f, clock.send(s), clock.exchange(s))
    && (f[18] == 1 ==> SaysTrade(f, s, clock.send(s)))
    && (f[18] == 2 ==> SaysBbo(f, s, clock.send(s)))
    && (f[18] == 3 ==> SaysBook(f, s, clock.send(s)))
  }

  ghost predicate LawAbiding(kind: Kind, clock: Clock, log: seq<Frame>) {
    forall i: nat :: i < |log| ==> MessageLaw(kind, clock, i + 1, log[i])
  }

  lemma NextObeys(kind: Kind, clock: Clock, t: Totals, n: nat)
    requires n < TWO_64 - 900_000 && clock.send(n) < TWO_64
    ensures MessageLaw(kind, clock, n, NextFrame(kind, clock, t, n))
  {
    var (typ, send, exchange) := (TypeOf(kind, n), clock.send(n), clock.exchange(n));
    ImageTypes(typ, n, t, send, exchange);
    DistanceInFull(typ, n, t, send, exchange);
    if typ == 1 {
      TradeInFull(n, t, send, exchange);
    } else if typ == 2 {
      BboInFull(n, t, send, exchange);
    } else {
      BookInFull(n, t, send, exchange);
    }
  }

  ghost predicate Obeys(kind: Kind, clock: Clock, s: ProducerState) {
    s.seqNo == |s.log| && LawAbiding(kind, clock, s.log)
  }

  lemma LawSnoc(kind: Kind, clock: Clock, log: seq<Frame>, f: Frame)
    requires LawAbiding(kind, clock, log) && MessageLaw(kind, clock, |log| + 1, f)
    ensures LawAbiding(kind, clock, log + [f])
  {
  }

  lemma ProduceObeys(kind: Kind, clock: Clock, s: ProducerState)
    requires Obeys(kind, clock, s) && s.seqNo + 1 < TWO_64 - 900_000 && clock.send(s.seqNo + 1) < TWO_64
    ensures Obeys(kind, clock, Produce(kind, clock, s))
  {
    var (n, t) := (s.seqNo + 1, NextTotals(kind, s.totals, s.seqNo + 1));
    NextObeys(kind, clock, t, n);
    LawSnoc(kind, clock, s.log, NextFrame(kind, clock, t, n));
  }

  lemma {:induction false} RunObeys(kind: Kind, clock: Clock, n: nat, s: ProducerState)
    requires s == Produced(kind, clock, n) && n < TWO_64 - 900_000
    requires forall t: nat :: clock.send(t) < TWO_64
    ensures Obeys(kind, clock, s) && s.seqNo == n
  {
    if n == 0 {
    } else {
      var before := Produced(kind, clock, n - 1);
      RunObeys(kind, clock, n - 1, before);
      ProducedSnoc(kind, clock, n - 1);
      ProduceObeys(kind, clock, before);
    }
  }

  // Every message of a run has the type, the size and the fields that its number asks for.
  lemma ProducedMessages(kind: Kind, clock: Clock, n: nat)
    requires n < TWO_64 - 900_000 && forall t: nat :: clock.send(t) < TWO_64
    ensures |Produced(kind, clock, n).log| == n && LawAbiding(kind, clock, Produced(kind, clock, n).log)
  {
    RunObeys(kind, clock, n, Produced(kind, clock, n));
  }

  // ---------- The loop itself ----------

  lemma FourParts(stored: seq<Byte>, a: seq<Byte>, b: seq<Byte>, c: seq<Byte>, d: seq<Byte>)
    ensures stored + a + b + c + d == stored + (a + b + c + d)
  {
  }

  class Loop {
    const kind: Kind
    const count: nat
    const clock: Clock
    const ring: Ring
    const frame: array<Byte>
    var seqNo: nat
    var cumulativeQuantity: nat
    var cumulativeNotional: nat
    var cumulativeTrades: nat

    ghost predicate Valid()
      reads this, ring, ring.seqs, ring.lens, ring.frames
    {
      && ring.Valid() && ring.frameCap == frame.Length == MaxFrame(Compact)
      && frame as object != ring.seqs && frame as object != ring.lens
    }

    ghost function Sums(): Totals
      reads this
    {
      Totals(cumulativeQuantity, cumulativeNotional, cumulativeTrades)
    }

    ghost function State(): ProducerState
      reads this, ring
    {
      ProducerState(seqNo, Sums(), ring.log)
    }

    constructor (k: Kind, n: nat, c: Clock, r: Ring)
      requires r.Valid() && r.frameCap == MaxFrame(Compact) && r.log == []
      ensures Valid() && ring == r && fresh(frame) && kind == k && count == n && clock == c
      ensures State() == Produced(kind, clock, 0)
    {
      kind, count, clock, ring := k, n, c, r;
      frame := new Byte[MaxFrame(Compact)];
      seqNo, cumulativeQuantity, cumulativeNotional, cumulativeTrades := 0, 0, 0, 0;
    }

    // One field more, after those stored from start on.
    method Append(start: nat, pos: nat, value: nat, size: nat, ghost stored: seq<Byte>)
      returns (next: nat, ghost more: seq<Byte>)
      requires start <= pos && pos + size <= frame.Length && frame[start..pos] == stored
      modifies frame
      ensures next == pos + size && more == stored + ToLE(value, size)
      ensures frame[start..next] == more
    {
      var bytes := ToLE(value, size);
      forall k | 0 <= k < size {
        frame[pos + k] := bytes[k];
      }
      next, more := pos + size, stored + bytes;
      assert frame[start..next] == frame[start..pos] + frame[pos..next];
    }

    // The first of the fields stored from start on.
    method Put(start: nat, value: nat, size: nat) returns (next: nat, ghost stored: seq<Byte>)
      requires start + size <= frame.Length
      modifies frame
      ensures next == start + size && stored == ToLE(value, size)
      ensures frame[start..next] == stored
    {
      next, stored := Append(start, start, value, size, []);
      assert [] + ToLE(value, size) == ToLE(value, size);
    }

    method AppendRow(start: nat, pos: nat, fields: seq<nat>, ghost stored: seq<Byte>)
      returns (next: nat, ghost more: seq<Byte>)
      requires start <= pos && pos + 2 * |fields| <= frame.Length && frame[start..pos] == stored
      modifies frame
      ensures next == pos + 2 * |fields| && more == stored + Row(fields)
      ensures frame[start..next] == more
    {
      next, more := pos, stored;
      for i := 0 to |fields|
        invariant next == pos + 2 * i && more == stored + Row(fields[..i])
        invariant frame[start..next] == more
      {
        next, more := Append(start, next, fields[i], 2, more);
        assert fields[..i + 1][..i] == fields[..i];
        assert more == stored + (Row(fields[..i]) + ToLE(fields[i], 2));
      }
      assert fields[..|fields|] == fields;
    }

    method FillHeader(typ: Byte, flags: Byte, exchange: nat)
      requires frame.Length >= HEADER_SIZE
      modifies frame
      ensures frame[..HEADER_SIZE] == Header(seqNo, typ, flags, clock.send(seqNo), exchange)
      ensures frame[HEADER_SIZE..] == old(frame[HEADER_SIZE..])
    {
      var send := clock.send(seqNo);
      var header := ToLE(seqNo, 8) + ToLE(send, 8) + ToLE(0, 2) + [typ] + [flags] + ToLE((send - exchange) % TWO_32, 4);
      forall k | 0 <= k < HEADER_SIZE {
        frame[k] := header[k];
      }
      assert frame[..HEADER_SIZE] == header;
    }

    method TradeFields() returns (end: nat)
      requires frame.Length == MaxFrame(Compact)
      modifies frame
      ensures end == 64 && frame[HEADER_SIZE..end] == TradeBody(seqNo, Sums())
    {
      var pos, body := Put(HEADER_SIZE, 100_000 + seqNo, 8);
      pos, body := Append(HEADER_SIZE, pos, MidPrice(seqNo), 4, body);
      pos, body := Append(HEADER_SIZE, pos, 1 + (seqNo % 100) * 10, 4, body);
      end, body := AppendSums(pos, body);
    }

    method AppendSums(pos: nat, ghost stored: seq<Byte>) returns (next: nat, ghost more: seq<Byte>)
      requires HEADER_SIZE <= pos && pos + 24 <= frame.Length && frame[HEADER_SIZE..pos] == stored
      modifies frame
      ensures next == pos + 24 && frame[HEADER_SIZE..next] == more
      ensures more == stored + ToLE(Sums().quantity, 8) + ToLE(Sums().notional, 8) + ToLE(Sums().trades, 8)
    {
      next, more := Append(HEADER_SIZE, pos, cumulativeQuantity, 8, stored);
      next, more := Append(HEADER_SIZE, next, cumulativeNotional, 8, more);
      next, more := Append(HEADER_SIZE, next, cumulativeTrades, 8, more);
    }

    // The trade's own fields; the header follows when they are in place.
    method BuildTrade(exchange: nat) returns (len: nat)
      requires frame.Length == MaxFrame(Compact)
      modifies this`cumulativeQuantity, this`cumulativeNotional, this`cumulativeTrades, frame
      ensures Sums() == AddTrade(old(Sums()), seqNo)
      ensures len == 64 && frame[..len] == Image(TRADE, seqNo, Sums(), clock.send(seqNo), exchange)
    {
      var price := MidPrice(seqNo);
      var quantity := 1 + (seqNo % 100) * 10;
      cumulativeQuantity := (cumulativeQuantity + quantity) % TWO_64;
      cumulativeNotional := (cumulativeNotional + price * quantity) % TWO_64;
      cumulativeTrades := (cumulativeTrades + 1) % TWO_64;
      var end := TradeFields();
      len := Complete(TRADE, (seqNo % 4) * 32 + seqNo % 2, exchange, end, TradeBody(seqNo, Sums()));
    }

    method BboFields() returns (end: nat)
      requires frame.Length == MaxFrame(Compact)
      modifies frame
      ensures end == 48 && frame[HEADER_SIZE..end] == BboBody(seqNo)
    {
      var mid := MidPrice(seqNo);
      var pos, body := Put(HEADER_SIZE, 900_000 + seqNo, 8);
      pos, body := Append(HEADER_SIZE, pos, mid - 50, 4, body);
      end, body := AppendRow(HEADER_SIZE, pos, QuoteFields(seqNo), body);
    }

    method BuildBbo(exchange: nat) returns (len: nat)
      requires frame.Length == MaxFrame(Compact)
      modifies frame
      ensures len == 48 && frame[..len] == Image(BBO, seqNo, Sums(), clock.send(seqNo), exchange)
    {
      var end := BboFields();
      len := Complete(BBO, 0, exchange, end, BboBody(seqNo));
    }

    method AppendSide(pos: nat, top: nat, shifted: nat, ghost stored: seq<Byte>)
      returns (next: nat, ghost more: seq<Byte>)
      requires HEADER_SIZE <= pos && pos + 32 <= frame.Length && frame[HEADER_SIZE..pos] == stored
      modifies frame
      ensures next == pos + 32 && more == stored + Side(top, shifted)
      ensures frame[HEADER_SIZE..next] == more
    {
      next, more := Append(HEADER_SIZE, pos, top, 4, stored);
      next, more := AppendRow(HEADER_SIZE, next, Offsets(), more);
      next, more := AppendRow(HEADER_SIZE, next, Sizes(shifted), more);
      next, more := AppendRow(HEADER_SIZE, next, Orders(shifted), more);
      FourParts(stored, ToLE(top, 4), Row(Offsets()), Row(Sizes(shifted)), Row(Orders(shifted)));
    }

    method AppendSides(pos: nat, ghost stored: seq<Byte>) returns (next: nat, ghost more: seq<Byte>)
      requires HEADER_SIZE <= pos && pos + 64 <= frame.Length && frame[HEADER_SIZE..pos] == stored
      modifies frame
      ensures next == pos + 64 && frame[HEADER_SIZE..next] == more
      ensures more == stored + Side(MidPrice(seqNo) - 50, seqNo) + Side(MidPrice(seqNo) + 50, seqNo + 5)
    {
      next, more := AppendSide(pos, MidPrice(seqNo) - 50, seqNo, stored);
      next, more := AppendSide(next, MidPrice(seqNo) + 50, seqNo + 5, more);
    }

    method BookFields() returns (end: nat)
      requires frame.Length == MaxFrame(Compact)
      modifies frame
      ensures end == 96 && frame[HEADER_SIZE..end] == BookBody(seqNo)
    {
      var pos, body := Put(HEADER_SIZE, 900_000 + seqNo, 8);
      end, body := AppendSides(pos, body);
    }

    method BuildBook(exchange: nat) returns (len: nat)
      requires frame.Length == MaxFrame(Compact)
      modifies frame
      ensures len == 96 && frame[..len] == Image(BOOK, seqNo, Sums(), clock.send(seqNo), exchange)
    {
      var end := BookFields();
      len := Complete(BOOK, 16, exchange, end, BookBody(seqNo));
    }

    // The header in front of a body that is in place.
    method Complete(typ: Byte, flags: Byte, exchange: nat, end: nat, ghost body: seq<Byte>) returns (len: nat)
      requires HEADER_SIZE <= end <= frame.Length && frame[HEADER_SIZE..end] == body
      modifies frame
      ensures len == end
      ensures frame[..len] == Header(seqNo, typ, flags, clock.send(seqNo), exchange) + body
    {
      FillHeader(typ, flags, exchange);
      len := end;
      assert frame[HEADER_SIZE..len] == frame[HEADER_SIZE..][..len - HEADER_SIZE];
      assert frame[..len] == frame[..HEADER_SIZE] + frame[HEADER_SIZE..len];
    }

    method Build() returns (len: nat)
      requires frame.Length == MaxFrame(Compact)
      modifies this`cumulativeQuantity, this`cumulativeNotional, this`cumulativeTrades, frame
      ensures Sums() == NextTotals(kind, old(Sums()), seqNo)
      ensures len <= frame.Length && frame[..len] == NextFrame(kind, clock, Sums(), seqNo)
    {
      var k := kind;
      if k == Mixed {
        k := if seqNo % 3 == 0 then TradeOnly else if seqNo % 3 == 1 then BboOnly else BookOnly;
      }
      if k == TradeOnly {
        len := BuildTrade(clock.exchange(seqNo));
      } else if k == BboOnly {
        len := BuildBbo(clock.exchange(seqNo));
      } else {
        len := BuildBook(clock.exchange(seqNo));
      }
    }

    method Publish(len: nat)
      requires Valid() && len <= frame.Length
      modifies ring`writeIndex, ring`log, ring.seqs, ring.lens, ring.frames
      ensures Valid() && ring.log == old(ring.log) + [frame[..len]] && frame[..] == old(frame[..])
    {
      assert frame[0..0 + len] == frame[..len];
      ring.Publish(frame, 0, len);
    }

    method RunTurn()
      requires Valid()
      modifies this, frame, ring`writeIndex, ring`log, ring.seqs, ring.lens, ring.frames
      ensures Valid() && State() == Produce(kind, clock, old(State()))
    {
      seqNo := seqNo + 1;
      var len := Build();
      Publish(len);
    }

    // One turn more of a run from the start.
    method Advance()
      requires Valid() && State() == Produced(kind, clock, seqNo)
      modifies this, frame, ring`writeIndex, ring`log, ring.seqs, ring.lens, ring.frames
      ensures Valid() && seqNo == old(seqNo) + 1 && State() == Produced(kind, clock, seqNo)
      ensures |ring.log| == |old(ring.log)| + 1
    {
      ProducedSnoc(kind, clock, seqNo);
      RunTurn();
    }

    // The first rounds turns of the loop, or all of them.
    method Run(rounds: nat)
      requires Valid() && State() == Produced(kind, clock, 0)
      modifies this, frame, ring`writeIndex, ring`log, ring.seqs, ring.lens, ring.frames
      ensures Valid() && State() == Produced(kind, clock, Reached(count, rounds))
      ensures |ring.log| == if 0 < count < rounds then count else rounds
    {
      for r := 0 to rounds
        invariant Valid() && State() == Produced(kind, clock, seqNo)
        invariant seqNo == Reached(count, r) && |ring.log| == if 0 < count < r then count else r
      {
        if count == 0 || seqNo < count {
          Advance();
        }
      }
    }
  }
}
