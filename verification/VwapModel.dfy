/**
 What the sliding-window VWAP of src/vwap_calculator.cpp computes, said without rings, prefix sums
 or machine words: a window of trade records, two running totals and a readiness flag. Totals are
 unbounded integers here; the class in VwapCalculator.dfy is proved to hold the same numbers in
 64-bit words.
 */
module VwapModel {
  import opened MachineInts
  import opened Messages
  import opened BoundedSeq

  const MAX_TRADES: nat := 10000

  /** VwapTradeRecord. */
  datatype Record = Record(timestamp: u64, quantity: u32, price: i32, priceVolume: u64)

  function MakeRecord(timestamp: u64, quantity: u32, price: i32): Record {
    Record(timestamp, quantity, price, Mul64(ToU64(price), quantity))
  }

  function RecordOf(t: TradeMessage): Record {
    MakeRecord(t.timestamp, t.quantity, t.price)
  }

  predicate Genuine(r: Record) {
    0 < r.price && 0 < r.quantity && r.priceVolume == r.price * r.quantity
  }

  /** The 128-bit product guard never fires: a positive price times a quantity fits in 63 bits. */
  lemma ProductFits(t: TradeMessage)
    requires 0 < t.price && 0 < t.quantity
    ensures 0 < t.price * t.quantity < TWO64 / 2
    ensures Genuine(RecordOf(t))
  {
    MulBounds(t.price, t.quantity);
  }

  lemma MulBounds(p: int, q: int)
    requires 0 < p < 0x8000_0000 && 0 < q < 0x1_0000_0000
    ensures 0 < p * q < 0x8000_0000 * 0x1_0000_0000
  {
  }

  // ----- Totals -----

  /** The quantities of the first n records. */
  function VolumeTo(s: seq<Record>, n: nat): nat
    requires n <= |s|
  {
    if n == 0 then 0 else VolumeTo(s, n - 1) + s[n - 1].quantity
  }

  /** The price-times-quantity products of the first n records. */
  function NotionalTo(s: seq<Record>, n: nat): nat
    requires n <= |s|
  {
    if n == 0 then 0 else NotionalTo(s, n - 1) + s[n - 1].priceVolume
  }

  function Volume(s: seq<Record>): nat {
    VolumeTo(s, |s|)
  }

  function Notional(s: seq<Record>): nat {
    NotionalTo(s, |s|)
  }

  /** The totals of a stretch depend on its records alone. */
  lemma {:induction false} TotalsOfStretch(s: seq<Record>, k: nat, t: seq<Record>, n: nat)
    requires k + n <= |s| && n <= |t|
    requires forall i :: 0 <= i < n ==> s[k + i] == t[i]
    ensures VolumeTo(s, k + n) == VolumeTo(s, k) + VolumeTo(t, n)
    ensures NotionalTo(s, k + n) == NotionalTo(s, k) + NotionalTo(t, n)
  {
    if n > 0 {
      TotalsOfStretch(s, k, t, n - 1);
      assert s[k + (n - 1)] == t[n - 1];
    }
  }

  lemma TotalsSplit(a: seq<Record>, b: seq<Record>)
    ensures Volume(a + b) == Volume(a) + Volume(b)
    ensures Notional(a + b) == Notional(a) + Notional(b)
  {
    TotalsOfStretch(a + b, 0, a, |a|);
    TotalsOfStretch(a + b, |a|, b, |b|);
  }

  lemma TotalsOne(r: Record)
    ensures Volume([r]) == r.quantity && Notional([r]) == r.priceVolume
  {
    assert VolumeTo([r], 0) == 0 && NotionalTo([r], 0) == 0;
  }

  lemma TotalsAt(s: seq<Record>, k: nat)
    requires k <= |s|
    ensures Volume(s) == VolumeTo(s, k) + Volume(s[k..])
    ensures Notional(s) == NotionalTo(s, k) + Notional(s[k..])
  {
    TotalsOfStretch(s, k, s[k..], |s| - k);
  }

  lemma TotalsOfPrefix(s: seq<Record>, k: nat)
    requires k <= |s|
    ensures VolumeTo(s, k) == Volume(s[..k]) && NotionalTo(s, k) == Notional(s[..k])
  {
    TotalsOfStretch(s, 0, s[..k], k);
  }

  lemma TotalsOfLast(s: seq<Record>)
    requires s != []
    ensures Volume(s) == Volume(s[..|s| - 1]) + s[|s| - 1].quantity
    ensures Notional(s) == Notional(s[..|s| - 1]) + s[|s| - 1].priceVolume
  {
    TotalsOfPrefix(s, |s| - 1);
  }

  /** Running totals never decrease. */
  lemma {:induction false} TotalsGrow(s: seq<Record>, k: nat, n: nat)
    requires k <= n <= |s|
    ensures VolumeTo(s, k) <= VolumeTo(s, n) && NotionalTo(s, k) <= NotionalTo(s, n)
    decreases n
  {
    if k < n {
      TotalsGrow(s, k, n - 1);
    }
  }

  // ----- The calculator -----

  datatype Calc = Calc(
    duration: u64,
    window: seq<Record>,
    sumVolume: int,
    sumPriceVolume: int,
    windowStart: u64,
    firstComplete: bool,
    lastTradeTime: u64,
    totalTrades: u64,
    rejectedTrades: u64)

  function Init(duration: u64): Calc {
    Calc(duration, [], 0, 0, 0, false, 0, 0, 0)
  }

  /** Trades older than this have left the window. */
  function Cutoff(now: u64, duration: u64): u64 {
    if now > duration then now - duration else 0
  }

  /** How many leading records are older than the cutoff. */
  function LowerBound(s: seq<Record>, cutoff: u64): (k: nat)
    ensures k <= |s|
    ensures forall i :: 0 <= i < k ==> s[i].timestamp < cutoff
    ensures k < |s| ==> cutoff <= s[k].timestamp
  {
    LowerBoundFrom(s, cutoff, 0)
  }

  function LowerBoundFrom(s: seq<Record>, cutoff: u64, from: nat): (k: nat)
    requires from <= |s|
    ensures from <= k <= |s|
    ensures forall i :: from <= i < k ==> s[i].timestamp < cutoff
    ensures k < |s| ==> cutoff <= s[k].timestamp
    decreases |s| - from
  {
    if from == |s| || cutoff <= s[from].timestamp then from else LowerBoundFrom(s, cutoff, from + 1)
  }

  predicate Accepts(c: Calc, t: TradeMessage) {
    && 0 < t.price && 0 < t.quantity
    && !(c.lastTradeTime != 0 && t.timestamp < c.lastTradeTime)
    && t.price * t.quantity < TWO64
    && c.sumPriceVolume + t.price * t.quantity < TWO64
    && c.sumVolume + t.quantity < TWO64
  }

  function AddTrade(c: Calc, t: TradeMessage): Calc {
    if Accepts(c, t) then Accept(c, RecordOf(t)) else c.(rejectedTrades := Add64(c.rejectedTrades, 1))
  }

  /** The record is in the ring and in the totals; nothing has expired yet. */
  function Pushed(c: Calc, r: Record): Calc {
    c.(window := PushBounded(c.window, r, MAX_TRADES),
       sumVolume := c.sumVolume + r.quantity,
       sumPriceVolume := c.sumPriceVolume + r.priceVolume,
       windowStart := if c.windowStart == 0 then r.timestamp else c.windowStart)
  }

  /** What is older than the cutoff is gone from the window and from the totals. */
  function Evicted(c: Calc, now: u64): Calc {
    var gone := LowerBound(c.window, Cutoff(now, c.duration));
    c.(window := c.window[gone..],
       sumVolume := c.sumVolume - VolumeTo(c.window, gone),
       sumPriceVolume := c.sumPriceVolume - NotionalTo(c.window, gone),
       windowStart := if 0 < gone < |c.window| then c.window[gone].timestamp else c.windowStart)
  }

  /** The trade is counted, the window evicted, and then checked for completeness. */
  function Finished(c: Calc, now: u64): Calc {
    var e := Evicted(c, now);
    e.(firstComplete := e.firstComplete || c.duration <= now - e.windowStart,
       lastTradeTime := now,
       totalTrades := Add64(c.totalTrades, 1))
  }

  function Accept(c: Calc, r: Record): Calc {
    Finished(Pushed(c, r), r.timestamp)
  }

  /** The quotient returned by getCurrentVwap, as an exact rational. */
  function Ratio(sumPriceVolume: int, sumVolume: int): real {
    if sumVolume == 0 then 0.0 else sumPriceVolume as real / sumVolume as real
  }

  function Vwap(c: Calc): real {
    Ratio(c.sumPriceVolume, c.sumVolume)
  }

  predicate HasCompleteWindow(c: Calc) {
    c.firstComplete && c.window != []
  }

  predicate Sorted(s: seq<Record>) {
    forall i, j :: 0 <= i < j < |s| ==> s[i].timestamp <= s[j].timestamp
  }

  predicate AllGenuine(s: seq<Record>) {
    forall i :: 0 <= i < |s| ==> Genuine(s[i])
  }

  predicate AllSince(s: seq<Record>, cutoff: u64) {
    forall i :: 0 <= i < |s| ==> cutoff <= s[i].timestamp
  }

  /** What every reachable calculator satisfies, as far as its own fields can say it. */
  predicate CalcInv(c: Calc) {
    && |c.window| <= MAX_TRADES
    && Sorted(c.window)
    && AllSince(c.window, Cutoff(c.lastTradeTime, c.duration))
    && (c.window == [] ==> c.lastTradeTime == 0 && c.windowStart == 0 && c.sumVolume == 0 && c.sumPriceVolume == 0)
    && (c.window != [] ==> c.window[|c.window| - 1].timestamp == c.lastTradeTime)
    && c.windowStart <= c.lastTradeTime
    && Volume(c.window) <= c.sumVolume < TWO64
    && Notional(c.window) <= c.sumPriceVolume < TWO64
  }

  /** The records in the ring right after a push, before anything expires. */
  lemma PushedFacts(c: Calc, r: Record)
    requires CalcInv(c) && c.lastTradeTime <= r.timestamp
    ensures var pushed := Pushed(c, r).window;
      && 0 < |pushed| <= MAX_TRADES && pushed[|pushed| - 1] == r
      && Sorted(pushed)
      && Volume(pushed) <= c.sumVolume + r.quantity
      && Notional(pushed) <= c.sumPriceVolume + r.priceVolume
  {
    PushOrder(c.window, r);
    PushTotals(c.window, r);
  }

  lemma PushOrder(w: seq<Record>, r: Record)
    requires Sorted(w) && (w != [] ==> w[|w| - 1].timestamp <= r.timestamp)
    ensures Sorted(PushBounded(w, r, MAX_TRADES))
  {
  }

  lemma PushTotals(w: seq<Record>, r: Record)
    ensures Volume(PushBounded(w, r, MAX_TRADES)) <= Volume(w) + r.quantity
    ensures Notional(PushBounded(w, r, MAX_TRADES)) <= Notional(w) + r.priceVolume
  {
    TotalsOne(r);
    if |w| < MAX_TRADES {
      TotalsSplit(w, [r]);
    } else {
      TotalsAt(w, 1);
      TotalsSplit(w[1..], [r]);
    }
  }

  /** In time order, what follows the expired records is live, and still in order. */
  lemma SuffixLive(s: seq<Record>, cutoff: u64)
    requires Sorted(s)
    ensures AllSince(s[LowerBound(s, cutoff)..], cutoff)
    ensures Sorted(s[LowerBound(s, cutoff)..])
  {
  }

  /** Every step keeps the invariant; in particular an accepted trade never leaves the window empty. */
  lemma AddTradeKeepsInv(c: Calc, t: TradeMessage)
    requires CalcInv(c)
    ensures CalcInv(AddTrade(c, t))
    ensures Accepts(c, t) ==> AddTrade(c, t).window != []
  {
    if Accepts(c, t) {
      ProductFits(t);
      AcceptKeepsInv(c, RecordOf(t));
    }
  }

  lemma AcceptKeepsInv(c: Calc, r: Record)
    requires CalcInv(c) && c.lastTradeTime <= r.timestamp
    requires c.sumVolume + r.quantity < TWO64 && c.sumPriceVolume + r.priceVolume < TWO64
    ensures CalcInv(Accept(c, r)) && Accept(c, r).window != []
  {
    PushedFacts(c, r);
    var pushed := Pushed(c, r).window;
    var cutoff := Cutoff(r.timestamp, c.duration);
    var gone := LowerBound(pushed, cutoff);
    assert gone < |pushed| by {
      assert cutoff <= pushed[|pushed| - 1].timestamp;
    }
    TotalsAt(pushed, gone);
    SuffixLive(pushed, cutoff);
  }
}
