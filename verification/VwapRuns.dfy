/**
 Whole runs of the VWAP calculator: a run is any finite list of trades, accepted or not, and the
 statements below hold after every run. Each record that leaves the ring is logged with the reason
 it left: it expired (and was subtracted from the totals) or it was displaced by a push onto a full
 ring (and was not).
 */
module VwapRuns {
  import opened MachineInts
  import opened Messages
  import opened BoundedSeq
  import opened VwapModel

  datatype Removal = Displaced(record: Record) | Expired(record: Record)

  datatype Trace = Trace(state: Calc, removed: seq<Removal>)

  function Records(removed: seq<Removal>): seq<Record> {
    seq(|removed|, i requires 0 <= i < |removed| => removed[i].record)
  }

  function ExpiredLog(s: seq<Record>): seq<Removal> {
    seq(|s|, i requires 0 <= i < |s| => Expired(s[i]))
  }

  function DisplacedLog(s: seq<Record>): seq<Removal> {
    seq(|s|, i requires 0 <= i < |s| => Displaced(s[i]))
  }

  /** A ring that is full and is pushed onto drops its oldest record. */
  function DroppedBy(c: Calc): seq<Record> {
    if |c.window| < MAX_TRADES || c.window == [] then [] else [c.window[0]]
  }

  /** The records of the ring that have expired by the time r has been pushed. */
  function ExpiredBy(c: Calc, r: Record): seq<Record> {
    var pushed := PushBounded(c.window, r, MAX_TRADES);
    pushed[..LowerBound(pushed, Cutoff(r.timestamp, c.duration))]
  }

  /** The removals that one accepted record causes. */
  function RemovalsOf(c: Calc, r: Record): seq<Removal> {
    DisplacedLog(DroppedBy(c)) + ExpiredLog(ExpiredBy(c, r))
  }

  function Step(tr: Trace, t: TradeMessage): Trace {
    Trace(AddTrade(tr.state, t),
          if Accepts(tr.state, t) then tr.removed + RemovalsOf(tr.state, RecordOf(t)) else tr.removed)
  }

  function Run(duration: u64, trades: seq<TradeMessage>): Trace {
    if trades == [] then Trace(Init(duration), [])
    else Step(Run(duration, trades[..|trades| - 1]), trades[|trades| - 1])
  }

  /** The records of the accepted trades of a run, in arrival order. */
  function Accepted(duration: u64, trades: seq<TradeMessage>): seq<Record> {
    if trades == [] then []
    else
      var before := trades[..|trades| - 1];
      var t := trades[|trades| - 1];
      Accepted(duration, before) + if Accepts(Run(duration, before).state, t) then [RecordOf(t)] else []
  }

  /** The records that a push onto a full ring dropped. */
  function DisplacedOf(removed: seq<Removal>): seq<Record> {
    if removed == [] then []
    else
      var r := removed[|removed| - 1];
      DisplacedOf(removed[..|removed| - 1]) + if r.Displaced? then [r.record] else []
  }

  /** The records that expired. */
  function ExpiredOf(removed: seq<Removal>): seq<Record> {
    if removed == [] then []
    else
      var r := removed[|removed| - 1];
      ExpiredOf(removed[..|removed| - 1]) + if r.Expired? then [r.record] else []
  }

  function Live(s: seq<Record>, cutoff: u64): seq<Record> {
    if s == [] then []
    else Live(s[..|s| - 1], cutoff) + if cutoff <= s[|s| - 1].timestamp then [s[|s| - 1]] else []
  }

  function Stale(s: seq<Record>, cutoff: u64): seq<Record> {
    if s == [] then []
    else Stale(s[..|s| - 1], cutoff) + if s[|s| - 1].timestamp < cutoff then [s[|s| - 1]] else []
  }

  function CutoffOf(c: Calc): u64 {
    Cutoff(c.lastTradeTime, c.duration)
  }

  // ----- The invariant -----

  ghost predicate LogInv(removed: seq<Removal>, cutoff: u64, room: bool) {
    && (forall i :: 0 <= i < |removed| && removed[i].Expired? ==> removed[i].record.timestamp < cutoff)
    && (removed != [] && room ==> removed[|removed| - 1].Expired?)
  }

  ghost predicate TraceInv(tr: Trace) {
    var c := tr.state;
    var all := Records(tr.removed) + c.window;
    && CalcInv(c)
    && Sorted(all) && AllGenuine(all)
    && (all != [] ==> c.window != [])
    && LogInv(tr.removed, CutoffOf(c), |c.window| < MAX_TRADES)
    && c.sumVolume == Volume(c.window) + Volume(DisplacedOf(tr.removed))
    && c.sumPriceVolume == Notional(c.window) + Notional(DisplacedOf(tr.removed))
  }

  lemma {:induction false} DisplacedSplit(a: seq<Removal>, b: seq<Removal>)
    ensures DisplacedOf(a + b) == DisplacedOf(a) + DisplacedOf(b)
  {
    if b == [] {
      assert a + b == a;
    } else {
      DisplacedSplit(a, b[..|b| - 1]);
      assert (a + b)[..|a + b| - 1] == a + b[..|b| - 1];
    }
  }

  lemma {:induction false} DisplacedOfLogs(s: seq<Record>)
    ensures DisplacedOf(ExpiredLog(s)) == []
    ensures DisplacedOf(DisplacedLog(s)) == s
  {
    if s != [] {
      DisplacedOfLogs(s[..|s| - 1]);
      assert ExpiredLog(s)[..|s| - 1] == ExpiredLog(s[..|s| - 1]);
      assert DisplacedLog(s)[..|s| - 1] == DisplacedLog(s[..|s| - 1]);
    }
  }

  lemma RecordsSplit(a: seq<Removal>, b: seq<Removal>)
    ensures Records(a + b) == Records(a) + Records(b)
  {
  }

  lemma RecordsOfLogs(s: seq<Record>)
    ensures Records(ExpiredLog(s)) == s && Records(DisplacedLog(s)) == s
  {
  }

  lemma PushDrops(c: Calc, r: Record)
    ensures DroppedBy(c) + PushBounded(c.window, r, MAX_TRADES) == c.window + [r]
  {
  }

  lemma AcceptSplits(c: Calc, r: Record)
    ensures DroppedBy(c) + ExpiredBy(c, r) + Accept(c, r).window == c.window + [r]
  {
    PushDrops(c, r);
    var pushed := PushBounded(c.window, r, MAX_TRADES);
    Rejoin(DroppedBy(c), pushed, LowerBound(pushed, Cutoff(r.timestamp, c.duration)));
  }

  lemma Rejoin<T>(a: seq<T>, s: seq<T>, k: nat)
    requires k <= |s|
    ensures a + s[..k] + s[k..] == a + s
  {
  }

  lemma RemovalsFacts(c: Calc, r: Record)
    ensures Records(RemovalsOf(c, r)) == DroppedBy(c) + ExpiredBy(c, r)
    ensures DisplacedOf(RemovalsOf(c, r)) == DroppedBy(c)
  {
    RecordsSplit(DisplacedLog(DroppedBy(c)), ExpiredLog(ExpiredBy(c, r)));
    RecordsOfLogs(DroppedBy(c));
    RecordsOfLogs(ExpiredBy(c, r));
    DisplacedSplit(DisplacedLog(DroppedBy(c)), ExpiredLog(ExpiredBy(c, r)));
    DisplacedOfLogs(DroppedBy(c));
    DisplacedOfLogs(ExpiredBy(c, r));
  }

  /** The records in the ring, and those that left it, are the old ones and the new one, in order. */
  lemma StepAppends(tr: Trace, t: TradeMessage)
    requires Accepts(tr.state, t)
    ensures var tr' := Step(tr, t);
      Records(tr'.removed) + tr'.state.window == Records(tr.removed) + tr.state.window + [RecordOf(t)]
  {
    var c, r := tr.state, RecordOf(t);
    var c' := AddTrade(c, t);
    RemovalsFacts(c, r);
    AcceptSplits(c, r);
    RecordsSplit(tr.removed, RemovalsOf(c, r));
    var x := Records(tr.removed);
    assert (x + (DroppedBy(c) + ExpiredBy(c, r))) + c'.window == x + (DroppedBy(c) + ExpiredBy(c, r) + c'.window);
    assert x + (c.window + [r]) == x + c.window + [r];
  }

  /** An accepted record adds to the totals; what expires is subtracted; what is displaced is not. */
  lemma AcceptTotals(c: Calc, r: Record)
    ensures Accept(c, r).sumVolume == c.sumVolume + r.quantity - Volume(ExpiredBy(c, r))
    ensures Accept(c, r).sumPriceVolume == c.sumPriceVolume + r.priceVolume - Notional(ExpiredBy(c, r))
    ensures Volume(DroppedBy(c)) + Volume(ExpiredBy(c, r)) + Volume(Accept(c, r).window)
         == Volume(c.window) + r.quantity
    ensures Notional(DroppedBy(c)) + Notional(ExpiredBy(c, r)) + Notional(Accept(c, r).window)
         == Notional(c.window) + r.priceVolume
  {
    var pushed := Pushed(c, r).window;
    TotalsOfPrefix(pushed, LowerBound(pushed, Cutoff(r.timestamp, c.duration)));
    AcceptSplits(c, r);
    TotalsSplit(DroppedBy(c) + ExpiredBy(c, r), Accept(c, r).window);
    TotalsSplit(DroppedBy(c), ExpiredBy(c, r));
    TotalsSplit(c.window, [r]);
    TotalsOne(r);
  }

  lemma StepTotals(tr: Trace, t: TradeMessage)
    requires TraceInv(tr) && Accepts(tr.state, t)
    ensures var tr' := Step(tr, t); var c' := tr'.state;
      && c'.sumVolume == Volume(c'.window) + Volume(DisplacedOf(tr'.removed))
      && c'.sumPriceVolume == Notional(c'.window) + Notional(DisplacedOf(tr'.removed))
  {
    var c, r := tr.state, RecordOf(t);
    AcceptTotals(c, r);
    RemovalsFacts(c, r);
    DisplacedSplit(tr.removed, RemovalsOf(c, r));
    TotalsSplit(DisplacedOf(tr.removed), DroppedBy(c));
  }

  lemma LogExtend(removed: seq<Removal>, dropped: seq<Record>, gone: seq<Record>,
                  cutoff: u64, cutoff': u64, room: bool, room': bool)
    requires LogInv(removed, cutoff, room) && cutoff <= cutoff'
    requires forall i :: 0 <= i < |gone| ==> gone[i].timestamp < cutoff'
    requires gone == [] && room' ==> room && dropped == []
    ensures LogInv(removed + (DisplacedLog(dropped) + ExpiredLog(gone)), cutoff', room')
  {
  }

  lemma StepLog(tr: Trace, t: TradeMessage)
    requires TraceInv(tr) && Accepts(tr.state, t)
    ensures var tr' := Step(tr, t);
      LogInv(tr'.removed, CutoffOf(tr'.state), |tr'.state.window| < MAX_TRADES)
  {
    var c, r := tr.state, RecordOf(t);
    LogExtend(tr.removed, DroppedBy(c), ExpiredBy(c, r), CutoffOf(c), Cutoff(r.timestamp, c.duration),
              |c.window| < MAX_TRADES, |Accept(c, r).window| < MAX_TRADES);
  }

  lemma AppendSorted(s: seq<Record>, r: Record)
    requires Sorted(s) && AllGenuine(s) && Genuine(r)
    requires s != [] ==> s[|s| - 1].timestamp <= r.timestamp
    ensures Sorted(s + [r]) && AllGenuine(s + [r])
  {
  }

  lemma StepKeepsOrder(tr: Trace, t: TradeMessage)
    requires TraceInv(tr) && Accepts(tr.state, t)
    ensures var all' := Records(Step(tr, t).removed) + Step(tr, t).state.window;
      Sorted(all') && AllGenuine(all')
  {
    ProductFits(t);
    StepAppends(tr, t);
    var all := Records(tr.removed) + tr.state.window;
    assert all != [] ==> all[|all| - 1] == tr.state.window[|tr.state.window| - 1];
    AppendSorted(all, RecordOf(t));
  }

  lemma StepKeepsInv(tr: Trace, t: TradeMessage)
    requires TraceInv(tr)
    ensures TraceInv(Step(tr, t))
  {
    AddTradeKeepsInv(tr.state, t);
    if Accepts(tr.state, t) {
      StepKeepsOrder(tr, t);
      StepTotals(tr, t);
      StepLog(tr, t);
    }
  }

  lemma {:induction false} RunKeepsInv(duration: u64, trades: seq<TradeMessage>)
    ensures TraceInv(Run(duration, trades))
    ensures Run(duration, trades).state.duration == duration
    ensures Records(Run(duration, trades).removed) + Run(duration, trades).state.window == Accepted(duration, trades)
  {
    if trades != [] {
      var before, t := trades[..|trades| - 1], trades[|trades| - 1];
      RunKeepsInv(duration, before);
      StepKeepsInv(Run(duration, before), t);
      if Accepts(Run(duration, before).state, t) {
        StepAppends(Run(duration, before), t);
      }
    }
  }

  // ----- The window -----

  lemma {:induction false} LiveSplit(a: seq<Record>, b: seq<Record>, cutoff: u64)
    ensures Live(a + b, cutoff) == Live(a, cutoff) + Live(b, cutoff)
  {
    if b == [] {
      assert a + b == a;
    } else {
      LiveSplit(a, b[..|b| - 1], cutoff);
      assert (a + b)[..|a + b| - 1] == a + b[..|b| - 1];
    }
  }

  lemma {:induction false} LiveIsSuffix(s: seq<Record>, cutoff: u64, k: nat)
    requires k <= |s|
    requires forall i :: 0 <= i < k ==> s[i].timestamp < cutoff
    requires forall i :: k <= i < |s| ==> cutoff <= s[i].timestamp
    ensures Live(s, cutoff) == s[k..]
  {
    if s != [] {
      LiveIsSuffix(s[..|s| - 1], cutoff, if k == |s| then k - 1 else k);
    }
  }

  /**
   After every run the ring holds, in order, exactly the newest min(10000, k) of the k accepted
   trades that are not older than the cutoff, and everything that expired is older than it.
   */
  lemma WindowIsNewestLiveTrades(duration: u64, trades: seq<TradeMessage>)
    ensures var tr := Run(duration, trades);
      var accepted := Accepted(duration, trades);
      && Sorted(accepted)
      && tr.state.window == LastN(Live(accepted, CutoffOf(tr.state)), 10000)
      && (accepted != [] ==> tr.state.window != [])
      && (forall i :: 0 <= i < |tr.removed| && tr.removed[i].Expired? ==>
            tr.removed[i].record.timestamp < CutoffOf(tr.state))
  {
    RunKeepsInv(duration, trades);
    WindowOfTrace(Run(duration, trades));
  }

  lemma WindowOfTrace(tr: Trace)
    requires TraceInv(tr)
    ensures tr.state.window == LastN(Live(Records(tr.removed) + tr.state.window, CutoffOf(tr.state)), MAX_TRADES)
  {
    var gone := Records(tr.removed);
    if tr.removed != [] {
      assert gone[|gone| - 1] == tr.removed[|tr.removed| - 1].record;
    }
    SuffixIsNewestLive(gone + tr.state.window, gone, tr.state.window, CutoffOf(tr.state));
  }

  lemma SuffixIsNewestLive(all: seq<Record>, gone: seq<Record>, window: seq<Record>, cutoff: u64)
    requires all == gone + window && Sorted(all)
    requires AllSince(window, cutoff) && |window| <= MAX_TRADES
    requires |window| < MAX_TRADES && gone != [] ==> gone[|gone| - 1].timestamp < cutoff
    ensures window == LastN(Live(all, cutoff), MAX_TRADES)
  {
    LiveSplit(gone, window, cutoff);
    LiveIsSuffix(window, cutoff, 0);
    if |window| < MAX_TRADES {
      forall i | 0 <= i < |gone|
        ensures gone[i].timestamp < cutoff
      {
        assert all[i].timestamp <= all[|gone| - 1].timestamp;
      }
      LiveIsSuffix(gone, cutoff, |gone|);
    }
  }

  // ----- The totals -----

  lemma {:induction false} LogTotals(removed: seq<Removal>, cutoff: u64)
    requires forall i :: 0 <= i < |removed| && removed[i].Expired? ==> removed[i].record.timestamp < cutoff
    ensures Volume(DisplacedOf(removed)) ==
            Volume(Live(Records(removed), cutoff)) + Volume(Stale(DisplacedOf(removed), cutoff))
    ensures Notional(DisplacedOf(removed)) ==
            Notional(Live(Records(removed), cutoff)) + Notional(Stale(DisplacedOf(removed), cutoff))
  {
    if removed != [] {
      var front, last := removed[..|removed| - 1], removed[|removed| - 1];
      LogTotals(front, cutoff);
      assert Records(removed)[..|removed| - 1] == Records(front);
      var d, l, st := DisplacedOf(front), Live(Records(front), cutoff), Stale(DisplacedOf(front), cutoff);
      TotalsOne(last.record);
      TotalsSplit(d, [last.record]);
      TotalsSplit(l, [last.record]);
      TotalsSplit(st, [last.record]);
      assert (d + [last.record])[..|d|] == d;
      assert d + [] == d && l + [] == l && st + [] == st;
    }
  }

  lemma {:induction false} RemovedTotals(removed: seq<Removal>)
    ensures Volume(Records(removed)) == Volume(DisplacedOf(removed)) + Volume(ExpiredOf(removed))
    ensures Notional(Records(removed)) == Notional(DisplacedOf(removed)) + Notional(ExpiredOf(removed))
  {
    if removed != [] {
      var front, last := removed[..|removed| - 1], removed[|removed| - 1];
      RemovedTotals(front);
      assert Records(removed) == Records(front) + [last.record];
      TotalsOne(last.record);
      TotalsSplit(Records(front), [last.record]);
      TotalsSplit(DisplacedOf(front), [last.record]);
      TotalsSplit(ExpiredOf(front), [last.record]);
      assert DisplacedOf(front) + [] == DisplacedOf(front) && ExpiredOf(front) + [] == ExpiredOf(front);
    }
  }

  lemma {:induction false} LiveOfAll(s: seq<Record>, cutoff: u64)
    requires AllSince(s, cutoff)
    ensures Live(s, cutoff) == s
  {
    LiveIsSuffix(s, cutoff, 0);
  }

  /**
   In every run each total is (i) retained plus displaced, (ii) all accepted minus expired, and
   (iii) a recomputation from scratch over the accepted trades at or after the cutoff, plus the
   displaced trades that have since passed the cutoff and were never subtracted.
   */
  lemma TotalsOfEveryRun(duration: u64, trades: seq<TradeMessage>)
    ensures var tr := Run(duration, trades);
      var c := tr.state;
      var accepted := Accepted(duration, trades);
      var displaced := DisplacedOf(tr.removed);
      var live := Live(accepted, CutoffOf(c));
      var stale := Stale(displaced, CutoffOf(c));
      && c.sumVolume == Volume(c.window) + Volume(displaced) == Volume(live) + Volume(stale) < TWO64
      && c.sumPriceVolume == Notional(c.window) + Notional(displaced) == Notional(live) + Notional(stale) < TWO64
      && c.sumVolume == Volume(accepted) - Volume(ExpiredOf(tr.removed))
      && c.sumPriceVolume == Notional(accepted) - Notional(ExpiredOf(tr.removed))
  {
    RunKeepsInv(duration, trades);
    var tr := Run(duration, trades);
    var cutoff := CutoffOf(tr.state);
    LogTotals(tr.removed, cutoff);
    LiveSplit(Records(tr.removed), tr.state.window, cutoff);
    LiveOfAll(tr.state.window, cutoff);
    TotalsSplit(Live(Records(tr.removed), cutoff), tr.state.window);
    TotalsSplit(Records(tr.removed), tr.state.window);
    RemovedTotals(tr.removed);
  }

  lemma {:induction false} NoVolumeIsEmpty(s: seq<Record>)
    requires AllGenuine(s)
    ensures Volume(s) == 0 <==> s == []
    ensures Notional(s) == 0 <==> s == []
  {
  }

  lemma {:induction false} DisplacedGenuine(removed: seq<Removal>)
    requires forall i :: 0 <= i < |removed| ==> Genuine(removed[i].record)
    ensures AllGenuine(DisplacedOf(removed))
  {
    if removed != [] {
      DisplacedGenuine(removed[..|removed| - 1]);
    }
  }

  lemma {:induction false} StaleGenuine(s: seq<Record>, cutoff: u64)
    requires AllGenuine(s)
    ensures AllGenuine(Stale(s, cutoff))
  {
    if s != [] {
      StaleGenuine(s[..|s| - 1], cutoff);
    }
  }

  /**
   The promise of a windowed VWAP: the totals are those of the trades still inside the window. Each
   of them keeps it exactly as long as no trade dropped by a full ring has passed the cutoff.
   */
  lemma TotalsAreWindowedIff(duration: u64, trades: seq<TradeMessage>)
    ensures var tr := Run(duration, trades);
      var c := tr.state;
      var live, stale := Live(Accepted(duration, trades), CutoffOf(c)), Stale(DisplacedOf(tr.removed), CutoffOf(c));
      && (c.sumVolume == Volume(live) <==> stale == [])
      && (c.sumPriceVolume == Notional(live) <==> stale == [])
  {
    TotalsOfEveryRun(duration, trades);
    RunDisplacedGenuine(duration, trades);
    var tr := Run(duration, trades);
    StaleGenuine(DisplacedOf(tr.removed), CutoffOf(tr.state));
    NoVolumeIsEmpty(Stale(DisplacedOf(tr.removed), CutoffOf(tr.state)));
  }

  // ----- The quotient -----

  function MinPrice(s: seq<Record>): (p: i32)
    requires s != []
    ensures (exists i :: 0 <= i < |s| && s[i].price == p) && forall i :: 0 <= i < |s| ==> p <= s[i].price
  {
    var last := s[|s| - 1].price;
    if |s| == 1 then assert s[0].price == last; last
    else
      var rest := MinPrice(s[..|s| - 1]);
      if rest <= last then rest else assert s[|s| - 1].price == last; last
  }

  function MaxPrice(s: seq<Record>): (p: i32)
    requires s != []
    ensures (exists i :: 0 <= i < |s| && s[i].price == p) && forall i :: 0 <= i < |s| ==> s[i].price <= p
  {
    var last := s[|s| - 1].price;
    if |s| == 1 then assert s[0].price == last; last
    else
      var rest := MaxPrice(s[..|s| - 1]);
      if last <= rest then rest else assert s[|s| - 1].price == last; last
  }

  lemma {:induction false} NotionalBounds(s: seq<Record>, lo: int, hi: int)
    requires AllGenuine(s) && forall i :: 0 <= i < |s| ==> lo <= s[i].price <= hi
    ensures lo * Volume(s) <= Notional(s) <= hi * Volume(s)
  {
    if s != [] {
      var front, last := s[..|s| - 1], s[|s| - 1];
      NotionalBounds(front, lo, hi);
      TotalsOfLast(s);
      assert Genuine(last);
      BoundsExtend(lo, hi, Volume(front), Notional(front), last.price, last.quantity);
    }
  }

  lemma BoundsExtend(lo: int, hi: int, volume: nat, notional: int, price: int, quantity: nat)
    requires lo * volume <= notional <= hi * volume && lo <= price <= hi
    ensures lo * (volume + quantity) <= notional + price * quantity <= hi * (volume + quantity)
  {
    assert lo * quantity <= price * quantity <= hi * quantity;
  }

  lemma RatioBetween(lo: int, n: int, hi: int, d: int)
    requires 0 < d && lo * d <= n <= hi * d
    ensures lo as real <= Ratio(n, d) <= hi as real
  {
  }

  lemma MeanBetweenPrices(s: seq<Record>)
    requires s != [] && AllGenuine(s)
    ensures 0 < Volume(s)
    ensures 0.0 < MinPrice(s) as real <= Ratio(Notional(s), Volume(s)) <= MaxPrice(s) as real
  {
    NotionalBounds(s, MinPrice(s), MaxPrice(s));
    NoVolumeIsEmpty(s);
    RatioBetween(MinPrice(s), Notional(s), MaxPrice(s), Volume(s));
    var i :| 0 <= i < |s| && s[i].price == MinPrice(s);
    assert Genuine(s[i]);
  }

  lemma RunDisplacedGenuine(duration: u64, trades: seq<TradeMessage>)
    ensures AllGenuine(DisplacedOf(Run(duration, trades).removed))
  {
    RunKeepsInv(duration, trades);
    var tr := Run(duration, trades);
    forall i | 0 <= i < |tr.removed|
      ensures Genuine(tr.removed[i].record)
    {
      assert tr.removed[i].record == Accepted(duration, trades)[i];
    }
    DisplacedGenuine(tr.removed);
  }

  /** The records that weigh on the totals: those in the ring and those a full ring dropped. */
  function Contributing(tr: Trace): seq<Record> {
    DisplacedOf(tr.removed) + tr.state.window
  }

  lemma SuffixGenuine(a: seq<Record>, b: seq<Record>)
    requires AllGenuine(a + b)
    ensures AllGenuine(b)
  {
    assert forall i :: 0 <= i < |b| ==> b[i] == (a + b)[|a| + i];
  }

  lemma TotalsOfContributing(tr: Trace)
    requires TraceInv(tr) && AllGenuine(DisplacedOf(tr.removed))
    ensures AllGenuine(Contributing(tr))
    ensures tr.state.sumVolume == Volume(Contributing(tr)) && tr.state.sumPriceVolume == Notional(Contributing(tr))
  {
    TotalsSplit(DisplacedOf(tr.removed), tr.state.window);
    SuffixGenuine(Records(tr.removed), tr.state.window);
  }

  /** Once a trade has been accepted, the VWAP lies between the extreme prices that contribute to it. */
  lemma VwapBetweenPrices(duration: u64, trades: seq<TradeMessage>)
    requires Accepted(duration, trades) != []
    ensures var tr := Run(duration, trades);
      && 0 < tr.state.sumVolume
      && Contributing(tr) != []
      && 0.0 < MinPrice(Contributing(tr)) as real <= Vwap(tr.state) <= MaxPrice(Contributing(tr)) as real
  {
    RunKeepsInv(duration, trades);
    RunDisplacedGenuine(duration, trades);
    TotalsOfContributing(Run(duration, trades));
    MeanBetweenPrices(Contributing(Run(duration, trades)));
  }

  // ----- Which trades are accepted -----

  lemma NewestIs(past: seq<Record>, c: Calc)
    requires CalcInv(c) == true && c.window != []
    ensures (past + c.window)[|past + c.window| - 1].timestamp == c.lastTradeTime
  {
  }

  lemma LastTimeOf(tr: Trace, all: seq<Record>)
    requires TraceInv(tr) && all == Records(tr.removed) + tr.state.window
    ensures tr.state.lastTradeTime == if all == [] then 0 else all[|all| - 1].timestamp
  {
    if tr.state.window != [] {
      NewestIs(Records(tr.removed), tr.state);
    }
  }

  lemma LastAcceptedTime(duration: u64, trades: seq<TradeMessage>)
    ensures var accepted := Accepted(duration, trades);
      Run(duration, trades).state.lastTradeTime == if accepted == [] then 0 else accepted[|accepted| - 1].timestamp
  {
    RunKeepsInv(duration, trades);
    LastTimeOf(Run(duration, trades), Accepted(duration, trades));
  }

  /** Whether a trade passes, told by what was accepted before and what still weighs on the totals. */
  ghost predicate Acceptable(tr: Trace, accepted: seq<Record>, t: TradeMessage) {
    && 0 < t.price && 0 < t.quantity
    && (accepted != [] ==> accepted[|accepted| - 1].timestamp <= t.timestamp)
    && Notional(Contributing(tr)) + t.price * t.quantity < TWO64
    && Volume(Contributing(tr)) + t.quantity < TWO64
  }

  /**
   A trade is accepted, with its own fields and the exact product, if and only if price and quantity
   are positive, it is not older than the newest accepted one, and neither total would reach 2^64.
   */
  lemma AcceptedIff(duration: u64, trades: seq<TradeMessage>, t: TradeMessage)
    ensures var accepted := Accepted(duration, trades);
      Accepted(duration, trades + [t]) ==
        if Acceptable(Run(duration, trades), accepted, t)
        then accepted + [Record(t.timestamp, t.quantity, t.price, t.price * t.quantity)] else accepted
  {
    var tr := Run(duration, trades);
    RunKeepsInv(duration, trades);
    RunDisplacedGenuine(duration, trades);
    TotalsOfContributing(tr);
    LastAcceptedTime(duration, trades);
    assert (trades + [t])[..|trades|] == trades;
    if 0 < t.price && 0 < t.quantity {
      ProductFits(t);
    }
  }

  /** Every trade of a run is counted once, as accepted or as rejected. */
  lemma {:induction false} TradesAreCounted(duration: u64, trades: seq<TradeMessage>)
    ensures var c, accepted := Run(duration, trades).state, Accepted(duration, trades);
      && |accepted| <= |trades|
      && Shows(c.totalTrades, |accepted|) && Shows(c.rejectedTrades, |trades| - |accepted|)
  {
    if trades != [] {
      TradesAreCounted(duration, trades[..|trades| - 1]);
    }
  }

  // ----- A full ring -----

  /** A trade at time 1, price 1, quantity 1. */
  function Early(): TradeMessage {
    TradeMessage([0, 0, 0, 0, 0, 0, 0, 0], 1, 1, 1)
  }

  lemma {:induction false} RunOfRepeats(duration: u64, n: nat)
    requires 0 < duration && n <= MAX_TRADES
    ensures var tr := Run(duration, seq(n, _ => Early()));
      && tr.removed == [] && tr.state.window == seq(n, _ => RecordOf(Early()))
      && tr.state.sumVolume == n && tr.state.sumPriceVolume == n
      && tr.state.lastTradeTime <= 1 && tr.state.duration == duration
  {
    var t := Early();
    if n > 0 {
      RunOfRepeats(duration, n - 1);
      var tr := Run(duration, seq(n - 1, _ => t));
      assert seq(n, _ => t)[..n - 1] == seq(n - 1, _ => t);
      var r := RecordOf(t);
      assert r == Record(1, 1, 1, 1);
      assert Accepts(tr.state, t);
      var pushed := PushBounded(tr.state.window, r, MAX_TRADES);
      assert pushed == seq(n, _ => r);
      assert Cutoff(1, duration) == 0;
      assert LowerBound(pushed, 0) == 0;
      assert pushed[0..] == pushed && pushed[..0] == [];
      assert RemovalsOf(tr.state, r) == [];
    }
  }

  lemma {:induction false} StaleHas(s: seq<Record>, cutoff: u64, i: nat)
    requires i < |s| && s[i].timestamp < cutoff
    ensures Stale(s, cutoff) != []
  {
    if i < |s| - 1 {
      StaleHas(s[..|s| - 1], cutoff, i);
    }
  }

  /**
   The promise can be broken: 10001 trades at one instant fill the ring and displace one of them;
   after a trade that outdates them all, the displaced one still weighs on the totals.
   */
  lemma FullRingBreaksTotals(duration: u64)
    requires 0 < duration < TWO64 - 3
    ensures var late := TradeMessage([0, 0, 0, 0, 0, 0, 0, 0], duration + 3, 1, 1);
      var trades := seq(MAX_TRADES, _ => Early()) + [Early()] + [late];
      var c := Run(duration, trades).state;
      var live := Live(Accepted(duration, trades), CutoffOf(c));
      c.sumVolume != Volume(live) && c.sumPriceVolume != Notional(live)
  {
    var late := TradeMessage([0, 0, 0, 0, 0, 0, 0, 0], duration + 3, 1, 1);
    var over := seq(MAX_TRADES, _ => Early()) + [Early()];
    var trades := over + [late];
    assert trades[..|trades| - 1] == over;
    OverfullRing(duration);
    var trOver, tr := Run(duration, over), Run(duration, trades);
    assert Accepts(trOver.state, late);
    DisplacedSplit(trOver.removed, RemovalsOf(trOver.state, RecordOf(late)));
    StaleHas(DisplacedOf(tr.removed), CutoffOf(tr.state), 0);
    TotalsAreWindowedIff(duration, trades);
  }

  lemma OverfullRing(duration: u64)
    requires 0 < duration
    ensures var tr := Run(duration, seq(MAX_TRADES, _ => Early()) + [Early()]);
      && DisplacedOf(tr.removed) == [RecordOf(Early())]
      && tr.state.sumVolume <= MAX_TRADES + 1 && tr.state.sumPriceVolume <= MAX_TRADES + 1
      && tr.state.lastTradeTime == 1 && tr.state.duration == duration
  {
    var full := seq(MAX_TRADES, _ => Early());
    var over := full + [Early()];
    RunOfRepeats(duration, MAX_TRADES);
    assert over[..|over| - 1] == full;
    var tr := Run(duration, full);
    assert RecordOf(Early()) == Record(1, 1, 1, 1);
    assert Accepts(tr.state, Early());
    RemovalsFacts(tr.state, RecordOf(Early()));
    assert [] + RemovalsOf(tr.state, RecordOf(Early())) == RemovalsOf(tr.state, RecordOf(Early()));
  }
}
