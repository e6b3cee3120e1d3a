/**
 Whole runs of the trading system: every finite interleaving of trades and quotes. Where a contract
 says `P(...) == true`, that keeps the predicate one fact for the verifier.
 */
module TradingRuns {
  import opened MachineInts
  import opened Messages
  import opened BoundedSeq
  import opened TradingModel
  import opened WireCodec
  import VwapModel
  import VwapRuns
  import VwapReadiness
  import SendQueue

  datatype Event = Trade(trade: TradeMessage) | Quote(quote: QuoteMessage)

  /** A system together with everything it has emitted and decided since it started. */
  datatype Log = Log(system: System, orders: seq<OrderMessage>, decisions: seq<Decision>)

  function Step(l: Log, ev: Event): Log {
    match ev
    case Trade(t) => l.(system := ProcessTrade(l.system, t))
    case Quote(q) =>
      var (s, order) := ProcessQuote(l.system, q);
      Log(s, Extend(l.orders, order), l.decisions + [DecisionNow(l.system, q)])
  }

  function Extend(orders: seq<OrderMessage>, order: Option<OrderMessage>): seq<OrderMessage> {
    if order.Some? then orders + [order.value] else orders
  }

  /** The decision the engine records for q. */
  function DecisionNow(s: System, q: QuoteMessage): Decision {
    var e, vwap := CheckWindow(s).engine, VwapModel.Vwap(s.vwap);
    DecisionOf(e, q, vwap, Verdict(e, q, vwap))
  }

  function Run(config: EngineConfig, duration: u64, events: seq<Event>): Log {
    if events == [] then Log(NewSystem(config, duration), [], [])
    else Step(Run(config, duration, events[..|events| - 1]), events[|events| - 1])
  }

  function TradesOf(events: seq<Event>): seq<TradeMessage> {
    if events == [] then []
    else
      var ev := events[|events| - 1];
      TradesOf(events[..|events| - 1]) + if ev.Trade? then [ev.trade] else []
  }

  /** The part of processQuote before the engine is asked. */
  function CountQuote(s: System): System {
    CheckWindow(s.(quotes := Add64(s.quotes, 1)))
  }

  // ----- Agreement, readiness and bookkeeping -----

  function RecordsOf(orders: seq<OrderMessage>): seq<OrderRecord> {
    seq(|orders|, i requires 0 <= i < |orders| => RecordOfOrder(orders[i]))
  }

  ghost predicate CountersAgree(c: Counters) {
    && c.quotesProcessed == Add64(c.ordersTriggered, c.ordersRejected)
    && c.ordersRejected == Add64(Add64(c.waitingWindow, c.priceUnfavorable), Add64(c.cooldown, c.duplicate))
  }

  function Kinds(decisions: seq<Decision>): seq<DecisionType> {
    seq(|decisions|, i requires 0 <= i < |decisions| => decisions[i].kind)
  }

  /** How many decisions are of one kind. */
  function Tally(decisions: seq<Decision>, kind: DecisionType): nat {
    multiset(Kinds(decisions))[kind]
  }

  /** Each counter is the number of decisions of its kind, as far as 64 bits can tell. */
  ghost predicate CountersTell(c: Counters, decisions: seq<Decision>) {
    && Shows(c.quotesProcessed, |decisions|)
    && Shows(c.ordersTriggered, Tally(decisions, ORDER_TRIGGERED))
    && Shows(c.waitingWindow, Tally(decisions, REJECTED_WAITING_WINDOW))
    && Shows(c.priceUnfavorable, Tally(decisions, REJECTED_PRICE_UNFAVORABLE))
    && Shows(c.cooldown, Tally(decisions, REJECTED_COOLDOWN))
    && Shows(c.duplicate, Tally(decisions, REJECTED_DUPLICATE))
  }

  lemma TallyStep(decisions: seq<Decision>, d: Decision, kind: DecisionType)
    ensures Tally(decisions + [d], kind) == Tally(decisions, kind) + if d.kind == kind then 1 else 0
  {
    assert Kinds(decisions + [d]) == Kinds(decisions) + [d.kind];
  }

  lemma CountKeepsTell(c: Counters, decisions: seq<Decision>, d: Decision)
    requires CountersTell(c, decisions)
    ensures CountersTell(Count(c, d.kind), decisions + [d])
  {
    TallyStep(decisions, d, ORDER_TRIGGERED);
    TallyStep(decisions, d, REJECTED_WAITING_WINDOW);
    TallyStep(decisions, d, REJECTED_PRICE_UNFAVORABLE);
    TallyStep(decisions, d, REJECTED_COOLDOWN);
    TallyStep(decisions, d, REJECTED_DUPLICATE);
  }

  ghost predicate SystemInv(s: System) {
    && s.state == s.engine.state
    && s.state != ORDER_SENT
    && (s.notified <==> s.state == READY_TO_TRADE)
    && (s.state == READY_TO_TRADE <==> VwapModel.HasCompleteWindow(s.vwap))
    && VwapModel.CalcInv(s.vwap)
    && s.engine.lastProcessedQuote.timestamp == s.engine.lastOrderTimestamp
    && CountersAgree(s.engine.counters)
    && s.quotes == s.engine.counters.quotesProcessed
    && s.ordersSent == s.engine.counters.ordersTriggered
  }

  ghost predicate LogInv(l: Log) {
    && SystemInv(l.system)
    && CountersTell(l.system.engine.counters, l.decisions)
    && |l.orders| == Tally(l.decisions, ORDER_TRIGGERED)
    && l.system.engine.history == LastN(l.decisions, MAX_HISTORY)
    && l.system.orderHistory == LastN(RecordsOf(l.orders), MAX_HISTORY)
  }

  lemma SumSteps(a: u64, b: u64)
    ensures Add64(Add64(a, 1), b) == Add64(Add64(a, b), 1) == Add64(a, Add64(b, 1))
  {
  }

  lemma CountKeepsAgreement(c: Counters, kind: DecisionType)
    requires CountersAgree(c)
    ensures CountersAgree(Count(c, kind))
  {
    SumSteps(c.ordersTriggered, c.ordersRejected);
    SumSteps(c.waitingWindow, c.priceUnfavorable);
    SumSteps(c.cooldown, c.duplicate);
    SumSteps(Add64(c.waitingWindow, c.priceUnfavorable), Add64(c.cooldown, c.duplicate));
  }

  /** Once complete, the first window stays complete. */
  lemma CompletePersists(c: VwapModel.Calc, t: TradeMessage)
    requires VwapModel.CalcInv(c) && VwapModel.HasCompleteWindow(c)
    ensures VwapModel.HasCompleteWindow(VwapModel.AddTrade(c, t))
  {
    VwapModel.AddTradeKeepsInv(c, t);
  }

  lemma TradeKeepsInv(s: System, t: TradeMessage)
    requires SystemInv(s)
    ensures SystemInv(ProcessTrade(s, t))
  {
    VwapModel.AddTradeKeepsInv(s.vwap, t);
    if VwapModel.HasCompleteWindow(s.vwap) {
      CompletePersists(s.vwap, t);
    }
  }

  lemma QuoteKeepsInv(s: System, q: QuoteMessage)
    requires SystemInv(s)
    ensures SystemInv(ProcessQuote(s, q).0)
  {
    CountKeepsAgreement(s.engine.counters, Verdict(s.engine, q, VwapModel.Vwap(s.vwap)));
  }

  /** Each quote adds one decision to the engine's history and each order one record to the manager's. */
  lemma QuoteExtendsHistories(s: System, q: QuoteMessage)
    ensures var (s', order) := ProcessQuote(s, q);
      && s'.engine.history == PushBounded(s.engine.history, DecisionNow(s, q), MAX_HISTORY)
      && s'.engine.counters == Count(s.engine.counters, DecisionNow(s, q).kind)
      && (order.Some? <==> DecisionNow(s, q).kind == ORDER_TRIGGERED)
      && s'.orderHistory == (if order.Some? then PushBounded(s.orderHistory, RecordOfOrder(order.value), MAX_HISTORY)
                             else s.orderHistory)
  {
  }

  lemma HistoriesKept(decisions: seq<Decision>, d: Decision, orders: seq<OrderMessage>, order: Option<OrderMessage>)
    ensures PushBounded(LastN(decisions, MAX_HISTORY), d, MAX_HISTORY) == LastN(decisions + [d], MAX_HISTORY)
    ensures order.Some? ==>
      PushBounded(LastN(RecordsOf(orders), MAX_HISTORY), RecordOfOrder(order.value), MAX_HISTORY)
      == LastN(RecordsOf(Extend(orders, order)), MAX_HISTORY)
  {
  }

  lemma StepKeepsInv(l: Log, ev: Event)
    requires LogInv(l)
    ensures LogInv(Step(l, ev))
    ensures Step(l, ev).system.engine.config == l.system.engine.config
  {
    match ev
    case Trade(t) =>
      TradeKeepsInv(l.system, t);
    case Quote(q) =>
      QuoteKeepsInv(l.system, q);
      QuoteExtendsHistories(l.system, q);
      HistoriesKept(l.decisions, DecisionNow(l.system, q), l.orders, ProcessQuote(l.system, q).1);
      CountKeepsTell(l.system.engine.counters, l.decisions, DecisionNow(l.system, q));
      TallyStep(l.decisions, DecisionNow(l.system, q), ORDER_TRIGGERED);
  }

  lemma StartKeepsInv(config: EngineConfig, duration: u64, l: Log)
    requires l == Log(NewSystem(config, duration), [], [])
    ensures LogInv(l)
  {
    StartCounters(l.system.engine.counters, l.decisions);
    assert RecordsOf(l.orders) == [];
  }

  lemma StartCounters(c: Counters, decisions: seq<Decision>)
    requires c == Counters(0, 0, 0, 0, 0, 0, 0) && decisions == []
    ensures CountersTell(c, decisions) && Tally(decisions, ORDER_TRIGGERED) == 0
  {
  }

  /**
   After every run: manager and engine agree, ORDER_SENT is never visible, readiness is exactly the
   calculator's, every quote is accounted for, and both histories hold the newest 1000 entries.
   */
  lemma {:induction false} RunKeepsInv(config: EngineConfig, duration: u64, events: seq<Event>)
    ensures LogInv(Run(config, duration, events))
    ensures Run(config, duration, events).system.engine.config == config
    ensures var l := Run(config, duration, events);
      && l.system.engine.history == LastN(l.decisions, 1000)
      && l.system.orderHistory == LastN(RecordsOf(l.orders), 1000)
  {
    if events == [] {
      StartKeepsInv(config, duration, Run(config, duration, events));
    } else {
      RunKeepsInv(config, duration, events[..|events| - 1]);
      StepKeepsInv(Run(config, duration, events[..|events| - 1]), events[|events| - 1]);
    }
  }

  /** Quotes do not disturb the calculator: it has run on the trades alone. */
  lemma {:induction false} CalculatorSeesTrades(config: EngineConfig, duration: u64, events: seq<Event>)
    ensures Run(config, duration, events).system.vwap == VwapRuns.Run(duration, TradesOf(events)).state
  {
    if events != [] {
      var before, ev := events[..|events| - 1], events[|events| - 1];
      CalculatorSeesTrades(config, duration, before);
      if ev.Trade? {
        assert TradesOf(events)[..|TradesOf(events)| - 1] == TradesOf(before);
      } else {
        assert TradesOf(events) == TradesOf(before);
      }
    }
  }

  lemma StepKeepsReady(l: Log, ev: Event)
    requires SystemInv(l.system) && l.system.state == READY_TO_TRADE
    ensures Step(l, ev).system.state == READY_TO_TRADE
  {
  }

  /** Readiness, once reached, is never lost. */
  lemma {:induction false} ReadinessPersists(config: EngineConfig, duration: u64, events: seq<Event>, more: seq<Event>)
    requires Run(config, duration, events).system.state == READY_TO_TRADE
    ensures Run(config, duration, events + more).system.state == READY_TO_TRADE
  {
    if more == [] {
      assert events + more == events;
    } else {
      var front, last := more[..|more| - 1], more[|more| - 1];
      ReadinessPersists(config, duration, events, front);
      RunKeepsInv(config, duration, events + front);
      StepKeepsReady(Run(config, duration, events + front), last);
      assert (events + more)[..|events + more| - 1] == events + front;
    }
  }

  /** No order leaves before two accepted trades lie at least one window duration apart. */
  lemma NoOrderBeforeFullWindow(config: EngineConfig, duration: u64, events: seq<Event>, q: QuoteMessage)
    requires ProcessQuote(Run(config, duration, events).system, q).1.Some?
    ensures var accepted := VwapRuns.Accepted(duration, TradesOf(events));
      && accepted != []
      && accepted[|accepted| - 1].timestamp - accepted[0].timestamp >= duration
  {
    RunKeepsInv(config, duration, events);
    CalculatorSeesTrades(config, duration, events);
    VwapReadiness.ReadyIsSound(duration, TradesOf(events));
  }

  /**
   When trading can begin at all: exactly when the accepted trades span a window, which without an
   overflow of the trade ring means that two of them are one window duration apart.
   */
  lemma ReadyToTradeIff(config: EngineConfig, duration: u64, events: seq<Event>)
    requires 0 < duration
    ensures var accepted := VwapRuns.Accepted(duration, TradesOf(events));
      var ready := Run(config, duration, events).system.state == READY_TO_TRADE;
      && ready == VwapReadiness.WindowSpanned(accepted, duration)
      && (VwapRuns.DisplacedOf(VwapRuns.Run(duration, TradesOf(events)).removed) == [] ==>
            ready == VwapReadiness.DurationApart(accepted, duration))
  {
    RunKeepsInv(config, duration, events);
    CalculatorSeesTrades(config, duration, events);
    VwapReadiness.ReadyIff(duration, TradesOf(events));
    if VwapRuns.DisplacedOf(VwapRuns.Run(duration, TradesOf(events)).removed) == [] {
      VwapReadiness.ReadyWithoutOverflowIff(duration, TradesOf(events));
    }
  }

  // ----- Soundness of orders -----

  lemma RatioAbove(price: int, n: int, d: int)
    requires 0 < d
    ensures price as real < VwapModel.Ratio(n, d) <==> price * d < n
    ensures VwapModel.Ratio(n, d) < price as real <==> n < price * d
  {
    var x := VwapModel.Ratio(n, d);
    assert x * d as real == n as real;
    assert (price * d) as real == price as real * d as real;
  }

  /** Neither the limit nor the quoted size is exceeded, and one of them is reached. */
  predicate LargestAllowed(quantity: u32, config: EngineConfig, q: QuoteMessage) {
    var quoted := if config.side == BUY then q.askQuantity else q.bidQuantity;
    && quantity <= config.maxOrderSize && quantity <= quoted
    && (quantity == config.maxOrderSize || quantity == quoted)
  }

  /** What an engine promises about an order it emits, at a given VWAP. */
  lemma EvaluateIsSound(e: Engine, q: QuoteMessage, vwap: real)
    requires ValidQuote(q) && e.config.maxOrderSize != 0 && Evaluate(e, q, vwap).1.Some?
    ensures e.state != WAITING_FOR_FIRST_WINDOW && 0.0 < vwap
    ensures var o, config := Evaluate(e, q, vwap).1.value, e.config;
      && o.price == RelevantPrice(config.side, q)
      && (if config.side == BUY then o.price as real < vwap else vwap < o.price as real)
      && 1 <= o.quantity && LargestAllowed(o.quantity, config, q)
      && o.timestamp == q.timestamp && o.side == config.side && o.symbol == PadSymbol(config.symbol)
  {
  }

  /** What a system promises about an order it emits. */
  ghost predicate SoundOrder(o: OrderMessage, config: EngineConfig, q: QuoteMessage, vwap: VwapModel.Calc) {
    && 0 < vwap.sumVolume
    && (if config.side == BUY then o.price == q.askPrice && o.price * vwap.sumVolume < vwap.sumPriceVolume
        else o.price == q.bidPrice && vwap.sumPriceVolume < o.price * vwap.sumVolume)
    && 1 <= o.quantity && LargestAllowed(o.quantity, config, q)
    && o.timestamp == q.timestamp && o.side == config.side && o.symbol == PadSymbol(config.symbol)
  }

  lemma SystemIsSound(s: System, q: QuoteMessage)
    requires SystemInv(s) && ValidQuote(q) && s.engine.config.maxOrderSize != 0
    requires ProcessQuote(s, q).1.Some?
    ensures SoundOrder(ProcessQuote(s, q).1.value, s.engine.config, q, s.vwap)
  {
    EvaluateIsSound(CountQuote(s).engine, q, VwapModel.Vwap(s.vwap));
    assert s.vwap.sumVolume > 0;
    RatioAbove(RelevantPrice(s.engine.config.side, q), s.vwap.sumPriceVolume, s.vwap.sumVolume);
  }

  /**
   Every order a run emits on a valid quote beats the exact ratio of the totals held at that moment,
   carries the quoted price unchanged, and asks for at least one unit and for as many as the order
   limit and the quoted size allow.
   */
  lemma OrderIsSound(config: EngineConfig, duration: u64, events: seq<Event>, q: QuoteMessage)
    requires ValidQuote(q) && config.maxOrderSize != 0
    requires ProcessQuote(Run(config, duration, events).system, q).1.Some?
    ensures var s := Run(config, duration, events).system;
      SoundOrder(ProcessQuote(s, q).1.value, config, q, s.vwap)
  {
    RunKeepsInv(config, duration, events);
    SystemIsSound(Run(config, duration, events).system, q);
  }

  lemma PositiveFactor(n: nat, p: int, d: int)
    requires n < p * d && 0 < d
    ensures 0 < p
  {
  }

  lemma SoundIsSendableIff(o: OrderMessage, config: EngineConfig, q: QuoteMessage, vwap: VwapModel.Calc)
    requires SoundOrder(o, config, q, vwap) && 0 <= vwap.sumPriceVolume
    requires config.side == BUY || config.side == SELL
    requires ValidQuote(q)
    ensures SendQueue.Sendable(o) <==> config.side == SELL || q.askPrice != 0
  {
    if config.side == SELL {
      PositiveFactor(vwap.sumPriceVolume, o.price, vwap.sumVolume);
    }
  }

  /**
   sendOrder takes every order emitted on a valid quote except a purchase at price zero, which a run
   emits and counts as sent although the order client refuses it.
   */
  lemma EmittedOrderIsSendableIff(config: EngineConfig, duration: u64, events: seq<Event>, q: QuoteMessage)
    requires ValidQuote(q) && ValidSettings(config.side, config.maxOrderSize, 1)
    requires ProcessQuote(Run(config, duration, events).system, q).1.Some?
    ensures SendQueue.Sendable(ProcessQuote(Run(config, duration, events).system, q).1.value)
            <==> config.side == SELL || q.askPrice != 0
  {
    OrderIsSound(config, duration, events, q);
    RunKeepsInv(config, duration, events);
    var s := Run(config, duration, events).system;
    SoundIsSendableIff(ProcessQuote(s, q).1.value, config, q, s.vwap);
  }

  // ----- The order rate -----

  /** The timestamp of the newest quote, zero when there is none. */
  function LastQuoteTime(events: seq<Event>): u64 {
    if events == [] then 0
    else
      var ev := events[|events| - 1];
      if ev.Quote? then ev.quote.timestamp else LastQuoteTime(events[..|events| - 1])
  }

  /** Quotes carry positive timestamps, none smaller than that of the quote before it. */
  predicate ClockAdvances(events: seq<Event>) {
    events == []
    || var front, ev := events[..|events| - 1], events[|events| - 1];
       && ClockAdvances(front)
       && (ev.Quote? ==> 0 < ev.quote.timestamp && LastQuoteTime(front) <= ev.quote.timestamp)
  }

  ghost predicate Spaced(orders: seq<OrderMessage>, cooldown: int) {
    forall i :: 0 < i < |orders| ==> orders[i - 1].timestamp + cooldown <= orders[i].timestamp
  }

  /** What the spacing proof carries along: the last order is the one the engine remembers. */
  ghost predicate RateInv(l: Log, newest: u64) {
    var last := l.system.engine.lastOrderTimestamp;
    && Spaced(l.orders, l.system.engine.config.cooldownNanos)
    && (l.orders == [] <==> last == 0)
    && (l.orders != [] ==> l.orders[|l.orders| - 1].timestamp == last <= newest)
  }

  /** An order leaves only after the cooldown, unless time has stepped back, and is remembered. */
  lemma EvaluateSpaces(e: Engine, q: QuoteMessage, vwap: real)
    ensures var (e', order) := Evaluate(e, q, vwap);
      && (order == None ==> e'.lastOrderTimestamp == e.lastOrderTimestamp)
      && (order.Some? ==> order.value.timestamp == e'.lastOrderTimestamp == q.timestamp)
      && (order.Some? && e.lastOrderTimestamp != 0 ==>
            q.timestamp < e.lastOrderTimestamp || e.lastOrderTimestamp + e.config.cooldownNanos <= q.timestamp)
      && e'.config == e.config
  {
  }

  lemma QuoteSpaces(l: Log, q: QuoteMessage)
    requires LogInv(l)
    ensures var l', last := Step(l, Quote(q)), l.system.engine.lastOrderTimestamp;
      && l'.system.engine.config == l.system.engine.config
      && (|| (l'.orders == l.orders && l'.system.engine.lastOrderTimestamp == last)
          || (&& |l'.orders| == |l.orders| + 1 && l'.orders[..|l.orders|] == l.orders
              && l'.orders[|l.orders|].timestamp == l'.system.engine.lastOrderTimestamp == q.timestamp
              && (last == 0 || q.timestamp < last || last + l.system.engine.config.cooldownNanos <= q.timestamp)))
  {
    EvaluateSpaces(CountQuote(l.system).engine, q, VwapModel.Vwap(l.system.vwap));
  }

  lemma TradeKeepsRate(l: Log, newest: u64, t: TradeMessage)
    requires RateInv(l, newest) == true
    ensures RateInv(Step(l, Trade(t)), newest) == true
  {
  }

  lemma StepKeepsRate(l: Log, newest: u64, q: QuoteMessage)
    requires LogInv(l) == true && RateInv(l, newest) == true && 0 < q.timestamp && newest <= q.timestamp
    ensures RateInv(Step(l, Quote(q)), q.timestamp) == true
  {
    QuoteSpaces(l, q);
    var l' := Step(l, Quote(q));
    if |l'.orders| > |l.orders| {
      assert l'.orders == l.orders + [l'.orders[|l.orders|]];
    }
  }

  lemma StartKeepsRate(l: Log)
    requires l.orders == [] && l.system.engine.lastOrderTimestamp == 0
    ensures RateInv(l, 0) == true
  {
  }

  lemma {:induction false} RunKeepsRate(config: EngineConfig, duration: u64, events: seq<Event>)
    requires ClockAdvances(events)
    ensures RateInv(Run(config, duration, events), LastQuoteTime(events)) == true
  {
    if events == [] {
      StartKeepsRate(Run(config, duration, events));
    } else {
      var before, ev := events[..|events| - 1], events[|events| - 1];
      RunKeepsRate(config, duration, before);
      RunKeepsInv(config, duration, before);
      if ev.Quote? {
        StepKeepsRate(Run(config, duration, before), LastQuoteTime(before), ev.quote);
      } else {
        TradeKeepsRate(Run(config, duration, before), LastQuoteTime(before), ev.trade);
      }
    }
  }

  lemma {:induction false} SpacedApart(orders: seq<OrderMessage>, cooldown: nat, i: nat, j: nat)
    requires Spaced(orders, cooldown) && i <= j < |orders|
    ensures (j - i) * cooldown <= orders[j].timestamp - orders[i].timestamp
  {
    if i < j {
      SpacedApart(orders, cooldown, i, j - 1);
      assert (j - i) * cooldown == (j - 1 - i) * cooldown + cooldown;
    }
  }

  lemma QuotientBound(k: nat, c: nat, n: nat)
    requires 0 < c && k * c <= n
    ensures k <= n / c
  {
    assert n == (n / c) * c + n % c;
    assert (n / c + 1) * c == (n / c) * c + c;
    if n / c + 1 <= k {
      ScaleUp(n / c + 1, k, c);
    }
  }

  lemma ScaleUp(a: nat, b: nat, c: nat)
    requires a <= b
    ensures a * c <= b * c
  {
  }

  lemma SpacedCount(orders: seq<OrderMessage>, cooldown: nat, i: nat, j: nat, from: int, length: nat)
    requires Spaced(orders, cooldown) && i <= j < |orders| && 0 < cooldown
    requires from <= orders[i].timestamp && orders[j].timestamp <= from + length
    ensures j - i + 1 <= length / cooldown + 1
  {
    SpacedApart(orders, cooldown, i, j);
    QuotientBound(j - i, cooldown, length);
  }

  /**
   While quote timestamps are positive and never decrease, orders i and j of a run lie at least
   (j - i) cooldowns apart, so an interval of any length holds at most length / cooldown + 1 orders.
   */
  lemma OrderRateIsBounded(config: EngineConfig, duration: u64, events: seq<Event>,
                           i: nat, j: nat, from: int, length: nat)
    requires ClockAdvances(events) && 0 < config.cooldownNanos
    requires i <= j < |Run(config, duration, events).orders|
    ensures var orders := Run(config, duration, events).orders;
      && (j - i) * config.cooldownNanos <= orders[j].timestamp - orders[i].timestamp
      && (from <= orders[i].timestamp && orders[j].timestamp <= from + length ==>
            j - i + 1 <= length / config.cooldownNanos + 1)
  {
    RunKeepsRate(config, duration, events);
    RunKeepsInv(config, duration, events);
    var orders := Run(config, duration, events).orders;
    SpacedApart(orders, config.cooldownNanos, i, j);
    if from <= orders[i].timestamp && orders[j].timestamp <= from + length {
      SpacedCount(orders, config.cooldownNanos, i, j, from, length);
    }
  }

  /** The timestamp of the newest order, zero when there is none. */
  function LastOrderTime(orders: seq<OrderMessage>): u64 {
    if orders == [] then 0 else orders[|orders| - 1].timestamp
  }

  /** What the engine remembers of its orders. */
  ghost predicate Remembers(l: Log) {
    var e := l.system.engine;
    && e.lastOrderTimestamp == LastOrderTime(l.orders)
    && (l.orders == [] ==> e.lastProcessedQuote == QuoteIdentifier(0, 0, 0))
  }

  lemma QuoteKeepsMemory(l: Log, q: QuoteMessage)
    requires LogInv(l) && Remembers(l)
    ensures Remembers(Step(l, Quote(q)))
  {
    QuoteSpaces(l, q);
    assert ProcessQuote(l.system, q).1 == None ==>
      Step(l, Quote(q)).system.engine.lastProcessedQuote == l.system.engine.lastProcessedQuote;
  }

  lemma {:induction false} RunRemembers(config: EngineConfig, duration: u64, events: seq<Event>)
    ensures Remembers(Run(config, duration, events))
  {
    if events != [] {
      var before, ev := events[..|events| - 1], events[|events| - 1];
      RunRemembers(config, duration, before);
      RunKeepsInv(config, duration, before);
      if ev.Quote? {
        QuoteKeepsMemory(Run(config, duration, before), ev.quote);
      }
    }
  }

  /**
   In every run an order respects the cooldown after the one before it exactly when time has not run
   backwards and the earlier order was not at time zero, unless the cooldown has passed since then too.
   The unsigned difference of a smaller timestamp wraps around and looks like a long wait, and time
   zero stands for no order at all.
   */
  lemma CooldownRespectedIff(config: EngineConfig, duration: u64, events: seq<Event>, q: QuoteMessage)
    requires Run(config, duration, events).orders != []
    requires ProcessQuote(Run(config, duration, events).system, q).1.Some?
    ensures var last := LastOrderTime(Run(config, duration, events).orders);
      last + config.cooldownNanos <= q.timestamp
      <==> last <= q.timestamp && (last != 0 || config.cooldownNanos <= q.timestamp)
  {
    RunKeepsInv(config, duration, events);
    RunRemembers(config, duration, events);
    QuoteSpaces(Run(config, duration, events), q);
  }

  // ----- Exactly when an order leaves -----

  /** The quote beats the exact ratio of the totals, compared without dividing. */
  predicate Beats(side: u8, q: QuoteMessage, vwap: VwapModel.Calc) {
    if side == BUY then q.askPrice * vwap.sumVolume < vwap.sumPriceVolume
    else vwap.sumPriceVolume < q.bidPrice * vwap.sumVolume
  }

  lemma EmitsIff(s: System, q: QuoteMessage)
    requires SystemInv(s)
    requires s.state == READY_TO_TRADE ==> 0 < s.vwap.sumVolume && 0.0 < VwapModel.Vwap(s.vwap)
    ensures ProcessQuote(s, q).1.Some? <==>
      && s.state == READY_TO_TRADE
      && !IsDuplicateQuote(s.engine, q) && !IsInCooldown(s.engine, q.timestamp)
      && Beats(s.engine.config.side, q, s.vwap)
  {
    assert CountQuote(s).engine == s.engine;
    if s.state == READY_TO_TRADE {
      RatioAbove(RelevantPrice(s.engine.config.side, q), s.vwap.sumPriceVolume, s.vwap.sumVolume);
    }
  }

  lemma ReadyHasVwap(config: EngineConfig, duration: u64, events: seq<Event>)
    requires Run(config, duration, events).system.state == READY_TO_TRADE
    ensures var vwap := Run(config, duration, events).system.vwap; 0 < vwap.sumVolume && 0.0 < VwapModel.Vwap(vwap)
  {
    RunKeepsInv(config, duration, events);
    CalculatorSeesTrades(config, duration, events);
    VwapReadiness.ReadyIsSound(duration, TradesOf(events));
    VwapRuns.VwapBetweenPrices(duration, TradesOf(events));
  }

  /**
   Exactly when a quote draws an order, in every run: the accepted trades span a window, the unsigned
   time since the last order is at least the cooldown unless that order was at time zero, the price
   beats the totals held, and, where no cooldown can tell, the quote is not the one just acted on.
   */
  lemma OrderLeavesIff(config: EngineConfig, duration: u64, events: seq<Event>, q: QuoteMessage)
    requires 0 < duration
    ensures var l := Run(config, duration, events);
      var last := LastOrderTime(l.orders);
      ProcessQuote(l.system, q).1.Some? <==>
        && VwapReadiness.WindowSpanned(VwapRuns.Accepted(duration, TradesOf(events)), duration)
        && (last == 0 || config.cooldownNanos <= Sub64(q.timestamp, last))
        && Beats(config.side, q, l.system.vwap)
        && (q.timestamp == 0 || config.cooldownNanos == 0 ==> !IsDuplicateQuote(l.system.engine, q))
  {
    RunKeepsInv(config, duration, events);
    RunRemembers(config, duration, events);
    ReadyToTradeIff(config, duration, events);
    var l := Run(config, duration, events);
    if l.system.state == READY_TO_TRADE {
      ReadyHasVwap(config, duration, events);
    }
    EmitsIff(l.system, q);
    if IsDuplicateQuote(l.system.engine, q) {
      DuplicateIsInCooldownIff(config, duration, events, q);
    }
  }

  lemma WaitOnTime(l: Log, newest: u64, now: u64, cooldown: u64)
    requires RateInv(l, newest) == true && Remembers(l) == true && newest <= now
    ensures LastOrderTime(l.orders) == 0 || cooldown <= Sub64(now, LastOrderTime(l.orders))
            <==> l.orders == [] || l.orders[|l.orders| - 1].timestamp + cooldown <= now
  {
  }

  /** With positive quote times that never decrease, the wait is the plain difference. */
  lemma OrderLeavesOnTimeIff(config: EngineConfig, duration: u64, events: seq<Event>, q: QuoteMessage)
    requires 0 < duration && 0 < config.cooldownNanos
    requires ClockAdvances(events) && 0 < q.timestamp && LastQuoteTime(events) <= q.timestamp
    ensures var l := Run(config, duration, events);
      ProcessQuote(l.system, q).1.Some? <==>
        && VwapReadiness.WindowSpanned(VwapRuns.Accepted(duration, TradesOf(events)), duration)
        && (l.orders == [] || l.orders[|l.orders| - 1].timestamp + config.cooldownNanos <= q.timestamp)
        && Beats(config.side, q, l.system.vwap)
  {
    RunKeepsRate(config, duration, events);
    RunRemembers(config, duration, events);
    WaitOnTime(Run(config, duration, events), LastQuoteTime(events), q.timestamp, config.cooldownNanos);
    OrderLeavesIff(config, duration, events, q);
  }

  // ----- Why a quote draws no order, and what is recorded -----

  lemma OneMoreQuote(config: EngineConfig, duration: u64, events: seq<Event>, q: QuoteMessage)
    ensures Run(config, duration, events + [Quote(q)]) == Step(Run(config, duration, events), Quote(q))
    ensures TradesOf(events + [Quote(q)]) == TradesOf(events)
  {
    var after := events + [Quote(q)];
    assert after[..|after| - 1] == events && after[|after| - 1] == Quote(q);
    assert TradesOf(events) + [] == TradesOf(events);
  }

  lemma OrderIsRemembered(s: System, q: QuoteMessage)
    requires ProcessQuote(s, q).1.Some?
    ensures ProcessQuote(s, q).0.engine.lastProcessedQuote == IdentifierOf(s.engine.config.side, q)
    ensures ProcessQuote(s, q).0.engine.config == s.engine.config
  {
  }

  /** The quote that drew the newest order of a run. */
  function ActedOn(config: EngineConfig, duration: u64, events: seq<Event>): Option<QuoteMessage> {
    if events == [] then None
    else
      var front, ev := events[..|events| - 1], events[|events| - 1];
      if ev.Quote? && ProcessQuote(Run(config, duration, front).system, ev.quote).1.Some? then Some(ev.quote)
      else ActedOn(config, duration, front)
  }

  /** Same time, and same price and size on the side that is traded; before any order, all three zero. */
  predicate Repeats(side: u8, q: QuoteMessage, p: Option<QuoteMessage>) {
    var time, ask, asked := q.timestamp, q.askPrice, q.askQuantity;
    var bid, bidden := q.bidPrice, q.bidQuantity;
    match p
    case None => time == 0 && if side == BUY then ask == 0 && asked == 0 else bid == 0 && bidden == 0
    case Some(p) =>
      time == p.timestamp
      && if side == BUY then ask == p.askPrice && asked == p.askQuantity
         else bid == p.bidPrice && bidden == p.bidQuantity
  }

  ghost predicate RemembersQuote(e: Engine, p: Option<QuoteMessage>) {
    e.lastProcessedQuote == if p.Some? then IdentifierOf(e.config.side, p.value) else QuoteIdentifier(0, 0, 0)
  }

  lemma QuoteIsForgottenOnly(s: System, q: QuoteMessage)
    requires ProcessQuote(s, q).1 == None
    ensures ProcessQuote(s, q).0.engine.lastProcessedQuote == s.engine.lastProcessedQuote
  {
  }

  lemma {:induction false} RunRemembersQuote(config: EngineConfig, duration: u64, events: seq<Event>)
    ensures RemembersQuote(Run(config, duration, events).system.engine, ActedOn(config, duration, events)) == true
  {
    if events != [] {
      var before, ev := events[..|events| - 1], events[|events| - 1];
      RunRemembersQuote(config, duration, before);
      RunKeepsInv(config, duration, before);
      RunKeepsInv(config, duration, events);
      var s := Run(config, duration, before).system;
      if ev.Quote? {
        if ProcessQuote(s, ev.quote).1.Some? {
          OrderIsRemembered(s, ev.quote);
        } else {
          QuoteIsForgottenOnly(s, ev.quote);
        }
      }
    }
  }

  lemma CastKeepsApart(a: u32, b: u32)
    ensures ToI32(a) == ToI32(b) <==> a == b
  {
  }

  /** In every run a quote counts as a duplicate exactly when it repeats the one last acted on. */
  lemma DuplicateIff(config: EngineConfig, duration: u64, events: seq<Event>, q: QuoteMessage)
    ensures IsDuplicateQuote(Run(config, duration, events).system.engine, q)
            <==> Repeats(config.side, q, ActedOn(config, duration, events))
  {
    RunRemembersQuote(config, duration, events);
    RunKeepsInv(config, duration, events);
    match ActedOn(config, duration, events)
    case None => CastKeepsApart(q.bidPrice, 0);
    case Some(p) => CastKeepsApart(q.bidPrice, p.bidPrice);
  }

  /** The kind of decision a run takes on a quote, the first reason that applies. */
  ghost function KindNow(config: EngineConfig, duration: u64, events: seq<Event>, q: QuoteMessage): DecisionType {
    var l := Run(config, duration, events);
    var last := LastOrderTime(l.orders);
    if !VwapReadiness.WindowSpanned(VwapRuns.Accepted(duration, TradesOf(events)), duration) then
      REJECTED_WAITING_WINDOW
    else if Repeats(config.side, q, ActedOn(config, duration, events)) then REJECTED_DUPLICATE
    else if last != 0 && Sub64(q.timestamp, last) < config.cooldownNanos then REJECTED_COOLDOWN
    else if !Beats(config.side, q, l.system.vwap) then REJECTED_PRICE_UNFAVORABLE
    else ORDER_TRIGGERED
  }

  lemma VerdictIs(s: System, q: QuoteMessage)
    requires SystemInv(s)
    requires s.state == READY_TO_TRADE ==> 0 < s.vwap.sumVolume && 0.0 < VwapModel.Vwap(s.vwap)
    ensures CountQuote(s).engine == s.engine
    ensures Verdict(s.engine, q, VwapModel.Vwap(s.vwap)) ==
      if s.state != READY_TO_TRADE then REJECTED_WAITING_WINDOW
      else if IsDuplicateQuote(s.engine, q) then REJECTED_DUPLICATE
      else if IsInCooldown(s.engine, q.timestamp) then REJECTED_COOLDOWN
      else if !Beats(s.engine.config.side, q, s.vwap) then REJECTED_PRICE_UNFAVORABLE
      else ORDER_TRIGGERED
  {
    if s.state == READY_TO_TRADE {
      RatioAbove(RelevantPrice(s.engine.config.side, q), s.vwap.sumPriceVolume, s.vwap.sumVolume);
    }
  }

  /** In every run the reason of a decision is the first that applies, told without the engine's guards. */
  lemma KindIsTold(config: EngineConfig, duration: u64, events: seq<Event>, q: QuoteMessage)
    requires 0 < duration
    ensures DecisionNow(Run(config, duration, events).system, q).kind == KindNow(config, duration, events, q)
  {
    RunKeepsInv(config, duration, events);
    RunRemembers(config, duration, events);
    ReadyToTradeIff(config, duration, events);
    DuplicateIff(config, duration, events, q);
    var l := Run(config, duration, events);
    if l.system.state == READY_TO_TRADE {
      ReadyHasVwap(config, duration, events);
    }
    VerdictIs(l.system, q);
  }

  /** What is recorded of a quote, for a given kind of decision and the order drawn, if any. */
  ghost predicate RecordedAs(d: Decision, config: EngineConfig, q: QuoteMessage, vwap: real,
                             order: Option<OrderMessage>) {
    var priced := d.kind == REJECTED_PRICE_UNFAVORABLE || d.kind == ORDER_TRIGGERED;
    && d.timestamp == q.timestamp && d.vwap == vwap
    && d.quotePrice == (if !priced then 0 else if config.side == BUY then q.askPrice else q.bidPrice)
    && d.quoteSize == (if !priced then 0 else if config.side == BUY then q.askQuantity else q.bidQuantity)
    && d.orderSize == (if order.Some? then order.value.quantity else 0)
  }

  /**
   Every quote adds one decision to the run: the first reason that applies, with the price and the
   size looked at when the price was looked at, and the size ordered when there is an order.
   */
  lemma DecisionIsTold(config: EngineConfig, duration: u64, events: seq<Event>, q: QuoteMessage)
    requires 0 < duration
    ensures var l, after := Run(config, duration, events), Run(config, duration, events + [Quote(q)]);
      var order := ProcessQuote(l.system, q).1;
      && |after.decisions| == |l.decisions| + 1 && after.decisions[..|l.decisions|] == l.decisions
      && after.decisions[|l.decisions|].kind == KindNow(config, duration, events, q)
      && RecordedAs(after.decisions[|l.decisions|], config, q, VwapModel.Vwap(l.system.vwap), order)
      && (order.Some? <==> KindNow(config, duration, events, q) == ORDER_TRIGGERED)
  {
    OneMoreQuote(config, duration, events, q);
    KindIsTold(config, duration, events, q);
    RunKeepsInv(config, duration, events);
    VerdictStands(Run(config, duration, events).system, q);
  }

  lemma VerdictStands(s: System, q: QuoteMessage)
    requires SystemInv(s)
    ensures var d, order := DecisionNow(s, q), ProcessQuote(s, q).1;
      && RecordedAs(d, s.engine.config, q, VwapModel.Vwap(s.vwap), order) == true
      && (order.Some? <==> d.kind == ORDER_TRIGGERED)
  {
  }

  /** A record keeps the fields of its order, and of the symbol the bytes before the first zero. */
  lemma RecordKeepsOrder(o: OrderMessage)
    ensures var r := RecordOfOrder(o);
      && r.timestamp == o.timestamp && r.side == o.side && r.quantity == o.quantity && r.price == o.price
      && r.symbol <= o.symbol && 0 !in r.symbol
      && (|r.symbol| < |o.symbol| ==> o.symbol[|r.symbol|] == 0)
  {
    CStringStops(o.symbol);
  }

  lemma {:induction false} CStringStops(s: seq<u8>)
    ensures CString(s) <= s && 0 !in CString(s)
    ensures |CString(s)| < |s| ==> s[|CString(s)|] == 0
  {
    if s != [] && s[0] != 0 {
      CStringStops(s[1..]);
    }
  }

  function QuotesOf(events: seq<Event>): seq<QuoteMessage> {
    if events == [] then []
    else
      var ev := events[|events| - 1];
      QuotesOf(events[..|events| - 1]) + if ev.Quote? then [ev.quote] else []
  }

  /** Each quote and each trade of a run is counted once. */
  lemma {:induction false} EventsAreCounted(config: EngineConfig, duration: u64, events: seq<Event>)
    ensures var l := Run(config, duration, events);
      && |l.decisions| == |QuotesOf(events)|
      && Shows(l.system.quotes, |QuotesOf(events)|) && Shows(l.system.trades, |TradesOf(events)|)
  {
    if events != [] {
      EventsAreCounted(config, duration, events[..|events| - 1]);
    }
  }

  // ----- Runs that emit orders -----

  predicate OnlyTrades(events: seq<Event>) {
    forall i :: 0 <= i < |events| ==> events[i].Trade?
  }

  /** Trades alone emit nothing. */
  lemma {:induction false} TradesEmitNothing(config: EngineConfig, duration: u64, events: seq<Event>)
    requires OnlyTrades(events)
    ensures Run(config, duration, events).orders == []
  {
    if events != [] {
      var before, ev := events[..|events| - 1], events[|events| - 1];
      TradesEmitNothing(config, duration, before);
      assert Run(config, duration, events) == Step(Run(config, duration, before), ev);
    }
  }

  /** Two trades of one unit at price 1, exactly one duration apart. */
  predicate OpeningTrades(duration: u64, trades: seq<TradeMessage>) {
    && 0 < duration < TWO64 - 1
    && |trades| == 2
    && trades[0].timestamp == trades[0].quantity == trades[0].price == 1
    && trades[1].timestamp == duration + 1 && trades[1].quantity == trades[1].price == 1
  }

  /** The trades span a window at price 1. */
  ghost predicate OpensAtOne(duration: u64, events: seq<Event>, vwap: VwapModel.Calc) {
    && VwapReadiness.WindowSpanned(VwapRuns.Accepted(duration, TradesOf(events)), duration)
    && vwap.sumVolume == vwap.sumPriceVolume > 0
  }

  lemma Opening(config: EngineConfig, duration: u64, events: seq<Event>)
    requires OpeningTrades(duration, TradesOf(events))
    ensures OpensAtOne(duration, events, Run(config, duration, events).system.vwap)
  {
    OpeningTotals(duration, TradesOf(events));
    CalculatorSeesTrades(config, duration, events);
  }

  lemma BeatsOne(side: u8, q: QuoteMessage, vwap: VwapModel.Calc)
    requires vwap.sumVolume == vwap.sumPriceVolume > 0
    ensures Beats(side, q, vwap) <==> if side == BUY then q.askPrice < 1 else 1 < q.bidPrice
  {
    CompareWithOne(if side == BUY then q.askPrice else q.bidPrice, vwap.sumVolume);
  }

  lemma CompareWithOne(p: int, n: int)
    requires 0 < n
    ensures p * n < n <==> p < 1
    ensures n < p * n <==> 1 < p
  {
    if p < 1 {
      assert p * n <= 0 * n;
    } else if 1 < p {
      assert 2 * n <= p * n;
    }
  }

  /** At price 1 and out of cooldown, a quote on the right side draws an order. */
  lemma OpenOrderLeaves(config: EngineConfig, duration: u64, events: seq<Event>, q: QuoteMessage)
    requires 0 < duration && OpensAtOne(duration, events, Run(config, duration, events).system.vwap)
    requires if config.side == BUY then q.askPrice < 1 else 1 < q.bidPrice
    requires var last := LastOrderTime(Run(config, duration, events).orders);
      last == 0 || config.cooldownNanos <= Sub64(q.timestamp, last)
    requires q.timestamp == 0 || config.cooldownNanos == 0 ==>
      !IsDuplicateQuote(Run(config, duration, events).system.engine, q)
    ensures ProcessQuote(Run(config, duration, events).system, q).1.Some?
  {
    OrderLeavesIff(config, duration, events, q);
    BeatsOne(config.side, q, Run(config, duration, events).system.vwap);
  }

  /** After the opening trades any quote on the right side of price 1 draws an order. */
  lemma OpeningOrderLeaves(config: EngineConfig, duration: u64, events: seq<Event>, q: QuoteMessage)
    requires OnlyTrades(events) && OpeningTrades(duration, TradesOf(events))
    requires if config.side == BUY then q.askPrice < 1 else 1 < q.bidPrice
    requires IdentifierOf(config.side, q) != QuoteIdentifier(0, 0, 0)
    ensures ProcessQuote(Run(config, duration, events).system, q).1.Some?
  {
    TradesEmitNothing(config, duration, events);
    RunRemembers(config, duration, events);
    RunKeepsInv(config, duration, events);
    Opening(config, duration, events);
    OpenOrderLeaves(config, duration, events, q);
  }

  /**
   Two trades at price 1, one duration apart, let a seller take any bid of 2 or more: what is proved
   above of orders is not said of nothing.
   */
  lemma FirstOrderLeaves(config: EngineConfig, duration: u64, events: seq<Event>, q: QuoteMessage)
    requires config.side == SELL && 2 <= q.bidPrice
    requires OnlyTrades(events) && OpeningTrades(duration, TradesOf(events))
    ensures ProcessQuote(Run(config, duration, events).system, q).1.Some?
  {
    OpeningOrderLeaves(config, duration, events, q);
  }

  /** A valid quote that asks nothing makes a buyer emit an order that the order client refuses. */
  lemma FreePurchaseIsRefused(config: EngineConfig, duration: u64, events: seq<Event>, q: QuoteMessage)
    requires config.side == BUY && config.maxOrderSize != 0 && 0 < q.timestamp
    requires ValidQuote(q) && q.askPrice == 0
    requires OnlyTrades(events) && OpeningTrades(duration, TradesOf(events))
    ensures var order := ProcessQuote(Run(config, duration, events).system, q).1;
      order.Some? && !SendQueue.Sendable(order.value)
  {
    OpeningOrderLeaves(config, duration, events, q);
    EmittedOrderIsSendableIff(config, duration, events, q);
  }

  /** One order has left after the opening trades: what the next quote meets. */
  lemma FirstOrderTaken(config: EngineConfig, duration: u64, events: seq<Event>, q: QuoteMessage)
    requires config.side == SELL && 2 <= q.bidPrice
    requires OnlyTrades(events) && OpeningTrades(duration, TradesOf(events))
    ensures var l := Run(config, duration, events + [Quote(q)]);
      && |l.orders| == 1 && LastOrderTime(l.orders) == q.timestamp
      && l.system.engine.lastProcessedQuote == IdentifierOf(SELL, q)
      && OpensAtOne(duration, events + [Quote(q)], l.system.vwap)
      && l.system.engine.config == config
  {
    FirstOrderLeaves(config, duration, events, q);
    TradesEmitNothing(config, duration, events);
    OneMoreQuote(config, duration, events, q);
    RunKeepsInv(config, duration, events);
    QuoteSpaces(Run(config, duration, events), q);
    OrderIsRemembered(Run(config, duration, events).system, q);
    Opening(config, duration, events + [Quote(q)]);
  }

  /** An order at time zero starts no cooldown: the next quote, one nanosecond later, draws another. */
  lemma TimeZeroStartsNoCooldown(config: EngineConfig, duration: u64, events: seq<Event>, q: QuoteMessage)
    requires config.side == SELL && 2 <= q.bidPrice && q.timestamp == 0 && 1 < config.cooldownNanos
    requires OnlyTrades(events) && OpeningTrades(duration, TradesOf(events))
    ensures var after, next := events + [Quote(q)], q.(timestamp := 1);
      && |Run(config, duration, after).orders| == 1
      && LastOrderTime(Run(config, duration, after).orders) == 0
      && ProcessQuote(Run(config, duration, after).system, next).1.Some?
  {
    FirstOrderTaken(config, duration, events, q);
    OpenOrderLeaves(config, duration, events + [Quote(q)], q.(timestamp := 1));
  }

  /** A clock that steps back one nanosecond lets a second order through at once, whatever the cooldown. */
  lemma BackwardClockEvadesCooldown(config: EngineConfig, duration: u64, events: seq<Event>, q: QuoteMessage)
    requires config.side == SELL && 2 <= q.bidPrice && 0 < q.timestamp && 0 < config.cooldownNanos
    requires OnlyTrades(events) && OpeningTrades(duration, TradesOf(events))
    ensures var after, next := events + [Quote(q)], q.(timestamp := q.timestamp - 1);
      && |Run(config, duration, after).orders| == 1
      && LastOrderTime(Run(config, duration, after).orders) == q.timestamp
      && ProcessQuote(Run(config, duration, after).system, next).1.Some?
  {
    FirstOrderTaken(config, duration, events, q);
    OpenOrderLeaves(config, duration, events + [Quote(q)], q.(timestamp := q.timestamp - 1));
  }

  lemma OpeningAccepted(duration: u64, trades: seq<TradeMessage>)
    requires OpeningTrades(duration, trades)
    ensures VwapRuns.Accepted(duration, trades) == [VwapModel.RecordOf(trades[0]), VwapModel.RecordOf(trades[1])]
  {
    assert trades[..1] == [trades[0]];
    VwapReadiness.FirstTrade(duration, trades[0]);
  }

  /** What the calculator holds after the opening trades. */
  lemma OpeningTotals(duration: u64, trades: seq<TradeMessage>)
    requires OpeningTrades(duration, trades)
    ensures VwapReadiness.WindowSpanned(VwapRuns.Accepted(duration, trades), duration)
    ensures var c := VwapRuns.Run(duration, trades).state; c.sumVolume == c.sumPriceVolume > 0
  {
    OpeningAccepted(duration, trades);
    var accepted := VwapRuns.Accepted(duration, trades);
    VwapReadiness.EqualitySpans(accepted, 0, 1, duration);
    VwapReadiness.NoOverflowWhenFew(duration, trades);
    TotalsAtOne(duration, trades);
  }

  lemma TotalsAtOne(duration: u64, trades: seq<TradeMessage>)
    requires VwapRuns.Accepted(duration, trades) != []
    requires VwapRuns.DisplacedOf(VwapRuns.Run(duration, trades).removed) == []
    requires var accepted := VwapRuns.Accepted(duration, trades);
      forall i :: 0 <= i < |accepted| ==> accepted[i].price == 1
    ensures var c := VwapRuns.Run(duration, trades).state; c.sumVolume == c.sumPriceVolume > 0
  {
    VwapRuns.RunKeepsInv(duration, trades);
    VwapRuns.VwapBetweenPrices(duration, trades);
    var tr := VwapRuns.Run(duration, trades);
    TotalsOfOnes(VwapRuns.Records(tr.removed), tr.state.window);
  }

  /** At price 1 volume and notional are the same. */
  lemma TotalsOfOnes(gone: seq<VwapModel.Record>, w: seq<VwapModel.Record>)
    requires VwapModel.AllGenuine(gone + w)
    requires forall i :: 0 <= i < |gone + w| ==> (gone + w)[i].price == 1
    ensures VwapModel.Volume(w) == VwapModel.Notional(w)
  {
    VwapRuns.SuffixGenuine(gone, w);
    assert forall i :: 0 <= i < |w| ==> w[i] == (gone + w)[|gone| + i];
    VwapRuns.NotionalBounds(w, 1, 1);
  }

  // ----- The duplicate check -----

  /**
   In a reachable state a duplicate quote is also in cooldown exactly when its timestamp is not
   zero and there is a cooldown at all: the remembered quote is as old as the last order.
   */
  lemma DuplicateIsInCooldownIff(config: EngineConfig, duration: u64, events: seq<Event>, q: QuoteMessage)
    requires IsDuplicateQuote(Run(config, duration, events).system.engine, q)
    ensures IsInCooldown(Run(config, duration, events).system.engine, q.timestamp)
            <==> q.timestamp != 0 && config.cooldownNanos != 0
  {
    RunKeepsInv(config, duration, events);
  }

  /** The guards without the duplicate check. */
  function VerdictUnchecked(e: Engine, q: QuoteMessage, vwap: real): DecisionType {
    if e.state == WAITING_FOR_FIRST_WINDOW then REJECTED_WAITING_WINDOW
    else if IsInCooldown(e, q.timestamp) then REJECTED_COOLDOWN
    else if !ShouldTriggerOrder(e.config.side, q, vwap) then REJECTED_PRICE_UNFAVORABLE
    else ORDER_TRIGGERED
  }

  function StepUnchecked(l: Log, ev: Event): Log {
    match ev
    case Trade(t) => l.(system := ProcessTrade(l.system, t))
    case Quote(q) =>
      var s := CountQuote(l.system);
      var vwap := VwapModel.Vwap(s.vwap);
      var kind := VerdictUnchecked(s.engine, q, vwap);
      var (e, order) := Act(s.engine, q, vwap, kind);
      Log(Deliver(s, e, order), Extend(l.orders, order), l.decisions + [DecisionOf(s.engine, q, vwap, kind)])
  }

  /** A run of the system whose engine does not check for duplicates. */
  function RunUnchecked(config: EngineConfig, duration: u64, events: seq<Event>): Log {
    if events == [] then Log(NewSystem(config, duration), [], [])
    else StepUnchecked(RunUnchecked(config, duration, events[..|events| - 1]), events[|events| - 1])
  }

  /** Equal in everything that bears on trading: only the reasons of rejections may differ. */
  ghost predicate SameTrading(a: Log, b: Log) {
    && a.orders == b.orders
    && a.system.state == b.system.state && a.system.vwap == b.system.vwap
    && a.system.ordersSent == b.system.ordersSent && a.system.orderHistory == b.system.orderHistory
    && SameEngine(a.system.engine, b.system.engine)
  }

  /** A quote that only the duplicate check turns away: it repeats the last order's and no cooldown can tell. */
  predicate TurnedAway(s: System, q: QuoteMessage) {
    && s.state == READY_TO_TRADE
    && IsDuplicateQuote(s.engine, q) && (q.timestamp == 0 || s.engine.config.cooldownNanos == 0)
    && ShouldTriggerOrder(s.engine.config.side, q, VwapModel.Vwap(s.vwap))
  }

  /** How many quotes of a run only the duplicate check turns away. */
  function TurnedAwayCount(config: EngineConfig, duration: u64, events: seq<Event>): nat {
    if events == [] then 0
    else
      var front, ev := events[..|events| - 1], events[|events| - 1];
      TurnedAwayCount(config, duration, front)
      + if ev.Quote? && TurnedAway(Run(config, duration, front).system, ev.quote) then 1 else 0
  }

  /** In a reachable state those are the quotes on which the two chains of guards disagree about an order. */
  lemma TurnedAwayMeans(s: System, q: QuoteMessage)
    requires SystemInv(s)
    ensures var e, vwap := CountQuote(s).engine, VwapModel.Vwap(s.vwap);
      && e == s.engine
      && (VerdictUnchecked(e, q, vwap) == ORDER_TRIGGERED
          <==> Verdict(e, q, vwap) == ORDER_TRIGGERED || TurnedAway(s, q))
      && (TurnedAway(s, q) ==> Verdict(e, q, vwap) == REJECTED_DUPLICATE)
  {
  }

  /** Equal in what later quotes are judged by. */
  ghost predicate SameMemory(e: Engine, f: Engine) {
    && e.config == f.config && e.state == f.state
    && e.lastProcessedQuote == f.lastProcessedQuote && e.lastOrderTimestamp == f.lastOrderTimestamp
  }

  /** The order that the check prevents would change nothing of the engine's memory. */
  lemma MemoryStays(e: Engine, f: Engine, q: QuoteMessage, vwap: real)
    requires SameMemory(e, f) && e.state != ORDER_SENT
    requires e.lastProcessedQuote.timestamp == e.lastOrderTimestamp
    ensures SameMemory(Evaluate(e, q, vwap).0, Act(f, q, vwap, VerdictUnchecked(f, q, vwap)).0)
    ensures Act(f, q, vwap, VerdictUnchecked(f, q, vwap)).1.Some? <==> VerdictUnchecked(e, q, vwap) == ORDER_TRIGGERED
    ensures Evaluate(e, q, vwap).1.Some? <==> Verdict(e, q, vwap) == ORDER_TRIGGERED
  {
  }

  ghost predicate SameStanding(a: Log, b: Log) {
    && a.system.state == b.system.state && a.system.vwap == b.system.vwap
    && SameMemory(a.system.engine, b.system.engine)
  }

  lemma StandingStays(a: Log, b: Log, ev: Event)
    requires SameStanding(a, b) && LogInv(a)
    ensures SameStanding(Step(a, ev), StepUnchecked(b, ev)) == true
    ensures |StepUnchecked(b, ev).orders| - |b.orders| == |Step(a, ev).orders| - |a.orders|
      + if ev.Quote? && TurnedAway(a.system, ev.quote) then 1 else 0
  {
    if ev.Quote? {
      TurnedAwayMeans(a.system, ev.quote);
      assert CountQuote(b.system).engine == b.system.engine;
      MemoryStays(a.system.engine, b.system.engine, ev.quote, VwapModel.Vwap(a.system.vwap));
    }
  }

  /** Without the duplicate check a run emits exactly the orders that only the check prevents in addition. */
  lemma {:induction false} UncheckedOrders(config: EngineConfig, duration: u64, events: seq<Event>)
    ensures SameStanding(Run(config, duration, events), RunUnchecked(config, duration, events)) == true
    ensures |RunUnchecked(config, duration, events).orders|
         == |Run(config, duration, events).orders| + TurnedAwayCount(config, duration, events)
  {
    if events != [] {
      var before, ev := events[..|events| - 1], events[|events| - 1];
      UncheckedOrders(config, duration, before);
      RunKeepsInv(config, duration, before);
      StandingStays(Run(config, duration, before), RunUnchecked(config, duration, before), ev);
    }
  }

  lemma {:induction false} NoneTurnedAway(config: EngineConfig, duration: u64, events: seq<Event>)
    requires TurnedAwayCount(config, duration, events) == 0
    ensures SameTrading(Run(config, duration, events), RunUnchecked(config, duration, events)) == true
  {
    if events != [] {
      var before, ev := events[..|events| - 1], events[|events| - 1];
      NoneTurnedAway(config, duration, before);
      RunKeepsInv(config, duration, before);
      StepsAgree(Run(config, duration, before), RunUnchecked(config, duration, before), ev);
    }
  }

  /**
   In every run, dropping the duplicate check leaves the emitted orders as they are if and only if no
   quote is turned away by it alone; then nothing else that bears on trading changes either.
   */
  lemma DuplicateCheckIsRedundantIff(config: EngineConfig, duration: u64, events: seq<Event>)
    ensures Run(config, duration, events).orders == RunUnchecked(config, duration, events).orders
            <==> TurnedAwayCount(config, duration, events) == 0
    ensures TurnedAwayCount(config, duration, events) == 0 ==>
      SameTrading(Run(config, duration, events), RunUnchecked(config, duration, events))
  {
    UncheckedOrders(config, duration, events);
    if TurnedAwayCount(config, duration, events) == 0 {
      NoneTurnedAway(config, duration, events);
    }
  }

  lemma {:induction false} CooldownTurnsAway(config: EngineConfig, duration: u64, events: seq<Event>)
    requires 0 < config.cooldownNanos
    requires forall i :: 0 <= i < |events| && events[i].Quote? ==> 0 < events[i].quote.timestamp
    ensures TurnedAwayCount(config, duration, events) == 0
  {
    if events != [] {
      var before, ev := events[..|events| - 1], events[|events| - 1];
      CooldownTurnsAway(config, duration, before);
      RunKeepsInv(config, duration, before);
      assert ev.Quote? ==> 0 < ev.quote.timestamp;
    }
  }

  /** With a cooldown and nonzero quote timestamps, dropping the duplicate check changes no order. */
  lemma DuplicateCheckIsRedundant(config: EngineConfig, duration: u64, events: seq<Event>)
    requires 0 < config.cooldownNanos
    requires forall i :: 0 <= i < |events| && events[i].Quote? ==> 0 < events[i].quote.timestamp
    ensures SameTrading(Run(config, duration, events), RunUnchecked(config, duration, events))
  {
    CooldownTurnsAway(config, duration, events);
    DuplicateCheckIsRedundantIff(config, duration, events);
  }

  lemma ReadyAtOne(config: EngineConfig, duration: u64, events: seq<Event>, q: QuoteMessage)
    requires 0 < duration && config.side == SELL && 2 <= q.bidPrice
    requires OpensAtOne(duration, events, Run(config, duration, events).system.vwap)
    ensures Run(config, duration, events).system.state == READY_TO_TRADE
    ensures ShouldTriggerOrder(SELL, q, VwapModel.Vwap(Run(config, duration, events).system.vwap))
  {
    ReadyToTradeIff(config, duration, events);
    ReadyHasVwap(config, duration, events);
    var vwap := Run(config, duration, events).system.vwap;
    CompareWithOne(q.bidPrice, vwap.sumVolume);
    RatioAbove(q.bidPrice, vwap.sumPriceVolume, vwap.sumVolume);
  }

  /** At time zero the check does matter: of two equal bids only the first draws an order. */
  lemma DuplicateCheckMatters(config: EngineConfig, duration: u64, events: seq<Event>, q: QuoteMessage)
    requires config.side == SELL && 2 <= q.bidPrice && q.timestamp == 0
    requires OnlyTrades(events) && OpeningTrades(duration, TradesOf(events))
    ensures TurnedAwayCount(config, duration, events + [Quote(q)] + [Quote(q)]) > 0
  {
    var after := events + [Quote(q)];
    FirstOrderTaken(config, duration, events, q);
    ReadyAtOne(config, duration, after, q);
    assert TurnedAway(Run(config, duration, after).system, q);
    assert (after + [Quote(q)])[..|after|] == after;
  }

  lemma StepsAgree(a: Log, b: Log, ev: Event)
    requires SameTrading(a, b) && LogInv(a)
    requires ev.Quote? ==> !TurnedAway(a.system, ev.quote)
    ensures SameTrading(Step(a, ev), StepUnchecked(b, ev))
  {
    if ev.Quote? {
      TurnedAwayMeans(a.system, ev.quote);
      var s, t := CountQuote(a.system), CountQuote(b.system);
      assert s.engine == a.system.engine && t.engine == b.system.engine;
      ActsAgree(s.engine, t.engine, ev.quote, VwapModel.Vwap(s.vwap));
    }
  }

  /** What evaluating a quote reads and writes of the engine, apart from reasons and history. */
  ghost predicate SameEngine(e: Engine, f: Engine) {
    && e.config == f.config && e.state == f.state
    && e.lastProcessedQuote == f.lastProcessedQuote && e.lastOrderTimestamp == f.lastOrderTimestamp
    && e.counters.ordersRejected == f.counters.ordersRejected
  }

  lemma ActsAgree(e: Engine, f: Engine, q: QuoteMessage, vwap: real)
    requires SameEngine(e, f)
    requires VerdictUnchecked(e, q, vwap) == ORDER_TRIGGERED <==> Verdict(e, q, vwap) == ORDER_TRIGGERED
    ensures var (e', o) := Evaluate(e, q, vwap);
      var (f', p) := Act(f, q, vwap, VerdictUnchecked(f, q, vwap));
      o == p && SameEngine(e', f')
  {
  }
}
