/**
 What the trading state machine of src/decision_engine.cpp and src/order_manager.cpp does to each
 quote and trade, as step functions. Prices and the VWAP are exact: a quote is judged against the
 rational sumPriceVolume / sumVolume instead of a rounded double.
 */
module TradingModel {
  import opened MachineInts
  import opened Messages
  import opened BoundedSeq
  import VwapModel

  const MAX_HISTORY: nat := 1000
  const DEFAULT_COOLDOWN: u64 := 100_000_000

  datatype TradingState = WAITING_FOR_FIRST_WINDOW | READY_TO_TRADE | ORDER_SENT

  datatype DecisionType =
    | ORDER_TRIGGERED
    | REJECTED_WAITING_WINDOW
    | REJECTED_PRICE_UNFAVORABLE
    | REJECTED_COOLDOWN
    | REJECTED_DUPLICATE

  datatype Decision = Decision(
    kind: DecisionType, timestamp: u64, quotePrice: int, vwap: real, quoteSize: u32, orderSize: u32)

  datatype QuoteIdentifier = QuoteIdentifier(timestamp: u64, price: i32, quantity: u32)

  datatype EngineConfig = EngineConfig(symbol: seq<u8>, side: u8, maxOrderSize: u32, cooldownNanos: u64)

  datatype Counters = Counters(
    quotesProcessed: u64, ordersTriggered: u64, ordersRejected: u64,
    waitingWindow: u64, priceUnfavorable: u64, cooldown: u64, duplicate: u64)

  datatype Engine = Engine(
    config: EngineConfig,
    state: TradingState,
    lastProcessedQuote: QuoteIdentifier,
    lastOrderTimestamp: u64,
    history: seq<Decision>,
    counters: Counters)

  function NewEngine(config: EngineConfig): Engine {
    Engine(config, WAITING_FOR_FIRST_WINDOW, QuoteIdentifier(0, 0, 0), 0, [], Counters(0, 0, 0, 0, 0, 0, 0))
  }

  // ----- One quote -----

  /** A buyer looks at the ask, a seller at the bid. */
  function RelevantPrice(side: u8, q: QuoteMessage): int {
    if side == BUY then q.askPrice else q.bidPrice
  }

  function RelevantQuantity(side: u8, q: QuoteMessage): u32 {
    if side == BUY then q.askQuantity else q.bidQuantity
  }

  /** The relevant price as the int32_t that orders and quote identifiers carry. */
  function WirePrice(side: u8, q: QuoteMessage): i32 {
    if side == BUY then q.askPrice else ToI32(q.bidPrice)
  }

  function IdentifierOf(side: u8, q: QuoteMessage): QuoteIdentifier {
    QuoteIdentifier(q.timestamp, WirePrice(side, q), RelevantQuantity(side, q))
  }

  predicate IsDuplicateQuote(e: Engine, q: QuoteMessage) {
    IdentifierOf(e.config.side, q) == e.lastProcessedQuote
  }

  predicate IsInCooldown(e: Engine, now: u64) {
    e.lastOrderTimestamp != 0 && Sub64(now, e.lastOrderTimestamp) < e.config.cooldownNanos
  }

  predicate ShouldTriggerOrder(side: u8, q: QuoteMessage, vwap: real) {
    0.0 < vwap && if side == BUY then q.askPrice as real < vwap else vwap < q.bidPrice as real
  }

  function CalculateOrderSize(maxOrderSize: u32, quoteSize: u32): u32 {
    Min(quoteSize, maxOrderSize)
  }

  function BuildOrder(config: EngineConfig, q: QuoteMessage, orderSize: u32): OrderMessage {
    OrderMessage(PadSymbol(config.symbol), q.timestamp, orderSize, WirePrice(config.side, q), config.side)
  }

  /** How a quote is classified: the guards in order of precedence. */
  function Verdict(e: Engine, q: QuoteMessage, vwap: real): DecisionType {
    if e.state == WAITING_FOR_FIRST_WINDOW then REJECTED_WAITING_WINDOW
    else if IsDuplicateQuote(e, q) then REJECTED_DUPLICATE
    else if IsInCooldown(e, q.timestamp) then REJECTED_COOLDOWN
    else if !ShouldTriggerOrder(e.config.side, q, vwap) then REJECTED_PRICE_UNFAVORABLE
    else ORDER_TRIGGERED
  }

  /** Early rejections record no price; an order records its size. */
  function DecisionOf(e: Engine, q: QuoteMessage, vwap: real, kind: DecisionType): Decision {
    var priced := kind == REJECTED_PRICE_UNFAVORABLE || kind == ORDER_TRIGGERED;
    var size := RelevantQuantity(e.config.side, q);
    Decision(kind, q.timestamp, vwap := vwap,
             quotePrice := if priced then RelevantPrice(e.config.side, q) else 0,
             quoteSize := if priced then size else 0,
             orderSize := if kind == ORDER_TRIGGERED then CalculateOrderSize(e.config.maxOrderSize, size) else 0)
  }

  function Count(c: Counters, kind: DecisionType): Counters {
    var c1 := c.(quotesProcessed := Add64(c.quotesProcessed, 1));
    var c2 := if kind == ORDER_TRIGGERED then c1.(ordersTriggered := Add64(c.ordersTriggered, 1))
              else c1.(ordersRejected := Add64(c.ordersRejected, 1));
    match kind
    case ORDER_TRIGGERED => c2
    case REJECTED_WAITING_WINDOW => c2.(waitingWindow := Add64(c.waitingWindow, 1))
    case REJECTED_PRICE_UNFAVORABLE => c2.(priceUnfavorable := Add64(c.priceUnfavorable, 1))
    case REJECTED_COOLDOWN => c2.(cooldown := Add64(c.cooldown, 1))
    case REJECTED_DUPLICATE => c2.(duplicate := Add64(c.duplicate, 1))
  }

  /** Acts on a quote that has been classified. */
  function Act(e: Engine, q: QuoteMessage, vwap: real, kind: DecisionType): (Engine, Option<OrderMessage>) {
    var d := DecisionOf(e, q, vwap, kind);
    var e' := e.(counters := Count(e.counters, kind), history := PushBounded(e.history, d, MAX_HISTORY));
    if kind == ORDER_TRIGGERED then
      (e'.(state := READY_TO_TRADE,
           lastProcessedQuote := IdentifierOf(e.config.side, q),
           lastOrderTimestamp := q.timestamp),
       Some(BuildOrder(e.config, q, d.orderSize)))
    else (e', None)
  }

  function Evaluate(e: Engine, q: QuoteMessage, vwap: real): (Engine, Option<OrderMessage>) {
    Act(e, q, vwap, Verdict(e, q, vwap))
  }

  function OnVwapWindowComplete(e: Engine): Engine {
    if e.state == WAITING_FOR_FIRST_WINDOW then e.(state := READY_TO_TRADE) else e
  }

  // ----- The order manager -----

  datatype OrderRecord = OrderRecord(timestamp: u64, symbol: seq<u8>, side: u8, quantity: u32, price: i32)

  /** The bytes before the first zero. */
  function CString(s: seq<u8>): seq<u8> {
    if s == [] || s[0] == 0 then [] else [s[0]] + CString(s[1..])
  }

  function RecordOfOrder(o: OrderMessage): OrderRecord {
    OrderRecord(o.timestamp, CString(o.symbol), o.side, o.quantity, o.price)
  }

  datatype System = System(
    state: TradingState,
    vwap: VwapModel.Calc,
    engine: Engine,
    quotes: u64,
    trades: u64,
    ordersSent: u64,
    notified: bool,
    orderHistory: seq<OrderRecord>)

  /** What the constructor demands; anything else makes it throw. */
  predicate ValidSettings(side: u8, maxOrderSize: u32, windowSeconds: u32) {
    (side == BUY || side == SELL) && maxOrderSize != 0 && windowSeconds != 0
  }

  function NewSystem(config: EngineConfig, windowDuration: u64): System {
    System(WAITING_FOR_FIRST_WINDOW, VwapModel.Init(windowDuration), NewEngine(config), 0, 0, 0, false, [])
  }

  function CheckWindow(s: System): System {
    if s.state == WAITING_FOR_FIRST_WINDOW && VwapModel.HasCompleteWindow(s.vwap) then
      s.(state := READY_TO_TRADE, engine := OnVwapWindowComplete(s.engine), notified := true)
    else s
  }

  function ProcessTrade(s: System, t: TradeMessage): System {
    CheckWindow(s.(trades := Add64(s.trades, 1), vwap := VwapModel.AddTrade(s.vwap, t)))
  }

  /** Installs the engine's new state and records the order, if there is one. */
  function Deliver(s: System, e: Engine, order: Option<OrderMessage>): System {
    var s' := s.(engine := e);
    match order
    case None => s'
    case Some(o) =>
      s'.(ordersSent := Add64(s.ordersSent, 1),
          orderHistory := PushBounded(s.orderHistory, RecordOfOrder(o), MAX_HISTORY))
  }

  function ProcessQuote(s: System, q: QuoteMessage): (System, Option<OrderMessage>) {
    var s1 := CheckWindow(s.(quotes := Add64(s.quotes, 1)));
    var (e, order) := Evaluate(s1.engine, q, VwapModel.Vwap(s1.vwap));
    (Deliver(s1, e, order), order)
  }
}
