/**
 include/order_manager.h and src/order_manager.cpp: the object that owns the calculator, the engine
 and the ring of sent orders, proved against TradingModel. The order callback is the result of
 ProcessQuote.
 */
module OrderManagers {
  import opened MachineInts
  import opened Messages
  import opened BoundedSeq
  import opened CircularBuffers
  import opened TradingModel
  import opened DecisionEngines
  import opened VwapCalculators
  import VwapModel

  class OrderManager {
    var currentState: TradingState
    const vwapCalculator: VwapCalculator
    const decisionEngine: DecisionEngine
    const orderHistory: CircularBuffer<OrderRecord>
    var totalQuotesProcessed: u64
    var totalTradesProcessed: u64
    var totalOrdersSent: u64
    var vwapWindowCompleteNotified: bool

    ghost function Repr(): set<object> {
      {this, decisionEngine, orderHistory, orderHistory.buffer} + vwapCalculator.Repr()
    }

    /** The parts share no memory. */
    ghost predicate Apart() {
      && orderHistory.buffer.Length == MAX_HISTORY
      && {this as object, decisionEngine, orderHistory, orderHistory.buffer} !! vwapCalculator.Repr()
    }

    ghost predicate Valid()
      reads Repr()
    {
      Apart() && vwapCalculator.Valid() && decisionEngine.Valid() && orderHistory.Valid()
    }

    ghost function Model(): System
      requires Valid()
      reads Repr()
    {
      System(currentState, vwapCalculator.Model(), decisionEngine.Model(),
             totalQuotesProcessed, totalTradesProcessed, totalOrdersSent,
             vwapWindowCompleteNotified, orderHistory.Contents)
    }

    constructor (symbol: seq<u8>, side: u8, maxOrderSize: u32, vwapWindowSeconds: u32)
      requires ValidSettings(side, maxOrderSize, vwapWindowSeconds)
      ensures Valid() && fresh(Repr())
      ensures Model() == NewSystem(EngineConfig(symbol, side, maxOrderSize, DEFAULT_COOLDOWN),
                                   vwapWindowSeconds * NANOS_PER_SEC)
    {
      currentState := WAITING_FOR_FIRST_WINDOW;
      totalQuotesProcessed, totalTradesProcessed, totalOrdersSent := 0, 0, 0;
      vwapWindowCompleteNotified := false;
      decisionEngine := new DecisionEngine(symbol, side, maxOrderSize, DEFAULT_COOLDOWN);
      vwapCalculator := new VwapCalculator(vwapWindowSeconds);
      orderHistory := new CircularBuffer<OrderRecord>(MAX_HISTORY, OrderRecord(0, [], 0, 0, 0));
    }

    // `Valid() == true` below keeps the predicate one fact for the verifier.

    method CheckVwapWindowComplete()
      requires Valid()
      modifies this`currentState, this`vwapWindowCompleteNotified, decisionEngine
      ensures Valid() == true && Model() == CheckWindow(old(Model()))
    {
      var complete := vwapCalculator.HasCompleteWindow();
      if currentState == WAITING_FOR_FIRST_WINDOW && complete {
        currentState := READY_TO_TRADE;
        decisionEngine.OnVwapWindowComplete();
        if !vwapWindowCompleteNotified {
          vwapWindowCompleteNotified := true;
        }
      }
    }

    method RecordOrder(order: OrderMessage)
      requires Valid()
      modifies orderHistory, orderHistory.buffer
      ensures Valid()
      ensures Model() == old(Model()).(
        orderHistory := PushBounded(old(orderHistory.Contents), RecordOfOrder(order), MAX_HISTORY))
    {
      orderHistory.PushBack(RecordOfOrder(order));
    }

    method CountQuote()
      requires Valid()
      modifies this`totalQuotesProcessed
      ensures Valid() == true
      ensures Model() == old(Model()).(quotes := Add64(old(totalQuotesProcessed), 1))
    {
      totalQuotesProcessed := Add64(totalQuotesProcessed, 1);
    }

    /** Asks the engine about a quote, at the calculator's current VWAP. */
    method Evaluate(quote: QuoteMessage) returns (order: Option<OrderMessage>)
      requires Valid()
      modifies vwapCalculator`cachedVwap, vwapCalculator`vwapCacheValid, decisionEngine
      ensures Valid() == true
      ensures var (e, o) := TradingModel.Evaluate(old(Model()).engine, quote, VwapModel.Vwap(old(Model()).vwap));
        Model() == old(Model()).(engine := e) && order == o
    {
      var currentVwap := vwapCalculator.GetCurrentVwap();
      order := decisionEngine.EvaluateQuote(quote, currentVwap);
    }

    /** Records an order and counts it as sent. */
    method CountOrder(order: OrderMessage)
      requires Valid()
      modifies this`totalOrdersSent, orderHistory, orderHistory.buffer
      ensures Valid() == true
      ensures Model() == old(Model()).(
        ordersSent := Add64(old(totalOrdersSent), 1),
        orderHistory := PushBounded(old(orderHistory.Contents), RecordOfOrder(order), MAX_HISTORY))
    {
      RecordOrder(order);
      totalOrdersSent := Add64(totalOrdersSent, 1);
    }

    /** The part of processQuote before the engine is asked. */
    method PrepareQuote()
      requires Valid()
      modifies this`totalQuotesProcessed, this`currentState, this`vwapWindowCompleteNotified, decisionEngine
      ensures Valid() == true
      ensures Model() == CheckWindow(old(Model()).(quotes := Add64(old(totalQuotesProcessed), 1)))
    {
      CountQuote();
      CheckVwapWindowComplete();
    }

    /** The part after it. */
    method NoteOrder(order: Option<OrderMessage>)
      requires Valid()
      modifies this`totalOrdersSent, orderHistory, orderHistory.buffer
      ensures Valid() == true && Model() == Deliver(old(Model()), old(Model()).engine, order)
    {
      if order.Some? {
        CountOrder(order.value);
      }
    }

    method ProcessQuote(quote: QuoteMessage) returns (order: Option<OrderMessage>)
      requires Valid()
      modifies Repr()
      ensures Valid() == true && (Model(), order) == TradingModel.ProcessQuote(old(Model()), quote)
    {
      PrepareQuote();
      order := Evaluate(quote);
      NoteOrder(order);
    }

    method CountTrade()
      requires Valid()
      modifies this`totalTradesProcessed
      ensures Valid() == true
      ensures Model() == old(Model()).(trades := Add64(old(totalTradesProcessed), 1))
    {
      totalTradesProcessed := Add64(totalTradesProcessed, 1);
    }

    method FeedCalculator(trade: TradeMessage)
      requires Valid()
      modifies vwapCalculator.Repr()
      ensures Valid() == true
      ensures Model() == old(Model()).(vwap := VwapModel.AddTrade(old(vwapCalculator.Model()), trade))
    {
      vwapCalculator.AddTrade(trade);
    }

    method ProcessTrade(trade: TradeMessage)
      requires Valid()
      modifies Repr()
      ensures Valid() == true && Model() == TradingModel.ProcessTrade(old(Model()), trade)
    {
      CountTrade();
      FeedCalculator(trade);
      CheckVwapWindowComplete();
    }
  }

  /** Construction as callers see it: settings the constructor rejects make it throw. */
  method Create(symbol: seq<u8>, side: u8, maxOrderSize: u32, vwapWindowSeconds: u32)
    returns (manager: OrderManager?)
    ensures manager != null <==> (side == BUY || side == SELL) && maxOrderSize != 0 && vwapWindowSeconds != 0
    ensures manager != null ==> fresh(manager) && manager.Valid()
    ensures manager != null ==>
      manager.Model() == NewSystem(EngineConfig(symbol, side, maxOrderSize, 100_000_000),
                                   vwapWindowSeconds * 1_000_000_000)
  {
    if side != BUY && side != SELL {
      return null;
    }
    if maxOrderSize == 0 {
      return null;
    }
    if vwapWindowSeconds == 0 {
      return null;
    }
    manager := new OrderManager(symbol, side, maxOrderSize, vwapWindowSeconds);
  }
}
