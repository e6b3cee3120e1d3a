/** include/decision_engine.h and src/decision_engine.cpp, proved against TradingModel. */
module DecisionEngines {
  import opened MachineInts
  import opened Messages
  import opened BoundedSeq
  import opened TradingModel

  class DecisionEngine {
    const config: EngineConfig
    var currentState: TradingState
    var lastProcessedQuote: QuoteIdentifier
    var lastOrderTimestamp: u64
    var decisionHistory: seq<Decision>
    var quotesProcessed: u64
    var ordersTriggered: u64
    var ordersRejected: u64
    var rejWaitingWindow: u64
    var rejPriceUnfavorable: u64
    var rejCooldown: u64
    var rejDuplicate: u64

    ghost predicate Valid()
      reads this
    {
      |decisionHistory| <= MAX_HISTORY
    }

    ghost function Model(): Engine
      reads this
    {
      Engine(config, currentState, lastProcessedQuote, lastOrderTimestamp, decisionHistory,
             Counters(quotesProcessed, ordersTriggered, ordersRejected,
                      rejWaitingWindow, rejPriceUnfavorable, rejCooldown, rejDuplicate))
    }

    constructor (symbol: seq<u8>, side: u8, maxOrderSize: u32, cooldownNanos: u64)
      ensures Valid() && Model() == NewEngine(EngineConfig(symbol, side, maxOrderSize, cooldownNanos))
    {
      config := EngineConfig(symbol, side, maxOrderSize, cooldownNanos);
      currentState := WAITING_FOR_FIRST_WINDOW;
      lastProcessedQuote, lastOrderTimestamp := QuoteIdentifier(0, 0, 0), 0;
      decisionHistory := [];
      quotesProcessed, ordersTriggered, ordersRejected := 0, 0, 0;
      rejWaitingWindow, rejPriceUnfavorable, rejCooldown, rejDuplicate := 0, 0, 0, 0;
    }

    method OnVwapWindowComplete()
      requires Valid()
      modifies this
      ensures Valid() && Model() == TradingModel.OnVwapWindowComplete(old(Model()))
    {
      if currentState == WAITING_FOR_FIRST_WINDOW {
        currentState := READY_TO_TRADE;
      }
    }

    /** Appends a decision and trims the history from the front. */
    method RecordDecision(d: Decision)
      requires Valid()
      modifies this`decisionHistory
      ensures Valid() && decisionHistory == PushBounded(old(decisionHistory), d, MAX_HISTORY)
    {
      decisionHistory := decisionHistory + [d];
      while |decisionHistory| > MAX_HISTORY
        invariant |decisionHistory| <= MAX_HISTORY + 1
        invariant |decisionHistory| == MAX_HISTORY + 1 ==> decisionHistory == old(decisionHistory) + [d]
        invariant |decisionHistory| <= MAX_HISTORY ==>
          decisionHistory == PushBounded(old(decisionHistory), d, MAX_HISTORY)
      {
        decisionHistory := decisionHistory[1..];
      }
    }

    method EvaluateQuote(quote: QuoteMessage, vwap: real) returns (order: Option<OrderMessage>)
      requires Valid()
      modifies this
      ensures Valid() && (Model(), order) == Evaluate(old(Model()), quote, vwap)
    {
      quotesProcessed := Add64(quotesProcessed, 1);
      var currentTime := quote.timestamp;

      if currentState == WAITING_FOR_FIRST_WINDOW {
        RecordDecision(Decision(REJECTED_WAITING_WINDOW, currentTime, 0, vwap, 0, 0));
        ordersRejected := Add64(ordersRejected, 1);
        rejWaitingWindow := Add64(rejWaitingWindow, 1);
        return None;
      }

      var current := if config.side == BUY
        then QuoteIdentifier(quote.timestamp, quote.askPrice, quote.askQuantity)
        else QuoteIdentifier(quote.timestamp, ToI32(quote.bidPrice), quote.bidQuantity);
      if current == lastProcessedQuote {
        RecordDecision(Decision(REJECTED_DUPLICATE, currentTime, 0, vwap, 0, 0));
        ordersRejected := Add64(ordersRejected, 1);
        rejDuplicate := Add64(rejDuplicate, 1);
        return None;
      }

      if lastOrderTimestamp != 0 && Sub64(currentTime, lastOrderTimestamp) < config.cooldownNanos {
        RecordDecision(Decision(REJECTED_COOLDOWN, currentTime, 0, vwap, 0, 0));
        ordersRejected := Add64(ordersRejected, 1);
        rejCooldown := Add64(rejCooldown, 1);
        return None;
      }

      var relevantPrice, relevantQuantity := quote.bidPrice, quote.bidQuantity;
      if config.side == BUY {
        relevantPrice, relevantQuantity := quote.askPrice, quote.askQuantity;
      }

      if !ShouldTriggerOrder(config.side, quote, vwap) {
        RecordDecision(Decision(REJECTED_PRICE_UNFAVORABLE, currentTime, relevantPrice, vwap, relevantQuantity, 0));
        ordersRejected := Add64(ordersRejected, 1);
        rejPriceUnfavorable := Add64(rejPriceUnfavorable, 1);
        return None;
      }

      var orderSize := CalculateOrderSize(config.maxOrderSize, relevantQuantity);
      order := Some(BuildOrder(config, quote, orderSize));
      currentState := ORDER_SENT;
      lastOrderTimestamp := currentTime;
      lastProcessedQuote := QuoteIdentifier(quote.timestamp, WirePrice(config.side, quote), relevantQuantity);
      RecordDecision(Decision(ORDER_TRIGGERED, currentTime, relevantPrice, vwap, relevantQuantity, orderSize));
      ordersTriggered := Add64(ordersTriggered, 1);
      currentState := READY_TO_TRADE;
    }
  }
}
