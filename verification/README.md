# A verified model of the VWAP trading system

The program watches a stream of quotes and trades for one symbol, keeps a sliding-window volume-weighted
average price (VWAP), and sends an order whenever a quote beats that average. This project models its five
working parts in Dafny and proves what they promise over every input and every run.

| part | specification and theorems | the code as written |
|---|---|---|
| sliding-window VWAP | `VwapModel.dfy`, `VwapRuns.dfy`, `VwapReadiness.dfy` | `CircularBuffer.dfy`, `VwapCalculator.dfy` |
| trading state machine | `TradingModel.dfy`, `TradingRuns.dfy` | `DecisionEngine.dfy`, `OrderManager.dfy` |
| wire codec and stream reassembly | `WireCodec.dfy`, `StreamModel.dfy` | `MessageSerializer.dfy`, `MessageBuffer.dfy`, `MarketDataClient.dfy` |
| outgoing orders | `SendQueue.dfy` | `OrderClient.dfy` |
| lock-free pool and latency extremes | `MemoryPool.dfy`, `LatencyMetrics.dfy` | the same files, as atomic steps |

Each class keeps the fields, arrays and loops of its C++ original. Its methods are proved to turn the old
abstract state into the one a specification function gives, and the theorems about whole runs are proved of
those functions. `MachineInts.dfy` writes out 32- and 64-bit wrap-around and casts; `Messages.dfy` holds the
message records. Verify the project with `dafny verify dfyconfig.toml`.

## What the proofs found

These properties are suggested by the code or its messages and are false in general. In each case the code is
modelled as it is, a lemma gives an input that breaks the property, and another says exactly when it holds.

- **Readiness.** `src/main.cpp:229` announces trading after the first window completes. Eviction runs before
  the check and moves the start of the window, so a window that elapses is often not noticed. It is reported
  exactly when some accepted trade is at least a duration younger than an earlier one and no trade since the
  earlier one has been evicted for its age. Without an overflow of the trade ring that means two accepted trades
  *exactly* one duration apart, to the nanosecond; a ring full of later trades can also keep the start in place
  (`ReadyIff`, `ReadyWithoutOverflowIff`, `ElapsedWindowMissed`, `FloodIsReported`).
- **Windowed totals.** A trade dropped by a full ring stays in the totals for ever. Each total is that of the
  window exactly as long as no dropped trade has passed the cutoff (`TotalsAreWindowedIff`,
  `TotalsAreWindowedIffTimes`, `FullRingBreaksTotals`).
- **Resynchronisation.** When `resync` finds a plausible header it does not move, and its caller ignores what it
  returns: one stray byte before a message blocks the connection until the buffer overflows
  (`ResyncMovesIff`, `StuckUntilCleared`, `StrayByteBlocks`). When it finds none it also drops its last byte, which
  it never tested as the start of a header: two stray bytes can cost the message after them (`ResyncLosesMessage`);
  a header is cut exactly when that last byte starts one (`ResyncDropsHeaderIff`).
- **Closing connection.** The call that sees the connection close returns before it drains: whole messages read by
  that same call stay undelivered, and there are any exactly when it had read data at all (`CloseStrandsIff`,
  `CloseStrandsQuotes`).
- **Cooldown.** The unsigned difference of timestamps wraps when time steps back, and a second order leaves at
  once; an order at time zero counts as no order and starts no cooldown. These are the only two ways around it
  (`CooldownRespectedIff`, `BackwardClockEvadesCooldown`, `TimeZeroStartsNoCooldown`).
- **Duplicate check.** It looks redundant beside the cooldown, and is, unless a quote repeats the last order's at
  time zero or without a cooldown (`DuplicateCheckIsRedundantIff`, `DuplicateCheckMatters`).
- **Free list.** The pop has no tag. A whole interleaving is sound exactly when every pop installs the current
  successor of the node it takes, and one that does not hands a node to two callers (`SoundIff`,
  `SwapOutIsSafeIff`, `RecycledHeadHandsOutTwice`). The counter can exceed the pool for a moment, so that
  `getAvailableCount` wraps (`CounterCanExceedPool`, `CounterExceedsPoolIff`, `AvailableIsFreeIff`).
- **Order records.** What the socket takes of an order while others wait goes past them and lands inside an
  earlier record. The wire carries the orders in turn, in all states of a run, exactly when no order jumps the
  queue but for coinciding bytes (`FramingIff`, `JumpKeepsStreamIff`, `OvertakingBreaksFraming`).
- **Free purchases.** A purchase at price zero is emitted and counted but refused by the order client
  (`EmittedOrderIsSendableIff`, `FreePurchaseIsRefused`).

## Model

| member | source | states |
|---|---|---|
| BoundedSeq.PushKeepsLast | include/circular_buffer.h:19-43 | pushing onto a ring that holds the newest `capacity` elements of a history leaves the newest `capacity` of the longer history, in order |
| CircularBuffers.CircularBuffer.PushBack | include/circular_buffer.h:19-30 | the ring holds what it held plus the item, less the oldest when it was full |
| CircularBuffers.CircularBuffer.PopFront | include/circular_buffer.h:61-66 | drops the oldest element; nothing happens on an empty ring |
| CircularBuffers.CircularBuffer.At | include/circular_buffer.h:86-92 | reads the i-th oldest element through the wrap-around |
| VwapModel.ProductFits | src/vwap_calculator.cpp:54-69 | price times quantity of an acceptable trade fits in 63 bits, so the 128-bit product guard never fires |
| VwapModel.LowerBound | src/vwap_calculator.cpp:132-136 | everything before the result is older than the cutoff and the record at it is not |
| VwapModel.AddTradeKeepsInv | src/vwap_calculator.cpp:37-118 | every trade keeps the window bounded, sorted and live and the totals below 2^64; an accepted trade never leaves the window empty |
| VwapRuns.AcceptedIff | src/vwap_calculator.cpp:37-79 | in every run the next trade is accepted, with its own fields and the exact product, if and only if price and quantity are positive, it is not older than the newest accepted trade, and neither total would reach 2^64 |
| VwapRuns.TradesAreCounted | src/vwap_calculator.cpp:37-118 | every trade of a run is counted once, as accepted or as rejected |
| VwapRuns.WindowIsNewestLiveTrades | src/vwap_calculator.cpp:120-145 | after every run the ring is exactly the newest min(10000, k) of the k accepted trades at or after the cutoff, in order, and all that expired is older than the cutoff |
| VwapRuns.TotalsOfEveryRun | src/vwap_calculator.cpp:72-105 | each total is retained plus displaced, all accepted minus expired, and a recomputation over live trades plus the displaced trades that are stale; none reaches 2^64 |
| VwapRuns.TotalsAreWindowedIff | src/vwap_calculator.cpp:141-146 | each of the two totals is that of the live accepted trades if and only if no displaced trade has passed the cutoff |
| VwapRuns.FullRingBreaksTotals | include/circular_buffer.h:20-23 | for every window duration, 10001 trades at one instant and one late trade make both totals differ from the window's |
| VwapRuns.VwapBetweenPrices | include/vwap_calculator.h:69-77 | once a trade is accepted the VWAP is positive and lies between the least and the greatest price contributing to it |
| VwapReadiness.ReadyIsSound | src/vwap_calculator.cpp:112-117 | the flag is set only when the newest accepted trade is at least one window duration after the first, and then the window is not empty |
| VwapReadiness.ReadyPersists | src/vwap_calculator.cpp:114-117 | the flag is never cleared |
| VwapReadiness.ReadyIff | src/vwap_calculator.cpp:112-117 | in every run, overflowing or not, the window is reported complete if and only if some accepted trade is at least one duration younger than an earlier one, not at time zero, and of the trades from the earlier one on none was evicted for its age by then |
| VwapReadiness.ReadyWithoutOverflowIff | src/vwap_calculator.cpp:112-117 | unless the ring has overflowed, that means two accepted trades exactly one duration apart |
| VwapReadiness.RemovalsAreDetermined | src/vwap_calculator.cpp:92-142 | in every run, a record that has left the ring has expired, rather than been displaced, if and only if some trade among the 9999 accepted after it is more than a duration younger |
| VwapReadiness.TotalsAreWindowedIffTimes | src/vwap_calculator.cpp:141-146 | told by the timestamps of the accepted trades alone: each total is that of the window if and only if every trade older than the cutoff was evicted for its age |
| VwapReadiness.ElapsedWindowMissed | src/vwap_calculator.cpp:114-117 | for every duration, two trades one nanosecond further apart than it leave the flag unset |
| VwapReadiness.FloodIsReported | include/circular_buffer.h:20-23 | for every duration of at least 3 ns, a run that overflows the ring is reported complete although no two accepted trades are exactly one duration apart |
| VwapReadiness.NoOverflowWhenFew | src/vwap_calculator.cpp:92 | the ring has not overflowed while at most 10000 trades have been accepted |
| VwapCalculators.VwapCalculator.AddTrade | src/vwap_calculator.cpp:37-118 | the ring, prefix arrays and 64-bit totals compute the specification's step; a rebuild is pending exactly when the ring is full, otherwise the three arrays match the window; no 64-bit operation wraps |
| VwapCalculators.VwapCalculator.RemoveExpiredTrades | src/vwap_calculator.cpp:120-167 | evicts exactly the records older than the cutoff and subtracts exactly their totals; the empty-window branch cannot be reached |
| VwapCalculators.VwapCalculator.RebuildPrefixes | src/vwap_calculator.cpp:169-182 | all three arrays match the ring afterwards and the generation advances |
| VwapCalculators.VwapCalculator.Rebase | src/vwap_calculator.cpp:146-158 | shifting the arrays down by k and subtracting what left gives the arrays of the remaining window, without a borrow |
| VwapCalculators.RebasedSums | src/vwap_calculator.cpp:149-157 | prefix sums less the sum of the first k records are the prefix sums of the rest |
| VwapCalculators.VwapCalculator.AppendPrefix | src/vwap_calculator.cpp:184-191 | writes the last prefix sums and nothing else, without wrapping |
| VwapCalculators.VwapCalculator.LowerBoundTime | src/vwap_calculator.cpp:193-198 | binary search finds the number of leading records older than the cutoff |
| VwapCalculators.VwapCalculator.GetCurrentVwap | include/vwap_calculator.h:69-77 | cached or fresh, the value is the current ratio of the totals, and the state is unchanged |
| VwapCalculators.VwapCalculator.HasCompleteWindow | include/vwap_calculator.h:51 | the flag is set and the window is not empty |
| VwapCalculators.VwapCalculator.constructor | src/vwap_calculator.cpp:19-35 | starts empty with the window duration in nanoseconds |
| DecisionEngines.DecisionEngine.EvaluateQuote | src/decision_engine.cpp:37-142 | new state and order are those of the specification: first failing guard wins, counters, history, remembered quote and order time |
| DecisionEngines.DecisionEngine.RecordDecision | src/decision_engine.cpp:179-184 | appends and trims so that the newest 1000 decisions remain |
| DecisionEngines.DecisionEngine.OnVwapWindowComplete | src/decision_engine.cpp:30-35 | leaves the waiting state and no other |
| OrderManagers.OrderManager.ProcessQuote | src/order_manager.cpp:43-62 | checks the window, evaluates at the exact current VWAP, records and counts the order |
| OrderManagers.OrderManager.ProcessTrade | src/order_manager.cpp:64-74 | feeds the calculator, then checks the window |
| OrderManagers.OrderManager.CheckVwapWindowComplete | src/order_manager.cpp:76-87 | manager and engine become ready together when the calculator reports a complete window |
| OrderManagers.Create | src/order_manager.cpp:7-38 | a manager exists exactly for side B or S, a positive order size and a positive window |
| TradingRuns.RunKeepsInv | src/order_manager.cpp:43-103 | after every run: manager and engine agree, ORDER_SENT is never visible, readiness equals the calculator's, processed = triggered + rejected with the four reasons, each counter matches the decisions taken, both histories hold the newest 1000 entries |
| TradingRuns.CalculatorSeesTrades | src/order_manager.cpp:64-67 | quotes never disturb the calculator |
| TradingRuns.ReadinessPersists | src/order_manager.cpp:76-79 | readiness is never lost |
| TradingRuns.NoOrderBeforeFullWindow | src/decision_engine.cpp:52-64 | no order before two accepted trades lie at least one window duration apart |
| TradingRuns.ReadyToTradeIff | src/order_manager.cpp:76-87 | in every run trading can begin exactly when the accepted trades span a window; without a ring overflow, when two of them are one duration apart |
| TradingRuns.OrderIsSound | src/decision_engine.cpp:94-158 | every order on a valid quote is strictly on the right side of the exact ratio held at that step, keeps the quoted price through the casts, and asks for at least one unit and for exactly the smaller of limit and quoted size |
| TradingRuns.EmittedOrderIsSendableIff | src/order_client.cpp:20-22 | the order client accepts an emitted order if and only if it is not a purchase at price zero |
| TradingRuns.FreePurchaseIsRefused | src/order_client.cpp:20-22 | for every duration, after the same trades a valid quote that asks 0 makes a buyer emit an order that the order client refuses |
| TradingRuns.OrderRateIsBounded | src/decision_engine.cpp:172-177 | with positive nondecreasing quote times, orders i and j are at least (j - i) cooldowns apart and an interval of length L holds at most L / cooldown + 1 |
| TradingRuns.OrderLeavesIff | src/decision_engine.cpp:37-142 | in every run a quote draws an order if and only if the accepted trades span a window, the last order was at time zero or its unsigned age is at least the cooldown, the price strictly beats the exact ratio held, and, at time zero or without a cooldown, the quote is not a duplicate |
| TradingRuns.OrderLeavesOnTimeIff | src/decision_engine.cpp:37-142 | with positive nondecreasing quote times the wait is the plain one: there is no earlier order or it is at least a cooldown old |
| TradingRuns.DecisionIsTold | src/decision_engine.cpp:52-142 | in every run each quote adds one decision with the first reason that applies (window not spanned, repeats the quote last acted on, cooldown, price), told without the guards; it records price and size only where the price was looked at, and the size ordered |
| TradingRuns.DuplicateIff | src/decision_engine.cpp:160-170 | in every run a quote counts as a duplicate if and only if it has the time, and on the traded side the price and size, of the quote that drew the last order (all zero before any order) |
| TradingRuns.RecordKeepsOrder | src/order_manager.cpp:89-103 | the record of an order keeps its fields, and of the symbol the bytes before the first zero |
| TradingRuns.EventsAreCounted | src/order_manager.cpp:43-67 | each quote and each trade of a run is counted once, and each quote adds one decision |
| TradingRuns.FirstOrderLeaves | src/order_manager.cpp:43-62 | for every duration, two trades one duration apart at price 1 and then a bid of 2 or more make a seller's first order leave: the safety results are not empty |
| TradingRuns.CooldownRespectedIff | src/decision_engine.cpp:172-177 | in every run an order respects the cooldown after the run's previous order if and only if time has not run backwards and the previous order was not at time zero (or the cooldown has passed since time zero too) |
| TradingRuns.BackwardClockEvadesCooldown | src/decision_engine.cpp:176 | for every duration and cooldown, a bid and the same bid one nanosecond earlier both draw an order |
| TradingRuns.TimeZeroStartsNoCooldown | src/decision_engine.cpp:173 | for every duration and cooldown above 1 ns, a bid at time 0 and the same bid at time 1 both draw an order |
| TradingRuns.DuplicateIsInCooldownIff | src/decision_engine.cpp:66-92 | in reachable states a duplicate quote is in cooldown if and only if its timestamp and the cooldown are nonzero |
| TradingRuns.DuplicateCheckIsRedundantIff | src/decision_engine.cpp:66-78 | in every run, removing the duplicate check leaves the emitted orders as they are if and only if no quote repeats the last order's, at time zero or without a cooldown, while its price beats the ratio |
| TradingRuns.UncheckedOrders | src/decision_engine.cpp:66-142 | in every run, without the check there are exactly as many orders more as quotes that only the check turns away, and what later quotes are judged by is the same |
| TradingRuns.DuplicateCheckMatters | src/decision_engine.cpp:66-78 | for every duration, the second of two equal bids at time zero is turned away by the check alone |
| TradingRuns.DuplicateCheckIsRedundant | src/decision_engine.cpp:66-78 | with nonzero quote times and a cooldown, removing the duplicate check changes no emitted order in any run |
| WireCodec.QuoteRoundTrip | src/message_parser.cpp:22-52 | parsing a serialized quote gives the quote back, signed prices included |
| WireCodec.TradeRoundTrip | src/message_parser.cpp:54-76 | parsing a serialized trade gives the trade back |
| WireCodec.OrderRoundTrip | src/message_parser.cpp:111-135 | parsing a serialized order gives the order back through the unaligned fields |
| WireCodec.BytesOfParsed | src/message_serializer.cpp:22-85 | serializing what was parsed from 32, 24 or 25 bytes gives those bytes back |
| WireCodec.QuoteLayout | src/message_parser.cpp:22-52 | by an independent reading of the bytes, every field of a quote is at its offset, little-endian, the ask signed |
| WireCodec.TradeLayout | src/message_parser.cpp:54-76 | by an independent reading of the bytes, every field of a trade is at its offset, little-endian, the price signed |
| WireCodec.ValidQuoteIff | src/message_parser.cpp:98-103 | which 32 bytes pass: neither quantity zero, both sign bits clear, bid not above ask |
| WireCodec.ValidTradeIff | src/message_parser.cpp:105-109 | which 24 bytes pass: quantity not zero, sign bit of the price clear |
| WireCodec.ValidHeaderIff | src/message_parser.cpp:78-96 | the valid headers are (32, 1) and (24, 2) and no others |
| WireCodec.DecodersAgree | simple_order_server.py:23-37 | the Python decoder and the C++ parser read the same numbers and side from any 25 bytes |
| WireCodec.SymbolArrivesIff | simple_order_server.py:30 | the server sees the configured symbol if and only if it has at most eight bytes, all ASCII, the last not zero |
| MessageSerializers.SerializeHeader | src/message_serializer.cpp:11-20 | writes two bytes in place and nothing else, or refuses a short buffer |
| MessageSerializers.SerializeQuote | src/message_serializer.cpp:22-45 | writes exactly the 32 quote bytes, or refuses a short buffer untouched |
| MessageSerializers.SerializeTrade | src/message_serializer.cpp:47-64 | writes exactly the 24 trade bytes, or refuses a short buffer untouched |
| MessageSerializers.SerializeOrder | src/message_serializer.cpp:66-85 | writes exactly the 25 order bytes, or refuses a short buffer untouched |
| MessageSerializers.SerializeQuoteMessage | src/message_serializer.cpp:87-107 | writes header and body of a quote frame |
| MessageSerializers.SerializeTradeMessage | src/message_serializer.cpp:109-129 | writes header and body of a trade frame |
| MessageBuffers.MessageBuffer.Append | src/message_buffer.cpp:10-20 | appends all the bytes, around the end of the ring, or nothing when they do not fit |
| MessageBuffers.MessageBuffer.PeekMessage | src/message_buffer.cpp:22-35 | classifies the front of the byte sequence and locates the contiguous part of the body |
| MessageBuffers.MessageBuffer.BodyParts | src/market_data_client.cpp:59-64 | the two copied parts joined are the bytes after the header: the client's inline copy is extractMessage's |
| MessageBuffers.MessageBuffer.Consume | src/message_buffer.cpp:37-41 | removes the frame from the front |
| MessageBuffers.MessageBuffer.ExtractMessage | src/message_buffer.cpp:43-55 | copies the body out and removes the frame, or changes nothing |
| MessageBuffers.MessageBuffer.Resync | src/message_buffer.cpp:63-85 | returns the least plausible offset from 1 on and leaves the buffer alone, or drops the scanned bytes |
| StreamModel.FindHeader | src/message_buffer.cpp:67-76 | the offset found is the least one in range with a valid header; none is found only when there is none |
| MarketDataClients.MarketDataClient.ProcessIncomingData | src/market_data_client.cpp:16-108 | one call on the ring does what the specification does on the byte sequence, delivering the same messages |
| MarketDataClients.MarketDataClient.DrainLoop | src/market_data_client.cpp:39-92 | delivers the complete valid frames in order and terminates |
| StreamRuns.DrainCut | src/market_data_client.cpp:39-92 | draining any cut of an encoded stream delivers the messages complete in it and leaves a proper prefix of the next |
| StreamRuns.QuoteFrame | src/market_data_client.cpp:39-91 | a frame of 32 bytes is taken off whole and delivers its quote if and only if its bytes pass |
| StreamRuns.TradeFrame | src/market_data_client.cpp:39-91 | a frame of 24 bytes is taken off whole and delivers its trade if and only if its bytes pass |
| StreamRuns.InvalidHeaderIff | src/message_buffer.cpp:22-28 | the front is an invalid header if and only if two bytes are held that are neither (32, 1) nor (24, 2) |
| StreamRuns.CallIsTold | src/market_data_client.cpp:16-108 | one call on any buffer takes the leading reads that fit, at most four and all full but for the last; the next read clears the buffer if and only if it does not fit; the call fails, and drains nothing, if and only if the answer after them is a closed or failed connection |
| StreamRuns.StreamIsReassembled | src/market_data_client.cpp:19-51 | for every stream of messages, every fragmentation and every grouping into calls: exactly the validated messages that have arrived whole, once each and in order; what stays is a proper part of the next message, at most 33 bytes, the buffer is never cleared, and nothing is left at the end |
| StreamRuns.CloseStrandsIff | src/market_data_client.cpp:19-33 | when the connection closes or fails, the messages delivered are the first k, the whole messages after them stay undelivered in the buffer, and there are any if and only if the call that saw the end had read data |
| StreamRuns.CloseStrandsQuotes | src/market_data_client.cpp:22-25 | for every valid quote: of 121 copies, 120 arrive whole in one read before the connection closes and none is delivered |
| StreamRuns.ResyncTells | src/message_buffer.cpp:63-85 | what resync returns and leaves: everything held below three bytes, else the least plausible offset within 256 bytes, else the number of bytes dropped |
| StreamRuns.ResyncMovesIff | src/message_buffer.cpp:63-85 | after an invalid header nothing is delivered and the buffer shrinks if and only if at least three bytes are held and the scan finds no header |
| StreamRuns.ResyncDropsHeaderIff | src/message_buffer.cpp:67-83 | whatever arrives later, the bytes dropped by a scan that found nothing hold the start of a header if and only if the last of them is one |
| StreamRuns.ResyncLosesMessage | src/message_buffer.cpp:67-83 | two stray bytes that are no header, followed by the first byte of any message, make the scan drop that byte, and the rest of the message delivers nothing |
| StreamRuns.StuckUntilCleared | src/market_data_client.cpp:45-50 | once the scan finds a header behind an invalid one, no later input delivers anything until the buffer is cleared |
| StreamRuns.StrayByteBlocks | src/message_buffer.cpp:75 | any single byte before any message blocks the connection |
| SendQueue.PumpConserves | src/order_client.cpp:65-96 | for any socket: bytes taken plus bytes waiting are unchanged and in order, except that a hard error empties the queue and then what was taken is a prefix |
| SendQueue.PumpTerminates | src/order_client.cpp:68-95 | a socket that makes progress or fails is asked at most once per waiting byte and once more |
| SendQueue.PumpDrains | src/order_client.cpp:65-96 | a socket that takes something each time and is asked often enough takes everything, in order |
| SendQueue.PumpDrainsRecords | src/order_client.cpp:68-75 | a socket that takes whole records is asked once for each of them |
| SendQueue.PumpStopsFor | src/order_client.cpp:68-95 | a pump stops only on an empty queue or on an answer that is no transfer; that answer decides the state and whether the queue is kept; records wait on a live connection only when a send would block |
| SendQueue.OneSendMoves | src/order_client.cpp:70-75 | one send moves what the socket reports, at most the rest of the front record |
| SendQueue.SendOrderAccounts | src/order_client.cpp:14-63 | an order reported as sent accounts for exactly 25 bytes taken or queued; a refused one leaves the queue alone |
| SendQueue.SentIff | src/order_client.cpp:14-63 | an order is reported as sent if and only if the client is connected, the order is well-formed, and the socket took it all or the rest could be queued |
| SendQueue.SendLeaves | src/order_client.cpp:31-62 | for each answer: the bytes taken, the record queued and the state of the connection |
| SendQueue.JumpKeepsStreamIff | src/order_client.cpp:31-58 | bytes of an order taken while others wait keep the stream in order if and only if the rest can be queued and those bytes can change places with what waits |
| SendQueue.FramingIff | src/order_client.cpp:14-96 | in every run, the bytes taken and waiting are at all times those of the reported orders in turn if and only if no order jumps the queue but for coinciding bytes |
| SendQueue.WireCarriesOrders | simple_order_server.py:12-37 | as long as no order jumps the queue, however many wait, the i-th 25-byte record on the wire is the i-th order reported as sent, and the server reads its fields |
| SendQueue.OvertakingBreaksFraming | src/order_client.cpp:31 | an order offered while another waits can land inside its record |
| OrderClients.OrderClient.SendOrder | src/order_client.cpp:14-63 | guards, serialization, socket outcome and queue give the specification's state and result |
| OrderClients.OrderClient.ProcessSendQueue | src/order_client.cpp:65-96 | the loop over the ring does what the specification does on the queue |
| OrderClients.OrderClient.EnqueuePending | include/order_client.h:28-37 | appends a record or refuses when 1000 wait |
| OrderClients.OrderClient.PopFront | include/order_client.h:39 | drops the oldest record |
| MemoryPools.BuildFreeList | include/memory_pool.h:24-30 | the constructor's loop links every node once, newest first |
| MemoryPools.StepKeepsInv | include/memory_pool.h:32-69 | under the hypothesis every load, store, swap and counter step of every thread keeps list, partition, remembered pointers and counter right |
| MemoryPools.PoolIsSafe | include/memory_pool.h:32-69 | in every interleaving that respects the hypothesis the free list is acyclic, every node is free, owned or in one thread's hand, and the counter is pool size less free length adjusted by threads in transit |
| MemoryPools.NeverHandedOutTwice | include/memory_pool.h:37-41 | a node about to be returned is owned by nobody and held by no other thread |
| MemoryPools.NullOnlyWhenEmpty | include/memory_pool.h:33-46 | allocate returns without a node only at a moment when the list is empty |
| MemoryPools.TakesTheHead | include/memory_pool.h:35-43 | what allocate takes is the head of the list, and it returns what it took |
| MemoryPools.GivesToTheHead | include/memory_pool.h:56-66 | deallocate lets go of its node only by making it the head |
| MemoryPools.AllocatesAlone | include/memory_pool.h:33-46 | wherever it has been interrupted, allocate run alone returns the head within six steps, or null when there is none |
| MemoryPools.DeallocatesAlone | include/memory_pool.h:50-69 | wherever it has been interrupted, deallocate run alone makes its node the head within six steps and counts down |
| MemoryPools.CallsStart | include/memory_pool.h:32-69 | any idle thread may allocate, and may give back any node a caller owns |
| MemoryPools.CountsAtRest | include/memory_pool.h:71-77 | with all threads idle the counter is the number of owned nodes and the rest are on the free list |
| MemoryPools.AvailableIsFreeIff | include/memory_pool.h:75-77 | the available count is the length of the free list if and only if as many threads are to count up as down |
| MemoryPools.CounterExceedsPoolIff | include/memory_pool.h:71-77 | the counter exceeds the pool if and only if the threads still to count down outnumber the free nodes and the threads still to count up together |
| MemoryPools.SwapOutIsSafeIff | include/memory_pool.h:36-39 | popping keeps list and partition sound if and only if the remembered successor is still the head's successor |
| MemoryPools.SoundIff | include/memory_pool.h:32-69 | in every interleaving, without the hypothesis: list and partition are sound in all states passed through if and only if every pop installs the current successor of the node it takes |
| MemoryPools.RespectingInstalls | include/memory_pool.h:35-44 | an interleaving that respects the hypothesis installs only current successors |
| MemoryPools.RecycledHeadHandsOutTwice | include/memory_pool.h:35-44 | a reachable interleaving without the hypothesis hands an owned node out again |
| MemoryPools.CounterCanExceedPool | include/memory_pool.h:64-68 | an interleaving that respects the hypothesis takes the counter above the pool size |
| LatencyMetrics.ExtremesBoundFinished | include/metrics.h:238-243 | at any moment minimum and maximum bound every finished sample |
| LatencyMetrics.FinishesAlone | include/metrics.h:238-246 | wherever it has been interrupted, a call that runs alone finishes within six moves, with the lower minimum, the higher maximum, its sample in the total and itself in the count |
| LatencyMetrics.CallsKeepSamples | include/metrics.h:238 | each call keeps the sample it was started with |
| LatencyMetrics.QuiescentMetrics | include/metrics.h:238-246 | when all calls have finished, whatever their interleaving and failed swaps, the extremes are exact and total and count are exact modulo 2^64 |

## Left out

- SendQueue.WireCarriesOrders: requires that no order jumps the queue but for coinciding bytes; `FramingIff` shows that this is exactly what keeps the records in turn.
- MemoryPools.PoolIsSafe: assumes that no node is pushed back while a thread still holds it as its loaded head; `SoundIff` gives the exact condition for the list and the partition, without that assumption.
- TradingRuns.OrderIsSound: speaks of quotes that pass `validateQuote`, the only ones the market-data client delivers.
- IEEE rounding: VWAP and prices are compared as exact rationals, where the program rounds to doubles.
- A bid price of 2^31 or more, which validation rejects: its conversion from double to int32 is undefined in C++ and is modelled as two's-complement wrap-around.
- Masks with 65535 are written as remainders modulo 65536.
- C++ memory orderings: the pool and the latency metrics assume sequential consistency.
- Sockets, connecting and reconnecting, `select` and error codes: receive and send outcomes are inputs, and the connection state of the market-data client is not part of this model.
- `recv_fully` and the printing of the Python server; the model starts at `parse_order`.
- The callbacks of the order manager and the market-data client appear as results of their methods.
- Printed text, reason strings, wall-clock latency sampling and the global counters other than `updateLatency`.
- `parseHeader`, which nothing calls: `peekMessage` reads the two header bytes itself.
- `SimplePool`, pool alignment, and `deallocate` of a null or foreign pointer, which does nothing.
- Simulator, CSV reader, network manager and argument parsing.
- The `VWAP_DISABLE_TIME_INDEX` build; the default build with the time index is modelled.
