/** The messages of include/message.h, as values. */
module Messages {
  import opened MachineInts

  const QUOTE_TYPE: u8 := 1
  const TRADE_TYPE: u8 := 2

  const BUY: u8 := 66    // 'B'
  const SELL: u8 := 83   // 'S'

  /** char symbol[8] */
  type Symbol = s: seq<u8> | |s| == 8 witness [0, 0, 0, 0, 0, 0, 0, 0]

  datatype Header = Header(length: u8, kind: u8)

  datatype QuoteMessage = QuoteMessage(
    symbol: Symbol, timestamp: u64,
    bidQuantity: u32, bidPrice: u32, askQuantity: u32, askPrice: i32)

  datatype TradeMessage = TradeMessage(symbol: Symbol, timestamp: u64, quantity: u32, price: i32)

  /** The three padding bytes of the C++ struct are always zero and are not represented. */
  datatype OrderMessage = OrderMessage(symbol: Symbol, timestamp: u64, quantity: u32, price: i32, side: u8)

  datatype Option<+T> = None | Some(value: T)

  /** The first eight bytes of the symbol, padded with zeros. */
  function PadSymbol(symbol: seq<u8>): (s: Symbol)
    ensures forall i :: 0 <= i < 8 ==> s[i] == if i < |symbol| then symbol[i] else 0
  {
    seq(8, i requires 0 <= i < 8 => if i < |symbol| then symbol[i] else 0)
  }
}
