/**
 src/message_serializer.cpp: each function writes its fields into the caller's buffer at fixed
 offsets. A pointer into a buffer is the array together with an index.
 */
module MessageSerializers {
  import opened MachineInts
  import opened Messages
  import opened WireCodec

  /** s with the bytes w written over it at index at. */
  ghost function Written(s: seq<u8>, at: nat, w: seq<u8>): (r: seq<u8>)
    requires at + |w| <= |s|
    ensures |r| == |s|
  {
    s[..at] + w + s[at + |w|..]
  }

  lemma WriteNext(s: seq<u8>, at: nat, w: seq<u8>, next: seq<u8>)
    requires at + |w| + |next| <= |s|
    ensures Written(Written(s, at, w), at + |w|, next) == Written(s, at, w + next)
  {
  }

  /** memcpy into a buffer. */
  method CopyBytes(dst: array<u8>, at: nat, src: seq<u8>)
    requires at + |src| <= dst.Length
    modifies dst
    ensures dst[..] == Written(old(dst[..]), at, src)
  {
    for i := 0 to |src|
      invariant dst[at..at + i] == src[..i]
      invariant dst[..at] == old(dst[..at]) && dst[at + i..] == old(dst[at + i..])
    {
      dst[at + i] := src[i];
      assert dst[at..at + i + 1] == dst[at..at + i] + [src[i]];
    }
    assert dst[..] == dst[..at] + dst[at..at + |src|] + dst[at + |src|..];
  }

  method SerializeHeader(buffer: array<u8>, at: nat, bufferSize: nat, header: Header) returns (n: nat)
    requires at + bufferSize <= buffer.Length
    modifies buffer
    ensures bufferSize < HEADER_SIZE ==> n == 0 && buffer[..] == old(buffer[..])
    ensures bufferSize >= HEADER_SIZE ==>
      n == HEADER_SIZE && buffer[..] == Written(old(buffer[..]), at, [header.length, header.kind])
  {
    if bufferSize < HEADER_SIZE {
      return 0;
    }
    buffer[at] := header.length;
    buffer[at + 1] := header.kind;
    return HEADER_SIZE;
  }

  method SerializeQuote(buffer: array<u8>, at: nat, bufferSize: nat, quote: QuoteMessage) returns (n: nat)
    requires at + bufferSize <= buffer.Length
    modifies buffer
    ensures bufferSize < QUOTE_SIZE ==> n == 0 && buffer[..] == old(buffer[..])
    ensures bufferSize >= QUOTE_SIZE ==>
      n == QUOTE_SIZE && buffer[..] == Written(old(buffer[..]), at, QuoteBytes(quote))
  {
    if bufferSize < QUOTE_SIZE {
      return 0;
    }
    ghost var s := buffer[..];
    var a, b, c, d := quote.symbol, PutU64(quote.timestamp), PutU32(quote.bidQuantity), PutU32(quote.bidPrice);
    var e, f := PutU32(quote.askQuantity), PutU32(ToU32(quote.askPrice));
    CopyBytes(buffer, at, a);
    CopyBytes(buffer, at + 8, b);
    WriteNext(s, at, a, b);
    CopyBytes(buffer, at + 16, c);
    WriteNext(s, at, a + b, c);
    CopyBytes(buffer, at + 20, d);
    WriteNext(s, at, a + b + c, d);
    CopyBytes(buffer, at + 24, e);
    WriteNext(s, at, a + b + c + d, e);
    CopyBytes(buffer, at + 28, f);
    WriteNext(s, at, a + b + c + d + e, f);
    return QUOTE_SIZE;
  }

  method SerializeTrade(buffer: array<u8>, at: nat, bufferSize: nat, trade: TradeMessage) returns (n: nat)
    requires at + bufferSize <= buffer.Length
    modifies buffer
    ensures bufferSize < TRADE_SIZE ==> n == 0 && buffer[..] == old(buffer[..])
    ensures bufferSize >= TRADE_SIZE ==>
      n == TRADE_SIZE && buffer[..] == Written(old(buffer[..]), at, TradeBytes(trade))
  {
    if bufferSize < TRADE_SIZE {
      return 0;
    }
    ghost var s := buffer[..];
    var a, b, c, d := trade.symbol, PutU64(trade.timestamp), PutU32(trade.quantity), PutU32(ToU32(trade.price));
    CopyBytes(buffer, at, a);
    CopyBytes(buffer, at + 8, b);
    WriteNext(s, at, a, b);
    CopyBytes(buffer, at + 16, c);
    WriteNext(s, at, a + b, c);
    CopyBytes(buffer, at + 20, d);
    WriteNext(s, at, a + b + c, d);
    return TRADE_SIZE;
  }

  method SerializeOrder(buffer: array<u8>, at: nat, bufferSize: nat, order: OrderMessage) returns (n: nat)
    requires at + bufferSize <= buffer.Length
    modifies buffer
    ensures bufferSize < ORDER_SIZE ==> n == 0 && buffer[..] == old(buffer[..])
    ensures bufferSize >= ORDER_SIZE ==>
      n == ORDER_SIZE && buffer[..] == Written(old(buffer[..]), at, OrderBytes(order))
  {
    if bufferSize < ORDER_SIZE {
      return 0;
    }
    ghost var s := buffer[..];
    var a, b, d, e := order.symbol, PutU64(order.timestamp), PutU32(order.quantity), PutU32(ToU32(order.price));
    CopyBytes(buffer, at, a);
    CopyBytes(buffer, at + 8, b);
    WriteNext(s, at, a, b);
    CopyBytes(buffer, at + 16, [order.side]);
    WriteNext(s, at, a + b, [order.side]);
    CopyBytes(buffer, at + 17, d);
    WriteNext(s, at, a + b + [order.side], d);
    CopyBytes(buffer, at + 21, e);
    WriteNext(s, at, a + b + [order.side] + d, e);
    return ORDER_SIZE;
  }

  method SerializeQuoteMessage(buffer: array<u8>, bufferSize: nat, quote: QuoteMessage) returns (n: nat)
    requires bufferSize <= buffer.Length
    modifies buffer
    ensures bufferSize < HEADER_SIZE + QUOTE_SIZE ==> n == 0 && buffer[..] == old(buffer[..])
    ensures bufferSize >= HEADER_SIZE + QUOTE_SIZE ==>
      && n == HEADER_SIZE + QUOTE_SIZE
      && buffer[..] == Written(old(buffer[..]), 0, [QUOTE_SIZE, QUOTE_TYPE] + QuoteBytes(quote))
  {
    if bufferSize < HEADER_SIZE + QUOTE_SIZE {
      return 0;
    }
    ghost var s := buffer[..];
    var headerSize := SerializeHeader(buffer, 0, bufferSize, Header(QUOTE_SIZE, QUOTE_TYPE));
    if headerSize == 0 {
      assert false;
    }
    var bodySize := SerializeQuote(buffer, headerSize, bufferSize - headerSize, quote);
    if bodySize == 0 {
      assert false;
    }
    WriteNext(s, 0, [QUOTE_SIZE, QUOTE_TYPE], QuoteBytes(quote));
    return headerSize + bodySize;
  }

  method SerializeTradeMessage(buffer: array<u8>, bufferSize: nat, trade: TradeMessage) returns (n: nat)
    requires bufferSize <= buffer.Length
    modifies buffer
    ensures bufferSize < HEADER_SIZE + TRADE_SIZE ==> n == 0 && buffer[..] == old(buffer[..])
    ensures bufferSize >= HEADER_SIZE + TRADE_SIZE ==>
      && n == HEADER_SIZE + TRADE_SIZE
      && buffer[..] == Written(old(buffer[..]), 0, [TRADE_SIZE, TRADE_TYPE] + TradeBytes(trade))
  {
    if bufferSize < HEADER_SIZE + TRADE_SIZE {
      return 0;
    }
    ghost var s := buffer[..];
    var headerSize := SerializeHeader(buffer, 0, bufferSize, Header(TRADE_SIZE, TRADE_TYPE));
    if headerSize == 0 {
      assert false;
    }
    var bodySize := SerializeTrade(buffer, headerSize, bufferSize - headerSize, trade);
    if bodySize == 0 {
      assert false;
    }
    WriteNext(s, 0, [TRADE_SIZE, TRADE_TYPE], TradeBytes(trade));
    return headerSize + bodySize;
  }
}
