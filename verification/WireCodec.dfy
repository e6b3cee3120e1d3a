/**
 The wire formats of include/wire_format.h: little-endian fields at fixed offsets, written by
 src/message_serializer.cpp, read by src/message_parser.cpp and, for orders, by simple_order_server.py.
 */
module WireCodec {
  import opened MachineInts
  import opened Messages

  const HEADER_SIZE: nat := 2
  const QUOTE_SIZE: nat := 32
  const TRADE_SIZE: nat := 24
  const ORDER_SIZE: nat := 25

  // ----- Little-endian integers -----

  function Pow256(n: nat): nat {
    if n == 0 then 1 else 256 * Pow256(n - 1)
  }

  /** The n low-order bytes of v, lowest first. */
  function ToBytes(v: nat, n: nat): (b: seq<u8>)
    ensures |b| == n
  {
    if n == 0 then [] else [v % 256] + ToBytes(v / 256, n - 1)
  }

  function FromBytes(b: seq<u8>): nat {
    if b == [] then 0 else b[0] + 256 * FromBytes(b[1..])
  }

  lemma {:induction false} FromBytesFits(b: seq<u8>)
    ensures FromBytes(b) < Pow256(|b|)
  {
    if b != [] {
      FromBytesFits(b[1..]);
    }
  }

  lemma {:induction false} BytesRoundTrip(v: nat, n: nat)
    requires v < Pow256(n)
    ensures FromBytes(ToBytes(v, n)) == v
  {
    if n > 0 {
      BytesRoundTrip(v / 256, n - 1);
      var b := ToBytes(v, n);
      assert b[0] == v % 256 && b[1..] == ToBytes(v / 256, n - 1);
    }
  }

  lemma {:induction false} ValueRoundTrip(b: seq<u8>)
    ensures ToBytes(FromBytes(b), |b|) == b
  {
    if b != [] {
      ValueRoundTrip(b[1..]);
      assert FromBytes(b) % 256 == b[0] && FromBytes(b) / 256 == FromBytes(b[1..]);
    }
  }

  lemma Widths()
    ensures Pow256(4) == TWO32 && Pow256(8) == TWO64
  {
  }

  function PutU32(v: u32): (b: seq<u8>)
    ensures |b| == 4
  {
    ToBytes(v, 4)
  }

  function PutU64(v: u64): (b: seq<u8>)
    ensures |b| == 8
  {
    ToBytes(v, 8)
  }

  function GetU32(b: seq<u8>): (v: u32)
    requires |b| == 4
    ensures PutU32(v) == b
  {
    FromBytesFits(b);
    Widths();
    ValueRoundTrip(b);
    FromBytes(b)
  }

  function GetU64(b: seq<u8>): (v: u64)
    requires |b| == 8
    ensures PutU64(v) == b
  {
    FromBytesFits(b);
    Widths();
    ValueRoundTrip(b);
    FromBytes(b)
  }

  lemma U32RoundTrip(v: u32)
    ensures GetU32(PutU32(v)) == v
  {
    Widths();
    BytesRoundTrip(v, 4);
  }

  lemma U64RoundTrip(v: u64)
    ensures GetU64(PutU64(v)) == v
  {
    Widths();
    BytesRoundTrip(v, 8);
  }

  // ----- Message bodies -----

  function QuoteBytes(q: QuoteMessage): (b: seq<u8>)
    ensures |b| == QUOTE_SIZE
  {
    q.symbol + PutU64(q.timestamp) + PutU32(q.bidQuantity) + PutU32(q.bidPrice)
      + PutU32(q.askQuantity) + PutU32(ToU32(q.askPrice))
  }

  function TradeBytes(t: TradeMessage): (b: seq<u8>)
    ensures |b| == TRADE_SIZE
  {
    t.symbol + PutU64(t.timestamp) + PutU32(t.quantity) + PutU32(ToU32(t.price))
  }

  /** Quantity and price follow the one-byte side and are not aligned. */
  function OrderBytes(o: OrderMessage): (b: seq<u8>)
    ensures |b| == ORDER_SIZE
  {
    o.symbol + PutU64(o.timestamp) + [o.side] + PutU32(o.quantity) + PutU32(ToU32(o.price))
  }

  function ParseQuote(b: seq<u8>): Option<QuoteMessage> {
    if |b| < QUOTE_SIZE then None
    else Some(QuoteMessage(b[0..8], GetU64(b[8..16]), GetU32(b[16..20]), GetU32(b[20..24]),
                           GetU32(b[24..28]), ToI32(GetU32(b[28..32]))))
  }

  function ParseTrade(b: seq<u8>): Option<TradeMessage> {
    if |b| < TRADE_SIZE then None
    else Some(TradeMessage(b[0..8], GetU64(b[8..16]), GetU32(b[16..20]), ToI32(GetU32(b[20..24]))))
  }

  function ParseOrder(b: seq<u8>): Option<OrderMessage> {
    if |b| < ORDER_SIZE then None
    else Some(OrderMessage(b[0..8], GetU64(b[8..16]), GetU32(b[17..21]), ToI32(GetU32(b[21..25])), b[16]))
  }

  lemma LastField(front: seq<u8>, field: seq<u8>)
    ensures (front + field)[..|front|] == front && (front + field)[|front|..] == field
  {
  }

  lemma QuoteFields(a: seq<u8>, b: seq<u8>, c: seq<u8>, d: seq<u8>, e: seq<u8>, f: seq<u8>)
    requires |a| == |b| == 8 && |c| == |d| == |e| == |f| == 4
    ensures var s := a + b + c + d + e + f;
      s[0..8] == a && s[8..16] == b && s[16..20] == c && s[20..24] == d && s[24..28] == e && s[28..32] == f
  {
  }

  lemma TradeFields(a: seq<u8>, b: seq<u8>, c: seq<u8>, d: seq<u8>)
    requires |a| == |b| == 8 && |c| == |d| == 4
    ensures var s := a + b + c + d;
      s[0..8] == a && s[8..16] == b && s[16..20] == c && s[20..24] == d
  {
  }

  lemma OrderFields(a: seq<u8>, b: seq<u8>, c: u8, d: seq<u8>, e: seq<u8>)
    requires |a| == |b| == 8 && |d| == |e| == 4
    ensures var s := a + b + [c] + d + e;
      s[0..8] == a && s[8..16] == b && s[16] == c && s[17..21] == d && s[21..25] == e
  {
  }

  lemma QuoteRoundTrip(q: QuoteMessage)
    ensures ParseQuote(QuoteBytes(q)) == Some(q)
  {
    QuoteFields(q.symbol, PutU64(q.timestamp), PutU32(q.bidQuantity), PutU32(q.bidPrice),
                PutU32(q.askQuantity), PutU32(ToU32(q.askPrice)));
    U64RoundTrip(q.timestamp);
    U32RoundTrip(q.bidQuantity);
    U32RoundTrip(q.bidPrice);
    U32RoundTrip(q.askQuantity);
    U32RoundTrip(ToU32(q.askPrice));
  }

  lemma TradeRoundTrip(t: TradeMessage)
    ensures ParseTrade(TradeBytes(t)) == Some(t)
  {
    TradeFields(t.symbol, PutU64(t.timestamp), PutU32(t.quantity), PutU32(ToU32(t.price)));
    U64RoundTrip(t.timestamp);
    U32RoundTrip(t.quantity);
    U32RoundTrip(ToU32(t.price));
  }

  lemma OrderRoundTrip(o: OrderMessage)
    ensures ParseOrder(OrderBytes(o)) == Some(o)
  {
    OrderFields(o.symbol, PutU64(o.timestamp), o.side, PutU32(o.quantity), PutU32(ToU32(o.price)));
    U64RoundTrip(o.timestamp);
    U32RoundTrip(o.quantity);
    U32RoundTrip(ToU32(o.price));
  }

  /** Every 32 bytes are a quote, every 24 a trade and every 25 an order: serializing gives them back. */
  lemma BytesOfParsed(b: seq<u8>)
    ensures |b| == QUOTE_SIZE ==> QuoteBytes(ParseQuote(b).value) == b
    ensures |b| == TRADE_SIZE ==> TradeBytes(ParseTrade(b).value) == b
    ensures |b| == ORDER_SIZE ==> OrderBytes(ParseOrder(b).value) == b
  {
  }

  // ----- Validation -----

  /** MessageParser::validateHeader, guard by guard. */
  predicate ValidHeader(h: Header) {
    && !(h.kind != QUOTE_TYPE && h.kind != TRADE_TYPE)
    && !(h.kind == QUOTE_TYPE && h.length != QUOTE_SIZE)
    && !(h.kind == TRADE_TYPE && h.length != TRADE_SIZE)
  }

  /** MessageParser::validateQuote. */
  predicate ValidQuote(q: QuoteMessage) {
    && q.bidQuantity != 0 && q.askQuantity != 0
    && 0 <= q.askPrice && 0 <= ToI32(q.bidPrice)
    && ToI32(q.bidPrice) <= q.askPrice
  }

  /** MessageParser::validateTrade. */
  predicate ValidTrade(t: TradeMessage) {
    t.quantity != 0 && 0 <= t.price
  }

  // ----- The Python order server -----

  datatype PythonOrder = PythonOrder(symbol: seq<u8>, timestamp: int, side: u8, quantity: int, price: int)

  /** struct.unpack of an unsigned little-endian field: each byte weighted by its position. */
  function Unpack(b: seq<u8>): nat {
    if b == [] then 0 else Unpack(b[..|b| - 1]) + b[|b| - 1] * Pow256(|b| - 1)
  }

  /** struct.unpack of a signed 32-bit field. */
  function UnpackSigned(b: seq<u8>): int
    requires |b| == 4
  {
    if 128 <= b[3] then Unpack(b) - 0x1_0000_0000 else Unpack(b)
  }

  /** decode('ascii', errors='ignore') */
  function AsciiOnly(b: seq<u8>): seq<u8> {
    if b == [] then [] else (if b[0] < 128 then [b[0]] else []) + AsciiOnly(b[1..])
  }

  /** rstrip of trailing zeros. */
  function StripZeros(b: seq<u8>): seq<u8> {
    if b != [] && b[|b| - 1] == 0 then StripZeros(b[..|b| - 1]) else b
  }

  /** parse_order of simple_order_server.py; None stands for the ValueError. */
  function PythonParse(b: seq<u8>): Option<PythonOrder> {
    if |b| != ORDER_SIZE then None
    else Some(PythonOrder(StripZeros(AsciiOnly(b[0..8])), Unpack(b[8..16]), b[16],
                          Unpack(b[17..21]), UnpackSigned(b[21..25])))
  }

  lemma {:induction false} FromBytesAppend(b: seq<u8>, x: u8)
    ensures FromBytes(b + [x]) == FromBytes(b) + x * Pow256(|b|)
  {
    if b == [] {
      assert [] + [x] == [x] && [x][1..] == [];
    } else {
      FromBytesAppend(b[1..], x);
      assert (b + [x])[1..] == b[1..] + [x];
      assert 256 * (x * Pow256(|b| - 1)) == x * (256 * Pow256(|b| - 1));
    }
  }

  /** Summing weighted bytes and shifting them in give the same number. */
  lemma {:induction false} UnpackIsFromBytes(b: seq<u8>)
    ensures Unpack(b) == FromBytes(b)
  {
    if b != [] {
      var front := b[..|b| - 1];
      UnpackIsFromBytes(front);
      FromBytesAppend(front, b[|b| - 1]);
      assert front + [b[|b| - 1]] == b;
    }
  }

  lemma SignedAgrees(b: seq<u8>)
    requires |b| == 4
    ensures UnpackSigned(b) == ToI32(GetU32(b))
  {
    UnpackIsFromBytes(b);
    FromBytesAppend(b[..3], b[3]);
    assert b[..3] + [b[3]] == b;
    FromBytesFits(b[..3]);
    assert Pow256(2) == 0x1_0000 && Pow256(3) == 0x100_0000;
  }

  /** Both decoders read the same numbers and the same side from any 25 bytes. */
  lemma DecodersAgree(b: seq<u8>)
    requires |b| == ORDER_SIZE
    ensures var p, o := PythonParse(b).value, ParseOrder(b).value;
      && p.timestamp == o.timestamp && p.side == o.side && p.quantity == o.quantity && p.price == o.price
      && p.symbol == StripZeros(AsciiOnly(o.symbol))
  {
    UnpackIsFromBytes(b[8..16]);
    UnpackIsFromBytes(b[17..21]);
    SignedAgrees(b[21..25]);
  }

  /** Where every field of a quote is, by an independent reading of the bytes. */
  lemma QuoteLayout(b: seq<u8>)
    requires |b| == QUOTE_SIZE
    ensures var q := ParseQuote(b).value;
      && q.symbol == b[0..8] && q.timestamp == Unpack(b[8..16])
      && q.bidQuantity == Unpack(b[16..20]) && q.bidPrice == Unpack(b[20..24])
      && q.askQuantity == Unpack(b[24..28]) && q.askPrice == UnpackSigned(b[28..32])
  {
    UnpackIsFromBytes(b[8..16]);
    UnpackIsFromBytes(b[16..20]);
    UnpackIsFromBytes(b[20..24]);
    UnpackIsFromBytes(b[24..28]);
    SignedAgrees(b[28..32]);
  }

  lemma TradeLayout(b: seq<u8>)
    requires |b| == TRADE_SIZE
    ensures var t := ParseTrade(b).value;
      && t.symbol == b[0..8] && t.timestamp == Unpack(b[8..16])
      && t.quantity == Unpack(b[16..20]) && t.price == UnpackSigned(b[20..24])
  {
    UnpackIsFromBytes(b[8..16]);
    UnpackIsFromBytes(b[16..20]);
    SignedAgrees(b[20..24]);
  }

  /** Four bytes read as zero only when they are, and have their sign bit on top. */
  lemma FourBytes(b: seq<u8>)
    requires |b| == 4
    ensures Unpack(b) < TWO32
    ensures Unpack(b) == 0 <==> b == [0, 0, 0, 0]
    ensures Unpack(b) < TWO31 <==> b[3] < 128
  {
    assert Unpack(b[..0]) == 0;
    assert b[..1][..0] == b[..0] && b[..2][..1] == b[..1] && b[..3][..2] == b[..2];
    assert Unpack(b[..1]) == b[0] * Pow256(0);
    assert Unpack(b[..2]) == Unpack(b[..1]) + b[1] * Pow256(1);
    assert Unpack(b[..3]) == Unpack(b[..2]) + b[2] * Pow256(2);
    assert Pow256(2) == 0x1_0000 && Pow256(3) == 0x100_0000;
  }

  /**
   Exactly which bytes pass validation as a trade: the quantity is not zero and the sign bit of the
   price is clear.
   */
  lemma ValidTradeIff(b: seq<u8>)
    requires |b| == TRADE_SIZE
    ensures ValidTrade(ParseTrade(b).value) <==> b[16..20] != [0, 0, 0, 0] && b[23] < 128
  {
    TradeLayout(b);
    FourBytes(b[16..20]);
    FourBytes(b[20..24]);
  }

  /**
   Exactly which bytes pass validation as a quote: neither quantity is zero, both sign bits are clear
   and the bid is not above the ask.
   */
  lemma ValidQuoteIff(b: seq<u8>)
    requires |b| == QUOTE_SIZE
    ensures ValidQuote(ParseQuote(b).value) <==>
      && b[16..20] != [0, 0, 0, 0] && b[24..28] != [0, 0, 0, 0]
      && b[23] < 128 && b[31] < 128
      && Unpack(b[20..24]) <= Unpack(b[28..32])
  {
    QuoteLayout(b);
    ValidFields(ParseQuote(b).value, b[16..20], b[20..24], b[24..28], b[28..32]);
  }

  lemma ValidFields(q: QuoteMessage, bidden: seq<u8>, bid: seq<u8>, asked: seq<u8>, ask: seq<u8>)
    requires |bidden| == |bid| == |asked| == |ask| == 4
    requires q.bidQuantity == Unpack(bidden) && q.bidPrice == Unpack(bid)
    requires q.askQuantity == Unpack(asked) && q.askPrice == UnpackSigned(ask)
    ensures ValidQuote(q) <==>
      && bidden != [0, 0, 0, 0] && asked != [0, 0, 0, 0]
      && bid[3] < 128 && ask[3] < 128 && Unpack(bid) <= Unpack(ask)
  {
    FourBytes(bidden);
    FourBytes(bid);
    FourBytes(asked);
    FourBytes(ask);
  }

  /** The only two headers that are valid. */
  lemma ValidHeaderIff(h: Header)
    ensures ValidHeader(h) <==> h == Header(32, 1) || h == Header(24, 2)
  {
  }

  predicate AllAscii(s: seq<u8>) {
    forall i :: 0 <= i < |s| ==> s[i] < 128
  }

  lemma {:induction false} AsciiKept(s: seq<u8>)
    ensures |AsciiOnly(s)| <= |s|
    ensures AllAscii(AsciiOnly(s))
    ensures AllAscii(s) ==> AsciiOnly(s) == s
  {
    if s != [] {
      AsciiKept(s[1..]);
      assert AllAscii(s) ==> AllAscii(s[1..]);
    }
  }

  lemma {:induction false} StripFacts(s: seq<u8>)
    ensures StripZeros(s) <= s
    ensures StripZeros(s) == [] || StripZeros(s)[|StripZeros(s)| - 1] != 0
  {
    if s != [] && s[|s| - 1] == 0 {
      StripFacts(s[..|s| - 1]);
    }
  }

  lemma {:induction false} StripPadding(s: seq<u8>, n: nat)
    requires s == [] || s[|s| - 1] != 0
    ensures StripZeros(s + seq(n, _ => 0)) == s
  {
    var padded := s + seq(n, _ => 0);
    if n == 0 {
      assert padded == s;
    } else {
      StripPadding(s, n - 1);
      assert padded[..|padded| - 1] == s + seq(n - 1, _ => 0);
    }
  }

  /**
   The server sees the configured symbol exactly when it has at most eight bytes, all of them ASCII,
   and does not end in a zero byte.
   */
  lemma SymbolArrivesIff(symbol: seq<u8>)
    ensures StripZeros(AsciiOnly(PadSymbol(symbol))) == symbol
            <==> |symbol| <= 8 && AllAscii(symbol) && (symbol == [] || symbol[|symbol| - 1] != 0)
  {
    var padded := PadSymbol(symbol);
    AsciiKept(padded);
    StripFacts(AsciiOnly(padded));
    if |symbol| <= 8 && AllAscii(symbol) && (symbol == [] || symbol[|symbol| - 1] != 0) {
      assert padded == symbol + seq(8 - |symbol|, _ => 0);
      StripPadding(symbol, 8 - |symbol|);
    }
  }
}
