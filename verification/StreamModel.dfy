/**
 What the receiving side of the market-data connection does to the byte stream, said on plain byte
 sequences: peeking at a frame, draining complete frames, resynchronising after a bad header, and
 one call of processIncomingData.
 */
module StreamModel {
  import opened MachineInts
  import opened Messages
  import opened WireCodec

  const BUFFER_SIZE: nat := 65536
  const MAX_SCAN: nat := 256
  const READ_SIZE: nat := 4096
  const READS_PER_CALL: nat := 4

  datatype Message = QuoteMsg(quote: QuoteMessage) | TradeMsg(trade: TradeMessage)

  function Encode(m: Message): (b: seq<u8>)
    ensures HEADER_SIZE < |b| <= HEADER_SIZE + QUOTE_SIZE
  {
    match m
    case QuoteMsg(q) => [QUOTE_SIZE, QUOTE_TYPE] + QuoteBytes(q)
    case TradeMsg(t) => [TRADE_SIZE, TRADE_TYPE] + TradeBytes(t)
  }

  function EncodeAll(ms: seq<Message>): seq<u8> {
    if ms == [] then [] else Encode(ms[0]) + EncodeAll(ms[1..])
  }

  predicate ValidMessage(m: Message) {
    match m
    case QuoteMsg(q) => ValidQuote(q)
    case TradeMsg(t) => ValidTrade(t)
  }

  /** The messages that pass validation, in order. */
  function Validated(ms: seq<Message>): seq<Message> {
    if ms == [] then [] else (if ValidMessage(ms[0]) then [ms[0]] else []) + Validated(ms[1..])
  }

  // ----- Frames -----

  datatype Peek = NeedMoreData | InvalidHeader | Complete(header: Header)

  function HeaderAt(b: seq<u8>, i: nat): Header
    requires i + 1 < |b|
  {
    Header(b[i], b[i + 1])
  }

  function PeekAt(b: seq<u8>): Peek {
    if |b| < HEADER_SIZE then NeedMoreData
    else if !ValidHeader(HeaderAt(b, 0)) then InvalidHeader
    else if |b| < HEADER_SIZE + b[0] then NeedMoreData
    else Complete(HeaderAt(b, 0))
  }

  /** Parses and validates the body of a frame with a valid header. */
  function Decode(h: Header, body: seq<u8>): Option<Message>
    requires ValidHeader(h) && |body| == h.length
  {
    var m := if h.kind == QUOTE_TYPE then QuoteMsg(ParseQuote(body).value) else TradeMsg(ParseTrade(body).value);
    if ValidMessage(m) then Some(m) else None
  }

  /** The least offset from i on at which a plausible header lies entirely before limit. */
  function FindHeader(b: seq<u8>, i: nat, limit: nat): (r: Option<nat>)
    requires limit <= |b|
    ensures r.Some? ==> i <= r.value && r.value + 1 < limit && ValidHeader(HeaderAt(b, r.value))
    ensures forall j :: i <= j < (if r.Some? then r.value else limit - 1) ==> !ValidHeader(HeaderAt(b, j))
    decreases limit - i
  {
    if limit <= i + 1 then None
    else if ValidHeader(HeaderAt(b, i)) then Some(i)
    else FindHeader(b, i + 1, limit)
  }

  function ScanLimit(b: seq<u8>): nat {
    if |b| < MAX_SCAN then |b| else MAX_SCAN
  }

  /** resync: the bytes it leaves in the buffer and the number it returns. */
  function Resync(b: seq<u8>): (seq<u8>, nat) {
    if |b| < HEADER_SIZE + 1 then (b, |b|)
    else
      match FindHeader(b, 1, ScanLimit(b))
      case Some(i) => (b, i)
      case None => (b[ScanLimit(b)..], ScanLimit(b))
  }

  datatype Drained = Drained(messages: seq<Message>, rest: seq<u8>)

  function Prepend(m: Option<Message>, d: Drained): Drained {
    match m
    case None => d
    case Some(x) => Drained([x] + d.messages, d.rest)
  }

  /** Takes complete frames off the front until there is none, or the header is invalid. */
  function Drain(b: seq<u8>): (d: Drained)
    ensures |d.rest| <= |b|
    decreases |b|
  {
    match PeekAt(b)
    case NeedMoreData => Drained([], b)
    case InvalidHeader => Drained([], Resync(b).0)
    case Complete(h) =>
      Prepend(Decode(h, b[HEADER_SIZE..HEADER_SIZE + h.length]), Drain(b[HEADER_SIZE + h.length..]))
  }

  lemma DrainComplete(b: seq<u8>, h: Header)
    requires PeekAt(b) == Complete(h)
    ensures var frame := HEADER_SIZE + h.length;
      frame <= |b| && Drain(b) == Prepend(Decode(h, b[HEADER_SIZE..frame]), Drain(b[frame..]))
  {
  }

  // ----- One call of processIncomingData -----

  type Chunk = d: seq<u8> | 0 < |d| <= READ_SIZE witness [0]

  /** What one receive reports. Interrupted and WouldBlock end the reading without an error. */
  datatype Read = Data(bytes: Chunk) | WouldBlock | Interrupted | Closed | Failed

  /** A receive beyond the end of the script would block. */
  function NextRead(script: seq<Read>): Read {
    if script == [] then WouldBlock else script[0]
  }

  function RestOf(script: seq<Read>): seq<Read> {
    if script == [] then [] else script[1..]
  }

  datatype Received = Received(buffer: seq<u8>, ok: bool, cleared: bool)

  /** At most n more reads into a buffer; a read that does not fit clears it. */
  function Receive(b: seq<u8>, script: seq<Read>, n: nat): Received
    decreases n
  {
    if n == 0 then Received(b, true, false)
    else
      match NextRead(script)
      case Closed => Received(b, false, false)
      case Failed => Received(b, false, false)
      case WouldBlock => Received(b, true, false)
      case Interrupted => Received(b, true, false)
      case Data(d) =>
        if |b| + |d| > BUFFER_SIZE then Received([], true, true)
        else if |d| < READ_SIZE then Received(b + d, true, false)
        else Receive(b + d, RestOf(script), n - 1)
  }

  /** The bytes those reads bring in. */
  function Arrived(script: seq<Read>, n: nat): seq<u8> {
    if n == 0 || !NextRead(script).Data? then []
    else
      var d := NextRead(script).bytes;
      if |d| < READ_SIZE then d else d + Arrived(RestOf(script), n - 1)
  }

  datatype CallResult = CallResult(buffer: seq<u8>, messages: seq<Message>, ok: bool, cleared: bool)

  function ProcessIncoming(b: seq<u8>, script: seq<Read>): CallResult {
    var r := Receive(b, script, READS_PER_CALL);
    if !r.ok then CallResult(r.buffer, [], false, r.cleared)
    else
      var d := Drain(r.buffer);
      CallResult(d.rest, d.messages, true, r.cleared)
  }
}

/** Whole sessions: any number of calls, any fragmentation of the stream into reads. */
module StreamRuns {
  import opened MachineInts
  import opened Messages
  import opened WireCodec
  import opened StreamModel

  /** Everything a sequence of calls has delivered, and whether any of them cleared the buffer. */
  datatype Session = Session(buffer: seq<u8>, delivered: seq<Message>, cleared: bool)

  function Next(s: Session, script: seq<Read>): Session {
    var r := ProcessIncoming(s.buffer, script);
    Session(r.buffer, s.delivered + r.messages, s.cleared || r.cleared)
  }

  function Run(start: seq<u8>, calls: seq<seq<Read>>): Session {
    if calls == [] then Session(start, [], false)
    else Next(Run(start, calls[..|calls| - 1]), calls[|calls| - 1])
  }

  /** The bytes that have arrived over all calls. */
  function ArrivedIn(calls: seq<seq<Read>>): seq<u8> {
    if calls == [] then []
    else ArrivedIn(calls[..|calls| - 1]) + Arrived(calls[|calls| - 1], READS_PER_CALL)
  }

  /** No read reports a closed or failed connection. */
  predicate Connected(calls: seq<seq<Read>>) {
    forall i :: 0 <= i < |calls| ==> Live(calls[i])
  }

  predicate Live(script: seq<Read>) {
    forall j :: 0 <= j < |script| ==> !script[j].Closed? && !script[j].Failed?
  }

  // ----- Framing under fragmentation -----

  lemma EncodedFrame(m: Message, more: seq<u8>)
    ensures PeekAt(Encode(m) + more) == Complete(HeaderAt(Encode(m), 0))
    ensures var h := HeaderAt(Encode(m), 0);
      && ValidHeader(h) && |Encode(m)| == HEADER_SIZE + h.length
      && (Encode(m) + more)[HEADER_SIZE + h.length..] == more
      && Decode(h, (Encode(m) + more)[HEADER_SIZE..HEADER_SIZE + h.length]) == if ValidMessage(m) then Some(m) else None
  {
    var b := Encode(m) + more;
    var h := HeaderAt(Encode(m), 0);
    LastField([h.length, h.kind], Encode(m)[HEADER_SIZE..]);
    assert b[HEADER_SIZE..HEADER_SIZE + h.length] == Encode(m)[HEADER_SIZE..];
    match m
    case QuoteMsg(q) => QuoteRoundTrip(q);
    case TradeMsg(t) => TradeRoundTrip(t);
  }

  lemma PartialFrame(m: Message, n: nat)
    requires n < |Encode(m)|
    ensures PeekAt(Encode(m)[..n]) == NeedMoreData
  {
  }

  lemma Associate<T>(a: seq<T>, b: seq<T>, c: seq<T>)
    ensures a + b + c == a + (b + c)
  {
  }

  lemma {:induction false} ValidatedSplit(a: seq<Message>, b: seq<Message>)
    ensures Validated(a + b) == Validated(a) + Validated(b)
  {
    if a == [] {
      assert a + b == b;
    } else {
      ValidatedSplit(a[1..], b);
      assert (a + b)[0] == a[0] && (a + b)[1..] == a[1..] + b;
      Associate(if ValidMessage(a[0]) then [a[0]] else [], Validated(a[1..]), Validated(b));
    }
  }

  /** bytes ends inside the encoding of ms, and rest is what is still to come. */
  ghost predicate Cut(bytes: seq<u8>, rest: seq<u8>, ms: seq<Message>) {
    bytes + rest == EncodeAll(ms)
  }

  /** What is left after a drain is a proper prefix of the next message. */
  ghost predicate Tail(bytes: seq<u8>, ms: seq<Message>) {
    if ms == [] then bytes == [] else |bytes| < |Encode(ms[0])|
  }

  lemma CutFirst(bytes: seq<u8>, rest: seq<u8>, ms: seq<Message>)
    requires Cut(bytes, rest, ms) && ms != []
    ensures var e := Encode(ms[0]);
      && (|bytes| < |e| ==> bytes == e[..|bytes|])
      && (|e| <= |bytes| ==> bytes == e + bytes[|e|..] && Cut(bytes[|e|..], rest, ms[1..]))
  {
    var e := Encode(ms[0]);
    var all := bytes + rest;
    assert bytes == all[..|bytes|];
    assert e == all[..|e|] && EncodeAll(ms[1..]) == all[|e|..];
  }

  /** Draining any cut of an encoded stream delivers exactly the messages that are complete in it. */
  lemma {:induction false} DrainCut(bytes: seq<u8>, rest: seq<u8>, ms: seq<Message>) returns (k: nat)
    requires Cut(bytes, rest, ms) == true
    ensures k <= |ms|
    ensures Drain(bytes).messages == Validated(ms[..k])
    ensures Cut(Drain(bytes).rest, rest, ms[k..]) == true && Tail(Drain(bytes).rest, ms[k..]) == true
    decreases |ms|
  {
    if ms == [] {
      k := 0;
      assert bytes == [] && ms[..0] == [] && ms[0..] == [];
    } else {
      var e := Encode(ms[0]);
      CutFirst(bytes, rest, ms);
      if |bytes| < |e| {
        k := 0;
        PartialFrame(ms[0], |bytes|);
        assert ms[..0] == [] && ms[0..] == ms;
      } else {
        var n := DrainCut(bytes[|e|..], rest, ms[1..]);
        k := n + 1;
        DrainFrame(ms[0], bytes[|e|..]);
        Shift(ms, n);
      }
    }
  }

  /** Draining a stream that starts with a whole frame delivers that frame's message first. */
  lemma DrainFrame(m: Message, more: seq<u8>)
    ensures var d := Drain(Encode(m) + more);
      && d.messages == (if ValidMessage(m) then [m] else []) + Drain(more).messages
      && d.rest == Drain(more).rest
  {
    EncodedFrame(m, more);
    DrainComplete(Encode(m) + more, HeaderAt(Encode(m), 0));
  }

  lemma Shift(ms: seq<Message>, n: nat)
    requires n < |ms|
    ensures Validated(ms[..n + 1]) == (if ValidMessage(ms[0]) then [ms[0]] else []) + Validated(ms[1..][..n])
    ensures ms[n + 1..] == ms[1..][n..]
  {
    assert ms[..n + 1][0] == ms[0] && ms[..n + 1][1..] == ms[1..][..n];
  }

  lemma TailIsShort(bytes: seq<u8>, ms: seq<Message>)
    requires Tail(bytes, ms)
    ensures |bytes| < HEADER_SIZE + QUOTE_SIZE
  {
  }

  /** A call that starts with room for four full reads never clears the buffer. */
  lemma {:induction false} ReceiveFits(b: seq<u8>, script: seq<Read>, n: nat)
    requires |b| + n * READ_SIZE <= BUFFER_SIZE
    ensures Receive(b, script, n).buffer == b + Arrived(script, n) && !Receive(b, script, n).cleared
    ensures Live(script) ==> Receive(b, script, n).ok
    ensures !Receive(b, script, n).ok && Arrived(script, n) != [] ==> READ_SIZE <= |Arrived(script, n)|
    decreases n
  {
    if n > 0 && NextRead(script).Data? {
      var d := NextRead(script).bytes;
      if |d| == READ_SIZE {
        ReceiveFits(b + d, RestOf(script), n - 1);
        assert b + (d + Arrived(RestOf(script), n - 1)) == b + d + Arrived(RestOf(script), n - 1);
      }
    } else {
      assert b + [] == b;
    }
  }

  lemma ReceiveLive(b: seq<u8>, script: seq<Read>)
    requires |b| + READS_PER_CALL * READ_SIZE <= BUFFER_SIZE && Live(script)
    ensures Receive(b, script, READS_PER_CALL) == Received(b + Arrived(script, READS_PER_CALL), true, false)
  {
    ReceiveFits(b, script, READS_PER_CALL);
  }

  /**
   For every stream of serialized messages, however it is cut into reads and calls: what has been
   delivered is exactly the validated messages among those that have arrived whole, once each and
   in order; what stays behind is a proper part of the next message, at most 33 bytes, and the buffer
   is never cleared.
   */
  lemma StreamIsReassembled(calls: seq<seq<Read>>, future: seq<u8>, ms: seq<Message>) returns (k: nat)
    requires Connected(calls) && ArrivedIn(calls) + future == EncodeAll(ms)
    ensures k <= |ms|
    ensures Run([], calls).delivered == Validated(ms[..k])
    ensures Run([], calls).buffer + future == EncodeAll(ms[k..])
    ensures k < |ms| ==> |Run([], calls).buffer| < |Encode(ms[k])|
    ensures |Run([], calls).buffer| <= 33 && !Run([], calls).cleared
    ensures future == [] ==> k == |ms| && Run([], calls).buffer == []
  {
    k := Reassemble(calls, future, ms);
    assert Progress(Run([], calls), future, ms, k);
    var b := Run([], calls).buffer;
    TailIsShort(b, ms[k..]);
    assert future == [] ==> b + future == b;
    assert k < |ms| ==> |Encode(ms[k..][0])| <= |EncodeAll(ms[k..])|;
  }

  /** The first k messages have been dealt with and the buffer holds a tail of the stream. */
  ghost predicate Progress(s: Session, future: seq<u8>, ms: seq<Message>, k: nat) {
    && k <= |ms|
    && s.delivered == Validated(ms[..k])
    && Cut(s.buffer, future, ms[k..]) && Tail(s.buffer, ms[k..])
    && !s.cleared
  }

  lemma StartProgresses(future: seq<u8>, ms: seq<Message>)
    requires [] + future == EncodeAll(ms)
    ensures Progress(Session([], [], false), future, ms, 0)
  {
    assert ms[..0] == [] && ms[0..] == ms;
  }

  /** Any stretch of calls makes progress; `== true` keeps the predicate one fact for the verifier. */
  lemma {:induction false} Reassemble(calls: seq<seq<Read>>, future: seq<u8>, ms: seq<Message>) returns (k: nat)
    requires Connected(calls) && ArrivedIn(calls) + future == EncodeAll(ms)
    ensures Progress(Run([], calls), future, ms, k) == true
    decreases |calls|
  {
    if calls == [] {
      k := 0;
      StartProgresses(future, ms);
    } else {
      var before, script := calls[..|calls| - 1], calls[|calls| - 1];
      assert Live(calls[|calls| - 1]);
      Associate(ArrivedIn(before), Arrived(script, READS_PER_CALL), future);
      var j := Reassemble(before, Arrived(script, READS_PER_CALL) + future, ms);
      k := CallProgresses(Run([], before), script, future, ms, j);
    }
  }

  /** One call makes progress. */
  lemma CallProgresses(s: Session, script: seq<Read>, future: seq<u8>, ms: seq<Message>, j: nat) returns (k: nat)
    requires Progress(s, Arrived(script, READS_PER_CALL) + future, ms, j) && Live(script) == true
    ensures Progress(Next(s, script), future, ms, k) == true
  {
    var all := s.buffer + Arrived(script, READS_PER_CALL);
    TailIsShort(s.buffer, ms[j..]);
    CutShift(s.buffer, Arrived(script, READS_PER_CALL), future, ms[j..]);
    var n := DrainCut(all, future, ms[j..]);
    k := j + n;
    AdvanceBy(s, Drain(all), future, ms, j, n);
    NextLive(s, script, Drain(all));
  }

  lemma NextLive(s: Session, script: seq<Read>, d: Drained)
    requires |s.buffer| + READS_PER_CALL * READ_SIZE <= BUFFER_SIZE && Live(script) == true && !s.cleared
    requires d == Drain(s.buffer + Arrived(script, READS_PER_CALL))
    ensures Next(s, script) == Session(d.rest, s.delivered + d.messages, false)
  {
    ProcessLive(s.buffer, script);
  }

  lemma AdvanceBy(s: Session, d: Drained, future: seq<u8>, ms: seq<Message>, j: nat, n: nat)
    requires j <= |ms| && n <= |ms[j..]|
    requires s.delivered == Validated(ms[..j]) && d.messages == Validated(ms[j..][..n])
    requires Cut(d.rest, future, ms[j..][n..]) == true && Tail(d.rest, ms[j..][n..]) == true
    ensures Progress(Session(d.rest, s.delivered + d.messages, false), future, ms, j + n) == true
  {
    ValidatedSplit(ms[..j], ms[j..][..n]);
    Regroup(ms, j, n);
  }

  lemma Regroup(ms: seq<Message>, j: nat, n: nat)
    requires j <= |ms| && n <= |ms[j..]|
    ensures ms[..j + n] == ms[..j] + ms[j..][..n] && ms[j + n..] == ms[j..][n..]
  {
  }

  /** A call on a live connection with room drains what it held and what has arrived. */
  lemma ProcessLive(b: seq<u8>, script: seq<Read>)
    requires |b| + READS_PER_CALL * READ_SIZE <= BUFFER_SIZE && Live(script)
    ensures var d := Drain(b + Arrived(script, READS_PER_CALL));
      ProcessIncoming(b, script) == CallResult(d.rest, d.messages, true, false)
  {
    ReceiveLive(b, script);
  }

  lemma CutShift(b: seq<u8>, arrived: seq<u8>, future: seq<u8>, ms: seq<Message>)
    requires Cut(b, arrived + future, ms)
    ensures Cut(b + arrived, future, ms) == true
  {
    Associate(b, arrived, future);
  }

  // ----- Single frames and single calls -----

  /** A frame of 24 body bytes delivers its trade exactly when the bytes pass validation. */
  lemma TradeFrame(b: seq<u8>)
    requires |b| == TRADE_SIZE
    ensures Drain([24, 2] + b) ==
      Drained(if b[16..20] != [0, 0, 0, 0] && b[23] < 128 then [TradeMsg(ParseTrade(b).value)] else [], [])
  {
    ValidTradeIff(b);
    BareFrame(Header(24, 2), b);
  }

  /** A frame of 32 body bytes delivers its quote exactly when the bytes pass validation. */
  lemma QuoteFrame(b: seq<u8>)
    requires |b| == QUOTE_SIZE
    ensures var valid :=
        && b[16..20] != [0, 0, 0, 0] && b[24..28] != [0, 0, 0, 0]
        && b[23] < 128 && b[31] < 128 && Unpack(b[20..24]) <= Unpack(b[28..32]);
      Drain([32, 1] + b) == Drained(if valid then [QuoteMsg(ParseQuote(b).value)] else [], [])
  {
    ValidQuoteIff(b);
    BareFrame(Header(32, 1), b);
  }

  lemma BareFrame(h: Header, body: seq<u8>)
    requires ValidHeader(h) && |body| == h.length
    ensures var d := Drain([h.length, h.kind] + body);
      d.rest == [] && d.messages == match Decode(h, body) case None => [] case Some(m) => [m]
  {
    var b := [h.length, h.kind] + body;
    assert HeaderAt(b, 0) == h && b[HEADER_SIZE..HEADER_SIZE + h.length] == body;
    DrainComplete(b, h);
    assert b[HEADER_SIZE + h.length..] == [];
    assert Drain(b[HEADER_SIZE + h.length..]) == Drained([], []);
  }

  /** Any other two bytes at the front are an invalid header, whatever follows. */
  lemma InvalidHeaderIff(b: seq<u8>)
    ensures PeekAt(b) == InvalidHeader <==> |b| >= 2 && b[..2] != [32, 1] && b[..2] != [24, 2]
  {
    if |b| >= 2 {
      ValidHeaderIff(HeaderAt(b, 0));
      assert b[..2] == [b[0], b[1]];
    }
  }

  /** An offset that resync may report. */
  predicate Plausible(b: seq<u8>, i: nat) {
    && 1 <= i && i + 1 < |b| && i < 255
    && (b[i..i + 2] == [32, 1] || b[i..i + 2] == [24, 2])
  }

  /**
   What resync returns and leaves: with fewer than three bytes, their number and everything; else the
   least plausible offset within the first 256 bytes and everything; else the number of bytes scanned,
   which are dropped.
   */
  lemma ResyncTells(b: seq<u8>)
    ensures var (left, n) := Resync(b);
      if |b| < 3 then left == b && n == |b|
      else if exists i: nat :: Plausible(b, i) then
        left == b && Plausible(b, n) && forall i: nat :: Plausible(b, i) ==> n <= i
      else n == (if |b| < 256 then |b| else 256) && left == b[n..]
  {
    if |b| >= 3 {
      forall i: nat | 1 <= i && i + 1 < ScanLimit(b)
        ensures Plausible(b, i) <==> ValidHeader(HeaderAt(b, i))
      {
        ValidHeaderIff(HeaderAt(b, i));
        assert b[i..i + 2] == [b[i], b[i + 1]];
      }
    }
  }

  /** The bytes of the first m reads. */
  function Joined(script: seq<Read>, m: nat): seq<u8>
    requires m <= |script| && forall i :: 0 <= i < m ==> script[i].Data?
  {
    if m == 0 then [] else Joined(script, m - 1) + script[m - 1].bytes
  }

  lemma {:induction false} JoinedFirst(script: seq<Read>, m: nat)
    requires 0 < m <= |script| && forall i :: 0 <= i < m ==> script[i].Data?
    ensures forall i :: 0 <= i < m - 1 ==> script[1..][i] == script[i + 1]
    ensures Joined(script, m) == script[0].bytes + Joined(script[1..], m - 1)
  {
    if m > 1 {
      JoinedFirst(script, m - 1);
      Associate(script[0].bytes, Joined(script[1..], m - 2), script[m - 1].bytes);
    } else {
      assert Joined(script, 0) == [] && [] + script[0].bytes == script[0].bytes + [];
    }
  }

  /** Whether the answer after m reads ends the call with a failure. */
  predicate EndsInFailure(script: seq<Read>, m: nat, n: nat)
    requires m <= |script|
  {
    m < n && m < |script| && (script[m].Closed? || script[m].Failed?)
  }

  lemma {:induction false} ReceiveUses(b: seq<u8>, script: seq<Read>, n: nat) returns (m: nat)
    requires n <= 4 && |b| <= 65536
    ensures m <= n && m <= |script| && forall i :: 0 <= i < m ==> script[i].Data?
    ensures forall i :: 0 <= i < m - 1 ==> |script[i].bytes| == 4096
    ensures var all, short := b + Joined(script, m), 0 < m && |script[m - 1].bytes| < 4096;
      && |all| <= 65536
      && if short || m == n || m == |script| || !script[m].Data? then
           Receive(b, script, n) == Received(all, short || !EndsInFailure(script, m, n), false)
         else |all| + |script[m].bytes| > 65536 && Receive(b, script, n) == Received([], true, true)
    decreases n
  {
    if n == 0 || !NextRead(script).Data? || |b| + |script[0].bytes| > BUFFER_SIZE {
      m := 0;
      assert b + [] == b;
    } else {
      var d := script[0].bytes;
      if |d| < READ_SIZE {
        m := 1;
        assert Joined(script, 0) == [] && Joined(script, 1) == [] + d;
        assert b + ([] + d) == b + d;
      } else {
        var k := ReceiveUses(b + d, script[1..], n - 1);
        m := k + 1;
        assert forall i :: 0 <= i < m ==> script[i] == if i == 0 then script[0] else script[1..][i - 1];
        JoinedFirst(script, m);
        Associate(b, d, Joined(script[1..], k));
      }
    }
  }

  /**
   One call takes the leading reads that fit, all full but for the last and at most four. If the next
   one does not fit the buffer is cleared and the call succeeds without delivering anything; otherwise
   it fails, and then drains nothing, exactly when the answer after them is a closed or failed
   connection and is still asked for.
   */
  lemma CallIsTold(b: seq<u8>, script: seq<Read>) returns (m: nat)
    requires |b| <= 65536
    ensures m <= 4 && m <= |script| && forall i :: 0 <= i < m ==> script[i].Data?
    ensures forall i :: 0 <= i < m - 1 ==> |script[i].bytes| == 4096
    ensures var r, all := ProcessIncoming(b, script), b + Joined(script, m);
      var short := 0 < m && |script[m - 1].bytes| < 4096;
      && |all| <= 65536
      && if short || m == 4 || m == |script| || !script[m].Data? then
           && !r.cleared
           && (r.ok <==> short || !EndsInFailure(script, m, 4))
           && (r.ok ==> r.messages == Drain(all).messages && r.buffer == Drain(all).rest)
           && (!r.ok ==> r.messages == [] && r.buffer == all)
         else |all| + |script[m].bytes| > 65536 && r == CallResult([], [], true, true)
  {
    m := ReceiveUses(b, script, READS_PER_CALL);
    assert Drain([]) == Drained([], []);
  }

  // ----- A connection that closes -----

  /** A tail of the stream holds no whole message. */
  lemma TailDrainsNothing(b: seq<u8>, rest: seq<u8>, ms: seq<Message>)
    requires Cut(b, rest, ms) && Tail(b, ms)
    ensures Drain(b) == Drained([], b)
  {
    if ms != [] {
      CutFirst(b, rest, ms);
      PartialFrame(ms[0], |b|);
    }
  }

  /** If no message has been taken off, no byte has. */
  lemma NothingTaken(bytes: seq<u8>, left: seq<u8>, rest: seq<u8>, ms: seq<Message>, n: nat)
    requires n <= |ms| && Cut(bytes, rest, ms) && Cut(left, rest, ms[n..])
    ensures n == 0 ==> |left| == |bytes|
  {
    assert n == 0 ==> ms[n..] == ms;
    assert |left + rest| == |left| + |rest| && |bytes + rest| == |bytes| + |rest|;
  }

  /**
   When the connection closes or fails, the call that sees it returns before draining. The first k
   messages have been delivered; n whole messages stay in the buffer, undelivered, and there are any
   if and only if that same call had read data before it saw the end.
   */
  lemma CloseStrandsIff(calls: seq<seq<Read>>, last: seq<Read>, future: seq<u8>, ms: seq<Message>)
      returns (k: nat, n: nat)
    requires Connected(calls) && !Receive(Run([], calls).buffer, last, READS_PER_CALL).ok
    requires ArrivedIn(calls) + Arrived(last, READS_PER_CALL) + future == EncodeAll(ms)
    ensures k + n <= |ms|
    ensures Next(Run([], calls), last).delivered == Validated(ms[..k])
    ensures var left := Next(Run([], calls), last).buffer;
      && Drain(left).messages == Validated(ms[k..][..n])
      && Cut(Drain(left).rest, future, ms[k..][n..]) && Tail(Drain(left).rest, ms[k..][n..])
    ensures n > 0 <==> Arrived(last, READS_PER_CALL) != []
  {
    var arrived := Arrived(last, READS_PER_CALL);
    Associate(ArrivedIn(calls), arrived, future);
    k := Reassemble(calls, arrived + future, ms);
    var s := Run([], calls);
    assert Progress(s, arrived + future, ms, k);
    TailIsShort(s.buffer, ms[k..]);
    ReceiveFits(s.buffer, last, READS_PER_CALL);
    assert s.delivered + [] == s.delivered;
    Associate(s.buffer, arrived, future);
    if arrived == [] {
      n := 0;
      assert s.buffer + [] == s.buffer && arrived + future == future;
      TailDrainsNothing(s.buffer, future, ms[k..]);
      assert ms[k..][..0] == [] && ms[k..][0..] == ms[k..];
    } else {
      n := DrainCut(s.buffer + arrived, future, ms[k..]);
      NothingTaken(s.buffer + arrived, Drain(s.buffer + arrived).rest, future, ms[k..], n);
      TailIsShort(Drain(s.buffer + arrived).rest, ms[k..][n..]);
    }
  }

  function Copies(q: QuoteMessage, n: nat): seq<Message> {
    seq(n, _ => QuoteMsg(q))
  }

  lemma {:induction false} EncodedCopies(q: QuoteMessage, n: nat)
    ensures |EncodeAll(Copies(q, n))| == (HEADER_SIZE + QUOTE_SIZE) * n
  {
    if n > 0 {
      EncodedCopies(q, n - 1);
      assert Copies(q, n)[1..] == Copies(q, n - 1);
    }
  }

  /** One full read, and the connection closes. */
  function ReadAndClose(bytes: seq<u8>): seq<Read>
    requires |bytes| == READ_SIZE
  {
    [Data(bytes), Closed]
  }

  lemma ReadAndCloseArrives(bytes: seq<u8>)
    requires |bytes| == READ_SIZE
    ensures !Receive([], ReadAndClose(bytes), READS_PER_CALL).ok
    ensures Arrived(ReadAndClose(bytes), READS_PER_CALL) == bytes
  {
    var script := ReadAndClose(bytes);
    assert script[1..] == [Closed];
    assert Arrived([Closed], READS_PER_CALL - 1) == [];
  }

  lemma {:induction false} ValidCopies(q: QuoteMessage, n: nat)
    requires ValidQuote(q)
    ensures Validated(Copies(q, n)) == Copies(q, n)
  {
    if n > 0 {
      ValidCopies(q, n - 1);
      assert Copies(q, n)[1..] == Copies(q, n - 1);
      assert [QuoteMsg(q)] + Copies(q, n - 1) == Copies(q, n);
    }
  }

  lemma CopiesSuffix(q: QuoteMessage, n: nat, k: nat)
    requires k <= n
    ensures Copies(q, n)[..k] == Copies(q, k) && Copies(q, n)[k..] == Copies(q, n - k)
  {
  }

  /**
   Valid messages are stranded: of 121 copies of any valid quote one read takes 120 whole ones and part
   of the last before the connection closes, and none of them is delivered.
   */
  lemma CloseStrandsQuotes(q: QuoteMessage)
    requires ValidQuote(q)
    ensures var bytes := EncodeAll(Copies(q, 121));
      && READ_SIZE <= |bytes|
      && var s := Next(Run([], []), ReadAndClose(bytes[..READ_SIZE]));
         && s.delivered == [] && s.buffer == bytes[..READ_SIZE]
         && Drain(s.buffer).messages == Copies(q, 120)
  {
    var ms := Copies(q, 121);
    EncodedCopies(q, 121);
    var now, future := EncodeAll(ms)[..READ_SIZE], EncodeAll(ms)[READ_SIZE..];
    var last := ReadAndClose(now);
    ReadAndCloseArrives(now);
    ReceiveFits([], last, READS_PER_CALL);
    assert [] + now == now && now + future == EncodeAll(ms);
    var n := DrainCut(now, future, ms);
    CopiesSuffix(q, 121, n);
    ValidCopies(q, n);
    EncodedCopies(q, 121 - n);
    assert |Drain(now).rest + future| == (HEADER_SIZE + QUOTE_SIZE) * (121 - n);
    TailIsShort(Drain(now).rest, ms[n..]);
  }

  // ----- Bad headers -----

  /** An invalid header at the front and a plausible one within reach of the scan. */
  predicate Stuck(b: seq<u8>) {
    && HEADER_SIZE < |b|
    && !ValidHeader(HeaderAt(b, 0))
    && FindHeader(b, 1, ScanLimit(b)).Some?
  }

  /** After an invalid header the buffer shrinks exactly when the scan finds no other header. */
  lemma ResyncMovesIff(b: seq<u8>)
    requires PeekAt(b) == InvalidHeader
    ensures Drain(b).messages == []
    ensures Drain(b).rest != b <==> HEADER_SIZE < |b| && !Stuck(b)
    ensures Drain(b).rest == b || Drain(b).rest == b[ScanLimit(b)..]
  {
  }

  /**
   The scan looks for headers that lie entirely before its limit but drops every byte before it. Seen
   with what arrives later, the dropped bytes hold the start of a header if and only if the last of
   them is one.
   */
  lemma ResyncDropsHeaderIff(b: seq<u8>, more: seq<u8>)
    requires PeekAt(b) == InvalidHeader && HEADER_SIZE < |b| && !Stuck(b)
    ensures Drain(b).rest == b[ScanLimit(b)..]
    ensures var all, last := b + more, ScanLimit(b) - 1;
      (exists j: nat :: j <= last && j + 1 < |all| && ValidHeader(HeaderAt(all, j)))
      <==> last + 1 < |all| && ValidHeader(HeaderAt(all, last))
  {
    var all, last := b + more, ScanLimit(b) - 1;
    forall j: nat | j < last
      ensures !ValidHeader(HeaderAt(all, j))
    {
      assert HeaderAt(all, j) == HeaderAt(b, j);
    }
  }

  /**
   Two stray bytes and the first byte of a message: that byte is dropped with them, and the message,
   whose other bytes arrive next, is never delivered.
   */
  lemma ResyncLosesMessage(x: u8, y: u8, m: Message, more: seq<u8>)
    requires !ValidHeader(Header(x, y))
    ensures Drain([x, y] + Encode(m)[..1]) == Drained([], [])
    ensures Drain(Encode(m)[1..] + more).messages == []
  {
    var b := [x, y] + Encode(m)[..1];
    assert FindHeader(b, 1, ScanLimit(b)) == None;
    assert b[ScanLimit(b)..] == [];
  }

  lemma {:induction false} FindHeaderGrows(b: seq<u8>, more: seq<u8>, i: nat, limit: nat, limit': nat)
    requires limit <= |b| && limit <= limit' <= |b + more|
    requires FindHeader(b, i, limit).Some?
    ensures FindHeader(b + more, i, limit') == FindHeader(b, i, limit)
    decreases limit - i
  {
    assert HeaderAt(b + more, i) == HeaderAt(b, i);
    if !ValidHeader(HeaderAt(b, i)) {
      FindHeaderGrows(b, more, i + 1, limit, limit');
    }
  }

  /** A stuck buffer stays stuck whatever arrives, and draining it does nothing. */
  lemma StuckStays(b: seq<u8>, more: seq<u8>)
    requires Stuck(b)
    ensures Stuck(b + more) && Drain(b + more) == Drained([], b + more)
  {
    assert HeaderAt(b + more, 0) == HeaderAt(b, 0);
    FindHeaderGrows(b, more, 1, ScanLimit(b), ScanLimit(b + more));
  }

  lemma {:induction false} ReceiveKeepsOrClears(b: seq<u8>, script: seq<Read>, n: nat)
    ensures var r := Receive(b, script, n);
      if r.cleared then r.buffer == [] else r.buffer == b + Arrived(script, n)
    decreases n
  {
    if n > 0 && NextRead(script).Data? {
      var d := NextRead(script).bytes;
      if |b| + |d| <= BUFFER_SIZE && |d| == READ_SIZE {
        ReceiveKeepsOrClears(b + d, RestOf(script), n - 1);
        assert b + (d + Arrived(RestOf(script), n - 1)) == b + d + Arrived(RestOf(script), n - 1);
      }
    } else {
      assert b + [] == b;
    }
  }

  lemma StuckCall(s: Session, script: seq<Read>)
    requires Stuck(s.buffer) && !Next(s, script).cleared
    ensures Next(s, script) == Session(s.buffer + Arrived(script, READS_PER_CALL), s.delivered, false)
    ensures Stuck(s.buffer + Arrived(script, READS_PER_CALL))
  {
    ReceiveKeepsOrClears(s.buffer, script, READS_PER_CALL);
    StuckStays(s.buffer, Arrived(script, READS_PER_CALL));
    assert s.delivered + [] == s.delivered;
  }

  lemma ClearedPersists(s: Session, script: seq<Read>)
    ensures s.cleared ==> Next(s, script).cleared
  {
  }

  lemma StuckStep(start: seq<u8>, before: seq<u8>, s: Session, script: seq<Read>)
    requires s == Session(start + before, [], false) && Stuck(start + before) && !Next(s, script).cleared
    ensures var after := before + Arrived(script, READS_PER_CALL);
      Next(s, script) == Session(start + after, [], false) && Stuck(start + after)
  {
    StuckCall(s, script);
    assert start + before + Arrived(script, READS_PER_CALL) == start + (before + Arrived(script, READS_PER_CALL));
  }

  /**
   Once stuck, the client delivers nothing and only accumulates bytes, over any number of calls and
   any reads, until a read no longer fits and the buffer is cleared.
   */
  lemma {:induction false} StuckUntilCleared(start: seq<u8>, calls: seq<seq<Read>>)
    requires Stuck(start) && !Run(start, calls).cleared
    ensures Run(start, calls) == Session(start + ArrivedIn(calls), [], false)
    ensures Stuck(start + ArrivedIn(calls))
    decreases |calls|
  {
    if calls == [] {
      assert start + [] == start;
    } else {
      var before, script := calls[..|calls| - 1], calls[|calls| - 1];
      ClearedPersists(Run(start, before), script);
      StuckUntilCleared(start, before);
      StuckStep(start, ArrivedIn(before), Run(start, before), script);
    }
  }

  /** One stray byte in front of a message is enough: the message is in the buffer and never comes out. */
  lemma StrayByteBlocks(x: u8, m: Message, more: seq<u8>)
    ensures Stuck([x] + Encode(m) + more)
  {
  }
}
