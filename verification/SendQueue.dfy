/**
 What src/order_client.cpp does with orders and bytes: an order is handed to the socket at once, what
 the socket does not take waits in a queue, and processSendQueue hands the queue over in order. The
 socket's answers are inputs; wire is every byte it has taken.
 */
module SendQueue {
  import opened MachineInts
  import opened Messages
  import opened WireCodec

  const QUEUE_CAPACITY: nat := 1000

  datatype ConnectionState = DISCONNECTED | CONNECTING | CONNECTED | ERROR_STATE

  /** What one send reports. A socket takes at most the bytes it is offered. */
  datatype SendResult = Sent(n: nat) | WouldBlock | Interrupted | Reset | OtherError

  datatype Client = Client(state: ConnectionState, pending: seq<seq<u8>>, wire: seq<u8>)

  /** The guards of sendOrder. */
  predicate Sendable(o: OrderMessage) {
    (o.side == BUY || o.side == SELL) && o.quantity != 0 && 0 < o.price
  }

  function Enqueue(c: Client, bytes: seq<u8>): (Client, bool) {
    if |c.pending| == QUEUE_CAPACITY then (c, false) else (c.(pending := c.pending + [bytes]), true)
  }

  function SendOrder(c: Client, o: OrderMessage, result: SendResult): (Client, bool) {
    if c.state != CONNECTED || !Sendable(o) then (c, false)
    else
      var bytes := OrderBytes(o);
      match result
      case Sent(n) =>
        var k := Min(n, |bytes|);
        var taken := c.(wire := c.wire + bytes[..k]);
        if k == |bytes| then (taken, true) else Enqueue(taken, bytes[k..])
      case WouldBlock => Enqueue(c, bytes)
      case Interrupted => Enqueue(c.(state := ERROR_STATE), bytes)
      case Reset => (c.(state := DISCONNECTED), false)
      case OtherError => (c.(state := ERROR_STATE), false)
  }

  /** A send beyond the end of the script would block. */
  function NextResult(script: seq<SendResult>): SendResult {
    if script == [] then WouldBlock else script[0]
  }

  /** The front of the queue after the socket has taken its first k bytes. */
  function Advance(pending: seq<seq<u8>>, k: nat): seq<seq<u8>>
    requires pending != [] && k <= |pending[0]|
  {
    if k == |pending[0]| then pending[1..] else [pending[0][k..]] + pending[1..]
  }

  /** processSendQueue. */
  function Pump(c: Client, script: seq<SendResult>): Client
    decreases |script|
  {
    if c.pending == [] || c.state != CONNECTED then c
    else
      match NextResult(script)
      case Sent(n) =>
        var k := Min(n, |c.pending[0]|);
        Pump(if k == 0 then c else Client(c.state, Advance(c.pending, k), c.wire + c.pending[0][..k]), script[1..])
      case WouldBlock => c
      case Interrupted => c.(state := ERROR_STATE)
      case Reset => c.(state := DISCONNECTED, pending := [])
      case OtherError => c.(state := ERROR_STATE, pending := [])
  }

  // ----- Conservation -----

  function Flat(pending: seq<seq<u8>>): seq<u8> {
    if pending == [] then [] else pending[0] + Flat(pending[1..])
  }

  /** Everything taken and everything still waiting, in order. */
  function Stream(c: Client): seq<u8> {
    c.wire + Flat(c.pending)
  }

  predicate NonEmptyRecords(pending: seq<seq<u8>>) {
    forall i :: 0 <= i < |pending| ==> 0 < |pending[i]| <= ORDER_SIZE
  }

  lemma {:induction false} FlatAppend(pending: seq<seq<u8>>, bytes: seq<u8>)
    ensures Flat(pending + [bytes]) == Flat(pending) + bytes
  {
    if pending == [] {
      assert pending + [bytes] == [bytes] && [bytes][1..] == [];
      assert Flat([bytes]) == bytes + Flat([bytes][1..]);
    } else {
      FlatAppend(pending[1..], bytes);
      assert (pending + [bytes])[1..] == pending[1..] + [bytes];
      assert pending[0] + (Flat(pending[1..]) + bytes) == pending[0] + Flat(pending[1..]) + bytes;
    }
  }

  lemma AdvanceFlat(pending: seq<seq<u8>>, k: nat)
    requires pending != [] && k <= |pending[0]|
    ensures Flat(pending) == pending[0][..k] + Flat(Advance(pending, k))
  {
    var first, rest := pending[0], pending[1..];
    assert first == first[..k] + first[k..];
    if k < |first| {
      assert Advance(pending, k)[1..] == rest;
      assert first[..k] + (first[k..] + Flat(rest)) == first[..k] + first[k..] + Flat(rest);
    } else {
      assert first[..k] == first;
    }
  }

  lemma TakenKeepsStream(c: Client, k: nat)
    requires c.pending != [] && k <= |c.pending[0]|
    ensures Stream(Client(c.state, Advance(c.pending, k), c.wire + c.pending[0][..k])) == Stream(c)
  {
  }

  /**
   Whatever the socket answers, pumping hands bytes over in order and loses none: what is taken plus
   what waits is unchanged, except that a hard error empties the queue, and then what was taken is a
   prefix of it.
   */
  lemma {:induction false} PumpConserves(c: Client, script: seq<SendResult>)
    requires NonEmptyRecords(c.pending)
    ensures var c' := Pump(c, script);
      && c.wire <= c'.wire <= Stream(c)
      && NonEmptyRecords(c'.pending)
      && (Stream(c') == Stream(c) || (c'.pending == [] && (c'.state == DISCONNECTED || c'.state == ERROR_STATE)))
      && (c'.state == CONNECTED ==> Stream(c') == Stream(c))
      && (c.state != CONNECTED ==> c' == c)
    decreases |script|
  {
    if c.pending != [] && c.state == CONNECTED && NextResult(script).Sent? {
      var k := Min(NextResult(script).n, |c.pending[0]|);
      if k == 0 {
        PumpConserves(c, script[1..]);
      } else {
        TakenKeepsStream(c, k);
        PumpConserves(Client(c.state, Advance(c.pending, k), c.wire + c.pending[0][..k]), script[1..]);
      }
    }
  }

  /** How many sends a pump makes. */
  function Sends(c: Client, script: seq<SendResult>): nat
    decreases |script|
  {
    if c.pending == [] || c.state != CONNECTED then 0
    else if !NextResult(script).Sent? then 1
    else
      var k := Min(NextResult(script).n, |c.pending[0]|);
      1 + Sends(if k == 0 then c else Client(c.state, Advance(c.pending, k), c.wire + c.pending[0][..k]), script[1..])
  }

  /** A socket that makes progress or fails is asked at most once per pending byte, and once more. */
  lemma {:induction false} PumpTerminates(c: Client, script: seq<SendResult>)
    requires NonEmptyRecords(c.pending)
    requires forall i :: 0 <= i < |script| && script[i].Sent? ==> 0 < script[i].n
    ensures Sends(c, script) <= |Flat(c.pending)| + 1
    decreases |script|
  {
    if c.pending != [] && c.state == CONNECTED && NextResult(script).Sent? {
      var k := Min(NextResult(script).n, |c.pending[0]|);
      AdvanceFlat(c.pending, k);
      PumpTerminates(Client(c.state, Advance(c.pending, k), c.wire + c.pending[0][..k]), script[1..]);
    }
  }

  /** The i-th answer of a script; beyond its end a send would block. */
  function ResultAt(script: seq<SendResult>, i: nat): SendResult {
    if i < |script| then script[i] else WouldBlock
  }

  /**
   A pump stops for a reason: it empties the queue, or its last answer was not a transfer, and that
   answer decides the state it ends in. Records keep waiting on a live connection only when a send
   would block, and every answer before the last was a transfer.
   */
  lemma {:induction false} PumpStopsFor(c: Client, script: seq<SendResult>)
    requires c.state == CONNECTED && NonEmptyRecords(c.pending)
    ensures var c', n := Pump(c, script), Sends(c, script);
      && (forall i :: 0 <= i < n - 1 ==> ResultAt(script, i).Sent?)
      && (n == 0 <==> c.pending == [])
      && (n > 0 ==>
            match ResultAt(script, n - 1)
            case Sent(_) => c'.state == CONNECTED && c'.pending == []
            case WouldBlock => c'.state == CONNECTED && c'.pending != []
            case Interrupted => c'.state == ERROR_STATE && c'.pending != []
            case Reset => c'.state == DISCONNECTED && c'.pending == []
            case OtherError => c'.state == ERROR_STATE && c'.pending == [])
    decreases |script|
  {
    if c.pending != [] && NextResult(script).Sent? {
      var k := Min(NextResult(script).n, |c.pending[0]|);
      var next := if k == 0 then c else Client(c.state, Advance(c.pending, k), c.wire + c.pending[0][..k]);
      PumpStopsFor(next, script[1..]);
      var n := Sends(c, script);
      assert n > 1 ==> ResultAt(script[1..], n - 2) == ResultAt(script, n - 1);
      forall i | 0 <= i < n - 1
        ensures ResultAt(script, i).Sent?
      {
        assert i > 0 ==> ResultAt(script[1..], i - 1) == ResultAt(script, i);
      }
    }
  }

  /** A socket that takes something each time and is asked often enough takes everything. */
  lemma {:induction false} PumpDrains(c: Client, script: seq<SendResult>)
    requires c.state == CONNECTED && NonEmptyRecords(c.pending)
    requires forall i :: 0 <= i < |script| ==> script[i].Sent? && 0 < script[i].n
    requires |Flat(c.pending)| <= |script|
    ensures Pump(c, script) == Client(CONNECTED, [], Stream(c))
    decreases |script|
  {
    if c.pending == [] {
      assert Stream(c) == c.wire;
    } else {
      var k := Min(NextResult(script).n, |c.pending[0]|);
      AdvanceFlat(c.pending, k);
      TakenKeepsStream(c, k);
      PumpDrains(Client(c.state, Advance(c.pending, k), c.wire + c.pending[0][..k]), script[1..]);
    }
  }

  /** A socket that takes whole records is asked once for each. */
  lemma {:induction false} PumpDrainsRecords(c: Client, script: seq<SendResult>)
    requires c.state == CONNECTED && NonEmptyRecords(c.pending)
    requires forall i :: 0 <= i < |script| ==> script[i].Sent? && ORDER_SIZE <= script[i].n
    requires |c.pending| <= |script|
    ensures Pump(c, script) == Client(CONNECTED, [], Stream(c)) && Sends(c, script) == |c.pending|
    decreases |script|
  {
    if c.pending == [] {
      assert Stream(c) == c.wire;
    } else {
      var k := |c.pending[0]|;
      assert Min(NextResult(script).n, |c.pending[0]|) == k;
      TakenKeepsStream(c, k);
      PumpDrainsRecords(Client(c.state, Advance(c.pending, k), c.wire + c.pending[0][..k]), script[1..]);
    }
  }

  /** How much one send moves: what the socket reports, at most the rest of the front record. */
  lemma OneSendMoves(c: Client, n: nat)
    requires c.state == CONNECTED && c.pending != [] && NonEmptyRecords(c.pending)
    ensures var c' := Pump(c, [Sent(n)]);
      && |c'.wire| == |c.wire| + (if n <= |c.pending[0]| then n else |c.pending[0]|)
      && Stream(c') == Stream(c) && c'.state == CONNECTED
  {
    var k := Min(n, |c.pending[0]|);
    var next := if k == 0 then c else Client(c.state, Advance(c.pending, k), c.wire + c.pending[0][..k]);
    assert [Sent(n)][1..] == [];
    assert Pump(next, []) == next;
    if k > 0 {
      TakenKeepsStream(c, k);
    }
  }

  lemma EnqueueExtends(c: Client, bytes: seq<u8>)
    requires 0 < |bytes| <= ORDER_SIZE
    ensures var (c', ok) := Enqueue(c, bytes);
      && (ok ==> Stream(c') == Stream(c) + bytes)
      && (NonEmptyRecords(c.pending) ==> NonEmptyRecords(c'.pending))
  {
    FlatAppend(c.pending, bytes);
    assert c.wire + (Flat(c.pending) + bytes) == c.wire + Flat(c.pending) + bytes;
  }

  /** The socket takes the first k bytes of a record past whatever is waiting. */
  lemma TakenAtOnce(c: Client, bytes: seq<u8>, k: nat)
    requires k <= |bytes|
    ensures |Stream(c.(wire := c.wire + bytes[..k]))| == |Stream(c)| + k
    ensures c.pending == [] || k == 0 ==> Stream(c.(wire := c.wire + bytes[..k])) + bytes[k..] == Stream(c) + bytes
  {
  }

  /**
   An order that sendOrder reports as sent accounts for exactly its 25 bytes, taken or queued; one it
   refuses leaves the queue alone, and leaves the wire alone unless the queue was full.
   */
  lemma SendOrderAccounts(c: Client, o: OrderMessage, result: SendResult)
    ensures var (c', ok) := SendOrder(c, o, result);
      && (ok ==> |Stream(c')| == |Stream(c)| + ORDER_SIZE)
      && (ok && (c.pending == [] || c'.wire == c.wire) ==> Stream(c') == Stream(c) + OrderBytes(o))
      && (!ok ==> c'.pending == c.pending && (c'.wire == c.wire || |c.pending| == QUEUE_CAPACITY))
      && (NonEmptyRecords(c.pending) ==> NonEmptyRecords(c'.pending))
  {
    var bytes := OrderBytes(o);
    match result
    case Sent(n) =>
      var k := Min(n, |bytes|);
      TakenAtOnce(c, bytes, k);
      if k < |bytes| {
        EnqueueExtends(c.(wire := c.wire + bytes[..k]), bytes[k..]);
      }
    case WouldBlock => EnqueueExtends(c, bytes);
    case Interrupted => EnqueueExtends(c.(state := ERROR_STATE), bytes);
    case Reset =>
    case OtherError =>
  }

  /**
   An order is reported as sent exactly when the client is connected, the order is well-formed, and the
   socket took all of it or the rest could be queued.
   */
  lemma SentIff(c: Client, o: OrderMessage, result: SendResult)
    ensures SendOrder(c, o, result).1 <==>
      && c.state == CONNECTED
      && (o.side == 66 || o.side == 83) && o.quantity != 0 && 0 < o.price
      && (|| (result.Sent? && 25 <= result.n)
          || ((result.Sent? || result == WouldBlock || result == Interrupted) && |c.pending| != 1000))
  {
  }

  /** What becomes of the connection and of the queue, and how much of a well-formed order is taken. */
  lemma SendLeaves(c: Client, o: OrderMessage, result: SendResult)
    requires c.state == CONNECTED && Sendable(o)
    ensures var (c', ok) := SendOrder(c, o, result);
      var k := if result.Sent? then Min(result.n, ORDER_SIZE) else 0;
      && c'.wire == c.wire + OrderBytes(o)[..k]
      && c'.pending == (if ok && k < ORDER_SIZE then c.pending + [OrderBytes(o)[k..]] else c.pending)
      && c'.state == match result
                     case Sent(_) => CONNECTED
                     case WouldBlock => CONNECTED
                     case Interrupted => ERROR_STATE
                     case Reset => DISCONNECTED
                     case OtherError => ERROR_STATE
  {
    assert OrderBytes(o)[0..] == OrderBytes(o) && c.wire + OrderBytes(o)[..0] == c.wire;
  }

  // ----- Framing over whole runs -----

  datatype Operation = Send(order: OrderMessage, result: SendResult) | Process(script: seq<SendResult>)

  /** A client with the orders it has reported as sent. */
  datatype Log = Log(client: Client, accepted: seq<OrderMessage>)

  function Step(l: Log, op: Operation): Log {
    match op
    case Send(o, result) =>
      var (c, ok) := SendOrder(l.client, o, result);
      Log(c, if ok then l.accepted + [o] else l.accepted)
    case Process(script) => l.(client := Pump(l.client, script))
  }

  function Run(ops: seq<Operation>): Log {
    if ops == [] then Log(Client(CONNECTED, [], []), [])
    else Step(Run(ops[..|ops| - 1]), ops[|ops| - 1])
  }

  /** The socket takes bytes of an order while other bytes are waiting. */
  predicate JumpsQueue(c: Client, o: OrderMessage, result: SendResult) {
    c.state == CONNECTED && Sendable(o) && c.pending != [] && result.Sent? && result.n != 0
  }

  /** What is taken past the queue is as good as taken in its turn: the rest fits and the bytes coincide. */
  predicate Coincides(c: Client, bytes: seq<u8>, k: nat)
    requires k <= |bytes|
  {
    && (k == |bytes| || |c.pending| != QUEUE_CAPACITY)
    && bytes[..k] + Flat(c.pending) == Flat(c.pending) + bytes[..k]
  }

  /** No order jumps the queue, but for coinciding bytes. */
  predicate InTurn(c: Client, o: OrderMessage, result: SendResult) {
    JumpsQueue(c, o, result) ==> Coincides(c, OrderBytes(o), Min(result.n, ORDER_SIZE))
  }

  predicate AllInTurn(ops: seq<Operation>) {
    ops == []
    || var front, op := ops[..|ops| - 1], ops[|ops| - 1];
       AllInTurn(front) && (op.Send? ==> InTurn(Run(front).client, op.order, op.result))
  }

  function Records(orders: seq<OrderMessage>): (b: seq<u8>)
    ensures |b| == ORDER_SIZE * |orders|
  {
    if orders == [] then [] else Records(orders[..|orders| - 1]) + OrderBytes(orders[|orders| - 1])
  }

  ghost predicate FramingInv(l: Log) {
    && NonEmptyRecords(l.client.pending)
    && Stream(l.client) <= Records(l.accepted)
    && (l.client.state == CONNECTED ==> Stream(l.client) == Records(l.accepted))
  }

  lemma CancelFront(w: seq<u8>, x: seq<u8>, y: seq<u8>)
    ensures w + x == w + y <==> x == y
  {
    assert (w + x)[|w|..] == x && (w + y)[|w|..] == y;
  }

  lemma CancelBack(x: seq<u8>, y: seq<u8>, t: seq<u8>)
    ensures x + t == y + t <==> x == y
  {
    if x + t == y + t {
      assert x == (x + t)[..|x|] && y == (y + t)[..|y|];
    }
  }

  /** Bytes taken past the queue are in order exactly when they and the queue can change places. */
  lemma TakenPastQueue(c: Client, bytes: seq<u8>, k: nat)
    requires k <= |bytes|
    ensures c.wire + bytes[..k] + (Flat(c.pending) + bytes[k..]) == Stream(c) + bytes
            <==> bytes[..k] + Flat(c.pending) == Flat(c.pending) + bytes[..k]
  {
    var w, f, x, y := c.wire, Flat(c.pending), bytes[..k], bytes[k..];
    assert bytes == x + y;
    assert w + x + (f + y) == w + ((x + f) + y);
    assert w + f + (x + y) == w + ((f + x) + y);
    CancelFront(w, (x + f) + y, (f + x) + y);
    CancelBack(x + f, f + x, y);
  }

  /**
   sendOrder while other orders wait: what the socket takes of the new order goes past them, and the
   bytes handed over and waiting are still those of the orders in turn exactly when they coincide.
   */
  lemma JumpKeepsStreamIff(c: Client, o: OrderMessage, result: SendResult)
    requires JumpsQueue(c, o, result)
    ensures var (c', ok) := SendOrder(c, o, result);
      var k := Min(result.n, ORDER_SIZE);
      && ok == (k == ORDER_SIZE || |c.pending| != QUEUE_CAPACITY)
      && (Stream(c') == (if ok then Stream(c) + OrderBytes(o) else Stream(c)) <==> Coincides(c, OrderBytes(o), k))
  {
    var bytes, k := OrderBytes(o), Min(result.n, ORDER_SIZE);
    var (c', ok) := SendOrder(c, o, result);
    TakenPastQueue(c, bytes, k);
    if k == ORDER_SIZE {
      assert bytes[..k] == bytes && Flat(c.pending) + bytes[k..] == Flat(c.pending);
    } else if ok {
      FlatAppend(c.pending, bytes[k..]);
      assert Stream(c') == c.wire + bytes[..k] + (Flat(c.pending) + bytes[k..]);
    } else {
      TakenAtOnce(c, bytes, k);
      assert |Stream(c')| == |Stream(c)| + k;
    }
  }

  /** One operation keeps the framing if and only if its order, if any, goes in turn. */
  lemma StepFramingIff(l: Log, op: Operation)
    requires FramingInv(l)
    ensures FramingInv(Step(l, op)) <==> (op.Send? ==> InTurn(l.client, op.order, op.result))
  {
    match op
    case Send(o, result) =>
      SendOrderAccounts(l.client, o, result);
      var l' := Step(l, op);
      assert l'.accepted != l.accepted ==> l'.accepted[..|l'.accepted| - 1] == l.accepted;
      if JumpsQueue(l.client, o, result) {
        JumpKeepsStreamIff(l.client, o, result);
      }
    case Process(script) =>
      PumpConserves(l.client, script);
      var c' := Pump(l.client, script);
      assert c'.pending == [] ==> Stream(c') == c'.wire;
  }

  lemma StartFraming()
    ensures FramingInv(Run([]))
  {
    assert Stream(Run([]).client) == [];
  }

  lemma {:induction false} RunKeepsFraming(ops: seq<Operation>)
    requires AllInTurn(ops)
    ensures FramingInv(Run(ops))
  {
    if ops == [] {
      StartFraming();
    } else {
      RunKeepsFraming(ops[..|ops| - 1]);
      StepFramingIff(Run(ops[..|ops| - 1]), ops[|ops| - 1]);
    }
  }

  /** The bytes taken and waiting are at all times those of the reported orders in turn. */
  ghost predicate FramedThroughout(ops: seq<Operation>) {
    forall i :: 0 <= i <= |ops| ==> FramingInv(Run(ops[..i]))
  }

  /**
   In every run, the bytes taken and waiting are at all times those of the reported orders in turn if
   and only if no order jumps the queue, but for coinciding bytes.
   */
  lemma {:induction false} FramingIff(ops: seq<Operation>)
    ensures FramedThroughout(ops) == AllInTurn(ops)
  {
    if ops == [] {
      StartFraming();
      assert ops[..0] == [];
    } else {
      var front := ops[..|ops| - 1];
      FramingIff(front);
      FramedToTheEnd(ops);
      if FramedThroughout(front) {
        StepFramingIff(Run(front), ops[|ops| - 1]);
      }
    }
  }

  lemma FramedToTheEnd(ops: seq<Operation>)
    requires ops != []
    ensures var front := ops[..|ops| - 1];
      FramedThroughout(ops) == (FramedThroughout(front) && FramingInv(Run(ops)))
      && (FramedThroughout(front) ==> FramingInv(Run(front)))
  {
    var front := ops[..|ops| - 1];
    assert ops[..|ops|] == ops && front[..|front|] == front;
    assert forall i :: 0 <= i <= |front| ==> front[..i] == ops[..i];
  }

  lemma {:induction false} RecordAt(orders: seq<OrderMessage>, i: nat)
    requires i < |orders|
    ensures Records(orders)[ORDER_SIZE * i..ORDER_SIZE * (i + 1)] == OrderBytes(orders[i])
  {
    var front, last := orders[..|orders| - 1], orders[|orders| - 1];
    LastField(Records(front), OrderBytes(last));
    if i < |orders| - 1 {
      RecordAt(front, i);
      assert Records(orders)[ORDER_SIZE * i..ORDER_SIZE * (i + 1)]
          == Records(front)[ORDER_SIZE * i..ORDER_SIZE * (i + 1)];
    } else {
      assert Records(orders)[ORDER_SIZE * i..ORDER_SIZE * (i + 1)] == Records(orders)[|Records(front)|..];
    }
  }

  /**
   As long as no order jumps the queue, however many wait, the i-th 25-byte record on the wire is the
   i-th order reported as sent, and the server's decoder reads its numbers and side.
   */
  lemma WireCarriesOrders(ops: seq<Operation>, i: nat)
    requires AllInTurn(ops) && ORDER_SIZE * (i + 1) <= |Run(ops).client.wire|
    ensures var l := Run(ops);
      && i < |l.accepted|
      && var record := l.client.wire[ORDER_SIZE * i..ORDER_SIZE * (i + 1)];
         var o := l.accepted[i];
         && record == OrderBytes(o)
         && PythonParse(record).Some?
         && var p := PythonParse(record).value;
            p.timestamp == o.timestamp && p.side == o.side && p.quantity == o.quantity && p.price == o.price
  {
    RunKeepsFraming(ops);
    var l := Run(ops);
    assert l.client.wire <= Stream(l.client) <= Records(l.accepted);
    RecordAt(l.accepted, i);
    assert l.client.wire[ORDER_SIZE * i..ORDER_SIZE * (i + 1)]
        == Records(l.accepted)[ORDER_SIZE * i..ORDER_SIZE * (i + 1)];
    OrderRoundTrip(l.accepted[i]);
    DecodersAgree(OrderBytes(l.accepted[i]));
  }

  lemma Overtakes(a: OrderMessage, b: OrderMessage)
    requires Sendable(a) && Sendable(b)
    ensures var l := Step(Step(Log(Client(CONNECTED, [], []), []), Send(a, Sent(4))), Send(b, Sent(25)));
      l.accepted == [a, b] && l.client.wire == OrderBytes(a)[..4] + OrderBytes(b)
  {
  }

  /**
   An order that jumps the queue: when the rest of one order is waiting and the next order is taken whole,
   the second order's bytes land in the middle of the first one's record.
   */
  lemma OvertakingBreaksFraming()
    ensures var a := OrderMessage([65, 65, 65, 65, 65, 65, 65, 65], 1, 1, 1, BUY);
      var b := OrderMessage([66, 66, 66, 66, 66, 66, 66, 66], 1, 1, 1, BUY);
      var l := Step(Step(Log(Client(CONNECTED, [], []), []), Send(a, Sent(4))), Send(b, Sent(25)));
      l.accepted == [a, b] && |l.client.wire| >= ORDER_SIZE && l.client.wire[..ORDER_SIZE] != OrderBytes(a)
  {
    var a := OrderMessage([65, 65, 65, 65, 65, 65, 65, 65], 1, 1, 1, BUY);
    var b := OrderMessage([66, 66, 66, 66, 66, 66, 66, 66], 1, 1, 1, BUY);
    Overtakes(a, b);
    DiffersAtFour(OrderBytes(a), OrderBytes(b));
  }

  lemma DiffersAtFour(a: seq<u8>, b: seq<u8>)
    requires |a| == |b| == ORDER_SIZE && a[4] != b[0]
    ensures (a[..4] + b)[..ORDER_SIZE] != a
  {
    assert (a[..4] + b)[..ORDER_SIZE][4] == b[0];
  }
}
