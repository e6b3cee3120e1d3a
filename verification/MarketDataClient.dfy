/**
 src/market_data_client.cpp: processIncomingData, a bounded receive loop followed by the drain loop.
 The outcomes of the receive calls are an input; the callback's arguments are the result.
 */
module MarketDataClients {
  import opened MachineInts
  import opened Messages
  import opened WireCodec
  import opened StreamModel
  import opened MessageBuffers

  /** The outcome of a drain that has already delivered some messages. */
  ghost function DrainAfter(delivered: seq<Message>, b: seq<u8>): Drained {
    Drained(delivered + Drain(b).messages, Drain(b).rest)
  }

  function Deliver(delivered: seq<Message>, m: Option<Message>): seq<Message> {
    if m.Some? then delivered + [m.value] else delivered
  }

  lemma DrainStep(delivered: seq<Message>, b: seq<u8>, h: Header)
    requires PeekAt(b) == Complete(h)
    ensures var m := Decode(h, b[HEADER_SIZE..HEADER_SIZE + h.length]);
      DrainAfter(delivered, b) == DrainAfter(Deliver(delivered, m), b[HEADER_SIZE + h.length..])
  {
    var m, rest := Decode(h, b[HEADER_SIZE..HEADER_SIZE + h.length]), Drain(b[HEADER_SIZE + h.length..]);
    DrainComplete(b, h);
    assert m.Some? ==> delivered + ([m.value] + rest.messages) == delivered + [m.value] + rest.messages;
  }

  lemma DrainEnds(delivered: seq<Message>, b: seq<u8>)
    requires !PeekAt(b).Complete?
    ensures DrainAfter(delivered, b) == Drained(delivered, if PeekAt(b) == InvalidHeader then Resync(b).0 else b)
  {
    assert delivered + [] == delivered;
  }

  class MarketDataClient {
    const receiveBuffer: MessageBuffer

    ghost predicate Valid()
      reads receiveBuffer, receiveBuffer.buffer
    {
      receiveBuffer.Valid()
    }

    constructor ()
      ensures Valid() && fresh(receiveBuffer) && fresh(receiveBuffer.buffer)
      ensures receiveBuffer.Contents == []
    {
      receiveBuffer := new MessageBuffer();
    }

    /** At most four reads; a short one ends the loop, one that does not fit clears the buffer. */
    method ReceiveLoop(script: seq<Read>) returns (ok: bool, cleared: bool)
      requires Valid()
      modifies receiveBuffer, receiveBuffer.buffer
      ensures Valid()
      ensures Received(receiveBuffer.Contents, ok, cleared)
           == Receive(old(receiveBuffer.Contents), script, READS_PER_CALL)
    {
      var rest := script;
      for iter := 0 to READS_PER_CALL
        invariant Valid()
        invariant Receive(receiveBuffer.Contents, rest, READS_PER_CALL - iter)
               == Receive(old(receiveBuffer.Contents), script, READS_PER_CALL)
      {
        var read := NextRead(rest);
        rest := RestOf(rest);
        match read
        case Closed =>
          return false, false;
        case Failed =>
          return false, false;
        case WouldBlock =>
          return true, false;
        case Interrupted =>
          return true, false;
        case Data(bytes) =>
          var appended := receiveBuffer.Append(bytes);
          if !appended {
            receiveBuffer.Clear();
            return true, true;
          }
          if |bytes| < READ_SIZE {
            return true, false;
          }
      }
      return true, false;
    }

    /** Reads the body in place when it is contiguous and through a two-part copy when it wraps. */
    method ReadMessage(header: Header, bodyStart: nat, contiguous: nat) returns (m: Option<Message>)
      requires Valid() && PeekAt(receiveBuffer.Contents) == Complete(header)
      requires bodyStart == (receiveBuffer.head + HEADER_SIZE) % BUFFER_SIZE
      requires contiguous == Min(header.length, BUFFER_SIZE - bodyStart)
      ensures m == Decode(header, receiveBuffer.Contents[HEADER_SIZE..HEADER_SIZE + header.length])
    {
      receiveBuffer.BodyParts(header.length);
      var temp := receiveBuffer.buffer[bodyStart..bodyStart + contiguous];
      if contiguous != header.length {
        temp := temp + receiveBuffer.buffer[..header.length - contiguous];
      } else {
        assert temp + receiveBuffer.buffer[..0] == temp;
      }
      if header.kind == QUOTE_TYPE {
        var quote := ParseQuote(temp).value;
        m := if ValidQuote(quote) then Some(QuoteMsg(quote)) else None;
      } else {
        var trade := ParseTrade(temp).value;
        m := if ValidTrade(trade) then Some(TradeMsg(trade)) else None;
      }
    }

    /** Reads the complete frame at the front and takes it off the buffer. */
    method TakeFrame(header: Header, bodyStart: nat, contiguous: nat) returns (m: Option<Message>)
      requires Valid() && PeekAt(receiveBuffer.Contents) == Complete(header)
      requires bodyStart == (receiveBuffer.head + HEADER_SIZE) % BUFFER_SIZE
      requires contiguous == Min(header.length, BUFFER_SIZE - bodyStart)
      modifies receiveBuffer
      ensures Valid() == true
      ensures var frame, b := HEADER_SIZE + header.length, old(receiveBuffer.Contents);
        m == Decode(header, b[HEADER_SIZE..frame]) && receiveBuffer.Contents == b[frame..]
    {
      m := ReadMessage(header, bodyStart, contiguous);
      receiveBuffer.Consume(header);
    }

    /** Gives up on a front that is not a complete frame; an invalid header is resynchronised. */
    method LeaveDrain(result: Peek)
      requires Valid() && result == PeekAt(receiveBuffer.Contents) && !result.Complete?
      modifies receiveBuffer
      ensures Valid() == true
      ensures var b := old(receiveBuffer.Contents);
        receiveBuffer.Contents == if result == InvalidHeader then Resync(b).0 else b
    {
      if result == InvalidHeader {
        var offset := receiveBuffer.Resync();
      }
    }

    // `Valid() == true` keeps the predicate one fact for the verifier.

    /** Delivers complete frames in order; terminates because each one shortens the buffer. */
    method DrainLoop() returns (delivered: seq<Message>)
      requires Valid()
      modifies receiveBuffer
      ensures Valid() == true && Drained(delivered, receiveBuffer.Contents) == Drain(old(receiveBuffer.Contents))
    {
      delivered := [];
      assert DrainAfter([], receiveBuffer.Contents) == Drain(receiveBuffer.Contents);
      while true
        invariant Valid() == true
        invariant DrainAfter(delivered, receiveBuffer.Contents) == Drain(old(receiveBuffer.Contents))
        decreases |receiveBuffer.Contents|
      {
        var result, bodyStart, contiguous := receiveBuffer.PeekMessage();
        if !result.Complete? {
          DrainEnds(delivered, receiveBuffer.Contents);
          LeaveDrain(result);
          break;
        }
        DrainStep(delivered, receiveBuffer.Contents, result.header);
        var m := TakeFrame(result.header, bodyStart, contiguous);
        delivered := Deliver(delivered, m);
      }
    }

    method ProcessIncomingData(script: seq<Read>) returns (ok: bool, delivered: seq<Message>)
      requires Valid()
      modifies receiveBuffer, receiveBuffer.buffer
      ensures Valid()
      ensures var r := ProcessIncoming(old(receiveBuffer.Contents), script);
        receiveBuffer.Contents == r.buffer && delivered == r.messages && ok == r.ok
    {
      delivered := [];
      var cleared;
      ok, cleared := ReceiveLoop(script);
      if ok {
        delivered := DrainLoop();
      }
    }
  }
}
