/**
 include/order_client.h and src/order_client.cpp: the fixed ring of pending sends, proved against
 SendQueue. The answers of the socket are inputs; the bytes it has taken are a ghost field.
 */
module OrderClients {
  import opened MachineInts
  import opened Messages
  import opened WireCodec
  import opened CircularBuffers
  import opened MessageSerializers
  import opened SendQueue

  /** The unsent part is data[offset..length]. */
  datatype PendingSend = PendingSend(data: seq<u8>, length: nat, offset: nat)

  predicate WellFormed(p: PendingSend) {
    |p.data| == ORDER_SIZE && p.offset < p.length <= ORDER_SIZE
  }

  function Remaining(p: PendingSend): seq<u8>
    requires WellFormed(p)
  {
    p.data[p.offset..p.length]
  }

  /** A record whose first bytes are to be sent; the rest of the 25 bytes is zero. */
  function NewPending(bytes: seq<u8>): (p: PendingSend)
    requires 0 < |bytes| <= ORDER_SIZE
    ensures WellFormed(p) && Remaining(p) == bytes
  {
    PendingSend(bytes + seq(ORDER_SIZE - |bytes|, _ => 0), |bytes|, 0)
  }

  class OrderClient {
    const queue: array<PendingSend>
    var qHead: nat
    var qTail: nat
    var qSize: nat
    var state: ConnectionState
    ghost var pending: seq<seq<u8>>   // the unsent bytes of each queued record, oldest first
    ghost var wire: seq<u8>           // every byte the socket has taken

    ghost predicate Valid()
      reads this, queue
    {
      && queue.Length == QUEUE_CAPACITY
      && qHead < QUEUE_CAPACITY && qSize <= QUEUE_CAPACITY
      && qTail == Slot(qHead, qSize, QUEUE_CAPACITY)
      && |pending| == qSize
      && forall i :: 0 <= i < qSize ==>
           && WellFormed(queue[Slot(qHead, i, QUEUE_CAPACITY)])
           && pending[i] == Remaining(queue[Slot(qHead, i, QUEUE_CAPACITY)])
    }

    ghost function Model(): Client
      reads this
    {
      Client(state, pending, wire)
    }

    constructor ()
      ensures Valid() && fresh(queue) && Model() == Client(DISCONNECTED, [], [])
    {
      queue := new PendingSend[QUEUE_CAPACITY](_ => PendingSend([], 0, 0));
      qHead, qTail, qSize := 0, 0, 0;
      state := DISCONNECTED;
      pending, wire := [], [];
    }

    method EnqueuePending(ps: PendingSend) returns (ok: bool)
      requires Valid() && WellFormed(ps)
      modifies queue, this`qTail, this`qSize, this`pending
      ensures Valid() && (Model(), ok) == Enqueue(old(Model()), Remaining(ps))
    {
      if qSize == QUEUE_CAPACITY {
        return false;
      }
      queue[qTail] := ps;
      qTail := (qTail + 1) % QUEUE_CAPACITY;
      SlotOfSlot(qHead, qSize, 1, QUEUE_CAPACITY);
      assert qTail == Slot(old(qTail), 1, QUEUE_CAPACITY);
      qSize := qSize + 1;
      pending := pending + [Remaining(ps)];
      return true;
    }

    method PopFront()
      requires Valid()
      modifies this`qHead, this`qSize, this`pending
      ensures Valid() && pending == if old(pending) == [] then [] else old(pending)[1..]
    {
      if qSize != 0 {
        qHead := (qHead + 1) % QUEUE_CAPACITY;
        assert qHead == Slot(old(qHead), 1, QUEUE_CAPACITY);
        qSize := qSize - 1;
        forall i | 0 <= i <= qSize
          ensures Slot(qHead, i, QUEUE_CAPACITY) == Slot(old(qHead), 1 + i, QUEUE_CAPACITY)
        {
          SlotOfSlot(old(qHead), 1, i, QUEUE_CAPACITY);
        }
        pending := pending[1..];
      }
    }

    /** Serializes the order, offers it to the socket and queues what the socket does not take. */
    method SendOrder(order: OrderMessage, result: SendResult) returns (ok: bool)
      requires Valid()
      modifies this, queue
      ensures Valid() && (Model(), ok) == SendQueue.SendOrder(old(Model()), order, result)
    {
      if state != CONNECTED {
        return false;
      }
      if order.side != BUY && order.side != SELL {
        return false;
      }
      if order.quantity == 0 {
        return false;
      }
      if order.price <= 0 {
        return false;
      }
      var buffer := new u8[ORDER_SIZE](_ => 0);
      var size := SerializeOrder(buffer, 0, ORDER_SIZE, order);
      var bytes := buffer[..];
      assert bytes == OrderBytes(order);
      if size == 0 {
        assert false;
      }
      match result
      case Sent(n) =>
        var sent := Min(n, size);
        wire := wire + bytes[..sent];
        if sent == size {
          return true;
        }
        ok := EnqueuePending(NewPending(bytes[sent..]));
      case WouldBlock =>
        ok := EnqueuePending(NewPending(bytes));
      case Interrupted =>
        state := ERROR_STATE;
        ok := EnqueuePending(NewPending(bytes));
      case Reset =>
        state := DISCONNECTED;
        return false;
      case OtherError =>
        state := ERROR_STATE;
        return false;
    }

    /** The socket takes the next k bytes of the front record. */
    method AdvanceFront(k: nat)
      requires Valid() && 0 < qSize && 0 < k <= |pending[0]|
      modifies queue, this`qHead, this`qSize, this`pending, this`wire
      ensures Valid() && Model() == Client(state, Advance(old(pending), k), old(wire) + old(pending)[0][..k])
    {
      assert Slot(qHead, 0, QUEUE_CAPACITY) == qHead;
      var front := queue[qHead];
      wire := wire + pending[0][..k];
      if front.offset + k >= front.length {
        PopFront();
      } else {
        queue[qHead] := front.(offset := front.offset + k);
        pending := [pending[0][k..]] + pending[1..];
        assert forall i :: 0 < i < qSize ==> Slot(qHead, i, QUEUE_CAPACITY) != qHead;
      }
    }

    method DiscardQueue()
      requires Valid()
      modifies this`qHead, this`qSize, this`pending
      ensures Valid() && pending == []
    {
      while qSize != 0
        invariant Valid()
        decreases qSize
      {
        PopFront();
      }
    }

    /** Hands queued records to the socket until it blocks, fails or nothing is left. */
    method ProcessSendQueue(script: seq<SendResult>)
      requires Valid()
      modifies this, queue
      ensures Valid() && Model() == Pump(old(Model()), script)
    {
      var rest := script;
      while qSize != 0 && state == CONNECTED
        invariant Valid()
        invariant Pump(Model(), rest) == Pump(old(Model()), script)
        decreases |rest|, state == CONNECTED
      {
        var result := NextResult(rest);
        assert Slot(qHead, 0, QUEUE_CAPACITY) == qHead;
        var remaining := queue[qHead].length - queue[qHead].offset;
        match result
        case Sent(n) =>
          rest := rest[1..];
          var sent := Min(n, remaining);
          if sent > 0 {
            AdvanceFront(sent);
          }
        case WouldBlock =>
          break;
        case Interrupted =>
          state := ERROR_STATE;
        case Reset =>
          state := DISCONNECTED;
          DiscardQueue();
          break;
        case OtherError =>
          state := ERROR_STATE;
          DiscardQueue();
          break;
      }
    }
  }
}
