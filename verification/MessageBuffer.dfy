/**
 include/message_buffer.h and src/message_buffer.cpp: a ring of 65536 bytes, proved to be a byte
 sequence. Masking with BUFFER_SIZE - 1 is written as % BUFFER_SIZE.
 */
module MessageBuffers {
  import opened MachineInts
  import opened Messages
  import opened WireCodec
  import opened StreamModel
  import opened CircularBuffers
  import opened MessageSerializers

  class MessageBuffer {
    const buffer: array<u8>
    var head: nat
    var tail: nat
    var used: nat
    ghost var Contents: seq<u8>   // the bytes held, oldest first

    ghost predicate Valid()
      reads this, buffer
    {
      && buffer.Length == BUFFER_SIZE
      && head < BUFFER_SIZE && used <= BUFFER_SIZE
      && tail == Slot(head, used, BUFFER_SIZE)
      && |Contents| == used
      && forall i :: 0 <= i < used ==> Contents[i] == buffer[Slot(head, i, BUFFER_SIZE)]
    }

    constructor ()
      ensures Valid() && fresh(buffer) && Contents == []
    {
      buffer := new u8[BUFFER_SIZE](_ => 0);
      head, tail, used := 0, 0, 0;
      Contents := [];
    }

    /** Two-part copy around the end of the ring. */
    method WriteWrapped(data: seq<u8>)
      requires buffer.Length == BUFFER_SIZE && tail < BUFFER_SIZE && |data| <= BUFFER_SIZE
      modifies buffer
      ensures forall i :: 0 <= i < |data| ==> buffer[Slot(tail, i, BUFFER_SIZE)] == data[i]
      ensures forall i :: |data| <= i < BUFFER_SIZE ==>
        buffer[Slot(tail, i, BUFFER_SIZE)] == old(buffer[Slot(tail, i, BUFFER_SIZE)])
    {
      ghost var before := buffer[..];
      var first := Min(|data|, BUFFER_SIZE - tail);
      Splice(before, tail, data, first);
      CopyBytes(buffer, tail, data[..first]);
      var second := |data| - first;
      if second != 0 {
        CopyBytes(buffer, 0, data[first..]);
      } else {
        assert data[..first] == data;
      }
      assert buffer[..] == Spliced(before, tail, data, first);
      assert forall k :: 0 <= k < BUFFER_SIZE ==> buffer[k] == buffer[..][k];
    }

    /** Refuses what does not fit. */
    method Append(data: seq<u8>) returns (ok: bool)
      requires Valid()
      modifies this, buffer
      ensures Valid()
      ensures ok <==> |old(Contents)| + |data| <= BUFFER_SIZE
      ensures Contents == if ok then old(Contents) + data else old(Contents)
    {
      if |data| == 0 {
        assert Contents + data == Contents;
        return true;
      }
      if |data| > BUFFER_SIZE - used {
        return false;
      }
      WriteWrapped(data);
      forall i | 0 <= i < used + |data|
        ensures buffer[Slot(head, i, BUFFER_SIZE)] == (Contents + data)[i]
      {
        if i < used {
          // Seen from the tail, the byte at i lies at BUFFER_SIZE - used + i.
          assert Slot(head, i, BUFFER_SIZE) == Slot(tail, BUFFER_SIZE - used + i, BUFFER_SIZE);
        } else {
          assert Slot(head, i, BUFFER_SIZE) == Slot(tail, i - used, BUFFER_SIZE);
        }
      }
      Grow(data);
      return true;
    }

    /** Moves the tail over bytes that are already in place. */
    method Grow(data: seq<u8>)
      requires buffer.Length == BUFFER_SIZE && head < BUFFER_SIZE && used + |data| <= BUFFER_SIZE
      requires tail == Slot(head, used, BUFFER_SIZE) && |Contents| == used
      requires forall i :: 0 <= i < used + |data| ==> buffer[Slot(head, i, BUFFER_SIZE)] == (Contents + data)[i]
      modifies this
      ensures Valid() && Contents == old(Contents) + data
    {
      tail := (tail + |data|) % BUFFER_SIZE;
      assert tail == Slot(old(tail), |data|, BUFFER_SIZE);
      used := used + |data|;
      Contents := Contents + data;
    }

    /** What the front of the buffer holds, where the body starts and how much of it is contiguous. */
    method PeekMessage() returns (result: Peek, bodyStart: nat, contiguousBody: nat)
      requires Valid()
      ensures result == PeekAt(Contents)
      ensures result.Complete? ==>
        && bodyStart == Slot(head, HEADER_SIZE, BUFFER_SIZE)
        && contiguousBody == Min(result.header.length, BUFFER_SIZE - bodyStart)
    {
      bodyStart, contiguousBody := 0, 0;
      if used < HEADER_SIZE {
        return NeedMoreData, 0, 0;
      }
      assert Slot(head, 0, BUFFER_SIZE) == head && Slot(head, 1, BUFFER_SIZE) == (head + 1) % BUFFER_SIZE;
      var header := Header(buffer[head], buffer[(head + 1) % BUFFER_SIZE]);
      assert header == HeaderAt(Contents, 0);
      if !ValidHeader(header) {
        return InvalidHeader, 0, 0;
      }
      var total := HEADER_SIZE + header.length;
      if used < total {
        return NeedMoreData, 0, 0;
      }
      bodyStart := (head + HEADER_SIZE) % BUFFER_SIZE;
      assert bodyStart == Slot(head, HEADER_SIZE, BUFFER_SIZE);
      contiguousBody := Min(header.length, BUFFER_SIZE - bodyStart);
      return Complete(header), bodyStart, contiguousBody;
    }

    /** The two parts of a body, joined, are the bytes that follow the header. */
    lemma BodyParts(n: nat)
      requires Valid() && HEADER_SIZE + n <= used
      ensures var start := Slot(head, HEADER_SIZE, BUFFER_SIZE);
        var first := Min(n, BUFFER_SIZE - start);
        && n - first <= start
        && buffer[start..start + first] + buffer[..n - first] == Contents[HEADER_SIZE..HEADER_SIZE + n]
    {
    }

    method Consume(header: Header)
      requires Valid() && HEADER_SIZE + header.length <= used
      modifies this
      ensures Valid() && Contents == old(Contents)[HEADER_SIZE + header.length..]
    {
      Drop(HEADER_SIZE + header.length);
    }

    /** Moves the head forward. */
    method Drop(total: nat)
      requires Valid() && total <= used
      modifies this
      ensures Valid() && Contents == old(Contents)[total..]
    {
      head := (head + total) % BUFFER_SIZE;
      assert head == Slot(old(head), total, BUFFER_SIZE);
      used := used - total;
      Contents := Contents[total..];
      forall i | 0 <= i < used
        ensures Slot(head, i, BUFFER_SIZE) == Slot(old(head), total + i, BUFFER_SIZE)
      {
      }
    }

    /** Copies a complete body out, in one or two parts, and consumes the frame. */
    method ExtractMessage(messageBuffer: array<u8>) returns (result: Peek)
      requires Valid() && QUOTE_SIZE <= messageBuffer.Length && messageBuffer != buffer
      modifies this, messageBuffer
      ensures Valid() && result == PeekAt(old(Contents))
      ensures result.Complete? ==>
        var n := result.header.length;
        && messageBuffer[..n] == old(Contents)[HEADER_SIZE..HEADER_SIZE + n]
        && Contents == old(Contents)[HEADER_SIZE + n..]
      ensures !result.Complete? ==> Contents == old(Contents) && messageBuffer[..] == old(messageBuffer[..])
    {
      var bodyStart, contiguous;
      result, bodyStart, contiguous := PeekMessage();
      if !result.Complete? {
        return;
      }
      CopyBody(messageBuffer, result.header.length, bodyStart, contiguous);
      Consume(result.header);
    }

    /** Copies the body of the frame at the front, in two parts when it wraps. */
    method CopyBody(messageBuffer: array<u8>, n: nat, bodyStart: nat, contiguous: nat)
      requires Valid() && n <= messageBuffer.Length && messageBuffer != buffer && HEADER_SIZE + n <= |Contents|
      requires bodyStart == (head + HEADER_SIZE) % BUFFER_SIZE && contiguous == Min(n, BUFFER_SIZE - bodyStart)
      modifies messageBuffer
      ensures messageBuffer[..n] == Contents[HEADER_SIZE..HEADER_SIZE + n]
    {
      BodyParts(n);
      if contiguous == n {
        CopyBytes(messageBuffer, 0, buffer[bodyStart..bodyStart + n]);
      } else {
        CopyBytes(messageBuffer, 0, buffer[bodyStart..bodyStart + contiguous]);
        ghost var s := messageBuffer[..];
        CopyBytes(messageBuffer, contiguous, buffer[..n - contiguous]);
        WriteNext(old(messageBuffer[..]), 0, buffer[bodyStart..bodyStart + contiguous], buffer[..n - contiguous]);
      }
    }

    method Clear()
      requires Valid()
      modifies this
      ensures Valid() && Contents == []
    {
      head, tail, used := 0, 0, 0;
      Contents := [];
    }

    /**
     Scans for a plausible header past the first byte. A candidate is reported but the head does not
     move; without one, the scanned bytes are dropped.
     */
    method Resync() returns (r: nat)
      requires Valid()
      modifies this
      ensures Valid() && (Contents, r) == StreamModel.Resync(old(Contents))
    {
      var available := used;
      if available < HEADER_SIZE + 1 {
        return available;
      }
      var limit := if available < MAX_SCAN then available else MAX_SCAN;
      var i := 1;
      while i + 1 < limit
        invariant 1 <= i <= limit
        invariant Contents == old(Contents)
        invariant FindHeader(Contents, 1, limit) == FindHeader(Contents, i, limit)
      {
        assert Slot(head, i, BUFFER_SIZE) == (head + i) % BUFFER_SIZE;
        assert Slot(head, i + 1, BUFFER_SIZE) == (head + i + 1) % BUFFER_SIZE;
        var length := buffer[(head + i) % BUFFER_SIZE];
        var kind := buffer[(head + i + 1) % BUFFER_SIZE];
        var plausible := false;
        if kind == QUOTE_TYPE && length == QUOTE_SIZE {
          plausible := true;
        } else if kind == TRADE_TYPE && length == TRADE_SIZE {
          plausible := true;
        }
        assert plausible <==> ValidHeader(HeaderAt(Contents, i));
        if plausible {
          return i;
        }
        i := i + 1;
      }
      Drop(limit);
      return limit;
    }
  }

  /** s with data written over it from index tail on, wrapping once after first bytes. */
  ghost function Spliced(s: seq<u8>, tail: nat, data: seq<u8>, first: nat): seq<u8>
    requires first <= |data| <= |s| && tail + first <= |s|
  {
    Written(Written(s, tail, data[..first]), 0, data[first..])
  }

  /** Where each byte of a wrapping write ends up. */
  lemma Splice(s: seq<u8>, tail: nat, data: seq<u8>, first: nat)
    requires first <= |data| <= |s| && tail < |s|
    requires first == Min(|data|, |s| - tail)
    ensures var t := Spliced(s, tail, data, first);
      && |t| == |s|
      && (forall i :: 0 <= i < |data| ==> t[Slot(tail, i, |s|)] == data[i])
      && (forall i :: |data| <= i < |s| ==> t[Slot(tail, i, |s|)] == s[Slot(tail, i, |s|)])
      && (first == |data| ==> t == Written(s, tail, data))
  {
  }
}
