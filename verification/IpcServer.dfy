/** The compositor's side of the i3-IPC transport (sway/ipc-server.c): the request reader and the
    growing write queue of a client. */
module IpcServer {
  import opened IpcProtocol

  const INITIAL_BUFFER_SIZE := 128
  const BUFFER_LIMIT := 4_000_000

  /** The first doubling of the initial size that the limit refuses is 2^22, so the largest buffer is: */
  const LARGEST_BUFFER := 2_097_152

  /** Sizes that doubling can reach from the initial one. */
  ghost predicate BufferSize(n: nat) {
    n == INITIAL_BUFFER_SIZE || (n > 0 && n % 2 == 0 && BufferSize(n / 2))
  }

  ghost function Doubled(k: nat): (n: nat)
    ensures n >= INITIAL_BUFFER_SIZE
  {
    if k == 0 then INITIAL_BUFFER_SIZE else 2 * Doubled(k - 1)
  }

  lemma {:induction false} BufferSizesAreSparse(n: nat, k: nat)
    requires BufferSize(n)
    ensures n <= Doubled(k) || n >= 2 * Doubled(k)
    decreases k
  {
    if k > 0 && n != INITIAL_BUFFER_SIZE {
      BufferSizesAreSparse(n / 2, k - 1);
    } else if k > 0 {
      BufferSizesAreSparse(n, k - 1);
    } else {
      BufferSizeAtLeast(n);
    }
  }

  lemma {:induction false} BufferSizeAtLeast(n: nat)
    requires BufferSize(n)
    ensures n == INITIAL_BUFFER_SIZE || n >= 2 * INITIAL_BUFFER_SIZE
  {
    if n != INITIAL_BUFFER_SIZE {
      BufferSizeAtLeast(n / 2);
    }
  }

  /** A buffer within the 4 MB limit is in fact at most 2 MiB. */
  lemma BufferSizeWithinLimit(n: nat)
    requires BufferSize(n)
    ensures n <= BUFFER_LIMIT <==> n <= LARGEST_BUFFER
    ensures n > LARGEST_BUFFER ==> n >= 2 * LARGEST_BUFFER
  {
    assert Doubled(7) == 16384;
    assert Doubled(14) == LARGEST_BUFFER;
    BufferSizesAreSparse(n, 14);
  }

  /** Whether a message of `n` payload bytes can still be queued behind `queued` bytes. */
  predicate Fits(queued: nat, n: nat) {
    queued + HEADER_SIZE + n < LARGEST_BUFFER
  }

  ghost predicate LargeEnough(size: nat, queued: nat, n: nat) {
    BufferSize(size) && queued + 14 + n < size <= 4_000_000
  }

  /** It can if some doubling of the initial 128 bytes has room for it within 4,000,000; that comes to 2 MiB. */
  lemma FitsExactly(queued: nat, n: nat)
    ensures Fits(queued, n) <==> exists size :: LargeEnough(size, queued, n)
    ensures Fits(queued, n) <==> queued + 14 + n < 2_097_152
  {
    hide BufferSize;
    if size :| LargeEnough(size, queued, n) {
      BufferSizeWithinLimit(size);
    }
    if queued + 14 + n < 2_097_152 {
      LargestReached();
      assert LargeEnough(2_097_152, queued, n);
    }
  }

  lemma LargestReached()
    ensures BufferSize(2_097_152)
  {
    DoublingReaches(14);
    assert Doubled(7) == 16384 && Doubled(14) == 2_097_152;
  }

  lemma {:induction false} DoublingReaches(k: nat)
    ensures BufferSize(Doubled(k))
  {
    if k > 0 {
      var half := Doubled(k - 1);
      DoublingReaches(k - 1);
      assert 2 * half / 2 == half && 2 * half % 2 == 0;
    }
  }

  /** What can go wrong while a readable or writable event is handled. */
  datatype Fault = NoFault | SocketError | Hangup | QueryFails | RecvFails

  datatype WriteResult = Again | Failed | Written(count: nat)

  class IpcClient {
    // the socket: bytes received and not yet read, and all bytes written
    var incoming: seq<Byte>
    var outgoing: seq<Byte>
    var connected: bool

    var subscribedEvents: set<nat>  // bit positions
    var pendingLength: Word
    var pendingType: Word
    var writeBuffer: array<Byte>
    var writeBufferLen: nat
    var writeBufferSize: nat
    var writableArmed: bool

    // the requests handed to the command switch
    var dispatched: seq<Frame>

    ghost var arrived: seq<Byte>    // everything the peer has sent so far
    ghost var accepted: seq<Frame>  // every message queued so far

    ghost function Queued(): seq<Byte>
      requires writeBufferLen <= writeBuffer.Length
      reads this`writeBuffer, this`writeBufferLen, writeBuffer
    {
      writeBuffer[..writeBufferLen]
    }

    /** The header that has been read ahead of its payload. */
    ghost function PendingHeader(): seq<Byte>
      reads this`pendingLength, this`pendingType
    {
      if pendingLength > 0 then Header(pendingLength, pendingType) else []
    }

    ghost predicate ReaderValid()
      reads this`connected, this`arrived, this`dispatched, this`pendingLength, this`pendingType, this`incoming
    {
      && (connected ==> arrived == Encode(dispatched) + PendingHeader() + incoming)
      && Encode(dispatched) <= arrived
    }

    ghost predicate WriterValid()
      reads this`connected, this`writeBuffer, this`writeBufferLen, this`writeBufferSize, this`writableArmed,
            this`outgoing, this`accepted, writeBuffer
    {
      && writeBufferLen <= writeBuffer.Length
      && (connected ==>
        && writeBuffer.Length == writeBufferSize && BufferSize(writeBufferSize)
        && writeBufferLen < writeBufferSize <= LARGEST_BUFFER
        && (writableArmed <==> writeBufferLen > 0)
        && outgoing + Queued() == Encode(accepted))
      && outgoing <= Encode(accepted)
    }

    ghost predicate Valid()
      reads this, writeBuffer
    {
      ReaderValid() && WriterValid()
    }

    constructor ()
      ensures Valid() && connected && fresh(writeBuffer)
      ensures arrived == incoming == outgoing == [] && accepted == dispatched == [] && subscribedEvents == {}
    {
      incoming, outgoing, arrived := [], [], [];
      dispatched, accepted := [], [];
      connected := true;
      pendingLength, pendingType := 0, 0;
      subscribedEvents := {};
      writableArmed := false;
      writeBufferSize, writeBufferLen := INITIAL_BUFFER_SIZE, 0;
      writeBuffer := new Byte[INITIAL_BUFFER_SIZE];
    }

    // ----- requests

    /** The kernel takes more bytes from the peer. */
    method Deliver(bytes: seq<Byte>)
      requires Valid()
      modifies this`incoming, this`arrived
      ensures Valid()
      ensures connected ==> arrived == old(arrived) + bytes && incoming == old(incoming) + bytes
      ensures !connected ==> unchanged(this)
    {
      if connected {
        incoming, arrived := incoming + bytes, arrived + bytes;
        assert arrived == Encode(dispatched) + PendingHeader() + incoming;
      }
    }

    /** True when a readable event would find too few bytes to do anything. */
    ghost predicate Waiting()
      reads this
    {
      |incoming| < if pendingLength > 0 then pendingLength else HEADER_SIZE
    }

    method Receive(count: nat) returns (bytes: seq<Byte>)
      requires count <= |incoming|
      modifies this`incoming
      ensures bytes == old(incoming)[..count] && incoming == old(incoming)[count..]
    {
      bytes, incoming := incoming[..count], incoming[count..];
    }

    /** `fault` is for the event and its first recv(), `payloadFault` for the payload that follows a header at once. */
    method HandleReadable(fault: Fault, payloadFault: Fault)
      requires Valid() && connected
      modifies this`incoming, this`connected, this`pendingLength, this`pendingType, this`dispatched
      ensures Valid()
      ensures old(dispatched) <= dispatched && |dispatched| <= |old(dispatched)| + 1
      ensures fault.SocketError? || fault.Hangup? || fault.QueryFails? ==> !connected && dispatched == old(dispatched)
      ensures fault.RecvFails? && !old(Waiting()) ==> !connected && dispatched == old(dispatched)
      ensures fault.NoFault? && old(Waiting()) ==> unchanged(this)
      ensures fault.NoFault? && !old(Waiting()) ==> |incoming| < |old(incoming)|
      ensures fault.NoFault? && payloadFault.NoFault? && !connected ==>
        Decode(arrived).malformed && dispatched == Decode(arrived).frames
    {
      hide Decode, Encode, Header, HeaderLength, HeaderKind, BufferSize;
      if fault.SocketError? || fault.Hangup? || fault.QueryFails? {
        connected := false;
        return;
      }
      var available := |incoming|;
      if pendingLength > 0 {
        if available >= pendingLength {
          var length, kind := pendingLength, pendingType;
          pendingLength := 0;
          HandleCommand(length, kind, fault);
        }
        return;
      }
      if available < HEADER_SIZE {
        return;
      }
      if fault.RecvFails? {
        connected := false;
        return;
      }
      var buf := Receive(HEADER_SIZE);
      assert old(incoming) == buf + incoming;
      assert arrived == Encode(dispatched) + buf + incoming;
      HandleHeader(buf, payloadFault);
    }

    /** The rest of the event once a header has been read. */
    method HandleHeader(buf: seq<Byte>, payloadFault: Fault)
      requires connected && pendingLength == 0 && |buf| == HEADER_SIZE && arrived == Encode(dispatched) + buf + incoming
      modifies this`incoming, this`connected, this`pendingLength, this`pendingType, this`dispatched
      ensures ReaderValid()
      ensures old(dispatched) <= dispatched && |dispatched| <= |old(dispatched)| + 1 && |incoming| <= |old(incoming)|
      ensures payloadFault.NoFault? && !connected ==> Decode(arrived).malformed && dispatched == Decode(arrived).frames
    {
      hide Decode, Encode, Header, HeaderLength, HeaderKind;
      if buf[..|MAGIC|] != MAGIC {
        connected := false;
        assert arrived == Encode(dispatched) + (buf + incoming);
        MalformedTail(dispatched, buf + incoming);
        return;
      }
      pendingLength, pendingType := HeaderLength(buf), HeaderKind(buf);
      HeaderIsDetermined(buf);
      if |incoming| >= pendingLength {
        var length, kind := pendingLength, pendingType;
        pendingLength := 0;
        HandleCommand(length, kind, payloadFault);
      }
    }

    /** Reads the payload and hands the request on; running the command itself is not modelled. */
    method HandleCommand(length: Word, kind: Word, fault: Fault)
      requires connected && length <= |incoming| && pendingLength == 0
      requires arrived == Encode(dispatched) + Header(length, kind) + incoming
      modifies this`incoming, this`connected, this`dispatched
      ensures ReaderValid()
      ensures old(dispatched) <= dispatched && |dispatched| <= |old(dispatched)| + 1
      ensures incoming == if connected then old(incoming)[length..] else old(incoming)
      ensures connected == !(length > 0 && fault.RecvFails?)
      ensures dispatched == old(dispatched) + if connected then [Frame(kind, old(incoming)[..length])] else []
    {
      hide Decode, Encode, Header;
      var payload: Payload := [];
      if length > 0 {
        if fault.RecvFails? {
          connected := false;
          return;
        }
        payload := Receive(length);
      }
      EncodeAppend(dispatched, Frame(kind, payload));
      assert old(incoming) == payload + incoming;
      dispatched := dispatched + [Frame(kind, payload)];
      assert arrived == Encode(old(dispatched)) + (Header(length, kind) + payload) + incoming;
      assert arrived == Encode(dispatched) + PendingHeader() + incoming;
    }

    /** The event loop repeats readable events while enough bytes are there. */
    method Drain()
      requires Valid()
      requires !connected ==> Decode(arrived).malformed && dispatched == Decode(arrived).frames
      modifies this`incoming, this`connected, this`pendingLength, this`pendingType, this`dispatched
      ensures Valid()
      ensures connected ==> Waiting()
      ensures !connected ==> Decode(arrived).malformed
      ensures dispatched == Decode(arrived).frames
    {
      while connected && |incoming| >= (if pendingLength > 0 then pendingLength else HEADER_SIZE)
        invariant Valid()
        invariant !connected ==> Decode(arrived).malformed && dispatched == Decode(arrived).frames
        decreases |incoming|
      {
        HandleReadable(NoFault, NoFault);
      }
      if connected {
        WaitingReader(dispatched, pendingLength, pendingType, incoming);
      }
    }

    // ----- replies and events

    /** Queues one message. On refusal the connection is closed; taking the client off the list is up to the caller. */
    method QueueReply(kind: Word, payload: Payload) returns (ok: bool)
      requires Valid() && connected
      modifies this`connected, this`writeBuffer, this`writeBufferLen, this`writeBufferSize,
               this`writableArmed, this`accepted, writeBuffer
      ensures Valid()
      ensures writeBuffer == old(writeBuffer) || fresh(writeBuffer)
      ensures ok == connected == (old(writeBufferLen) + 14 + |payload| < 2_097_152)
      ensures Queued() == old(Queued()) + if ok then EncodeFrame(Frame(kind, payload)) else []
      ensures accepted == if ok then old(accepted) + [Frame(kind, payload)] else old(accepted)
      ensures ok ==>
        && writableArmed && writeBufferLen < writeBuffer.Length == writeBufferSize <= 2_097_152
        && outgoing + Queued() == Encode(accepted)
    {
      hide Decode, Encode, EncodeFrame, BufferSize;
      ReserveSize(writeBufferLen + HEADER_SIZE + |payload|);
      if writeBufferSize > BUFFER_LIMIT {
        connected := false;
        return false;
      }
      Store(Frame(kind, payload));
      return true;
    }

    method Store(f: Frame)
      requires connected && writeBufferLen < writeBuffer.Length && outgoing + Queued() == Encode(accepted)
      requires writeBufferLen + HEADER_SIZE + |f.payload| < writeBufferSize <= LARGEST_BUFFER
      requires writeBuffer.Length <= writeBufferSize && BufferSize(writeBufferSize)
      modifies this`writeBuffer, this`writeBufferLen, this`writableArmed, this`accepted, writeBuffer
      ensures WriterValid()
      ensures writeBuffer == old(writeBuffer) || fresh(writeBuffer)
      ensures Queued() == old(Queued()) + EncodeFrame(f)
      ensures writableArmed && writeBufferLen == old(writeBufferLen) + HEADER_SIZE + |f.payload|
      ensures accepted == old(accepted) + [f]
    {
      hide Decode, Encode, EncodeFrame, BufferSize;
      Reallocate();
      WriteFrame(f);
      if !writableArmed {
        writableArmed := true;
      }
      EncodeAppend(accepted, f);
      accepted := accepted + [f];
      assert outgoing + Queued() == outgoing + old(Queued()) + EncodeFrame(f);
    }

    method WriteFrame(f: Frame)
      requires writeBufferLen + HEADER_SIZE + |f.payload| <= writeBuffer.Length
      modifies this`writeBufferLen, writeBuffer
      ensures writeBufferLen == old(writeBufferLen) + HEADER_SIZE + |f.payload|
      ensures Queued() == old(Queued()) + EncodeFrame(f)
    {
      var data := Header(|f.payload|, f.kind);
      Append(data);
      Append(f.payload);
      assert Queued() == old(Queued()) + (data + f.payload);
    }

    /** memcpy to the end of the queued bytes. */
    method Append(bytes: seq<Byte>)
      requires writeBufferLen + |bytes| <= writeBuffer.Length
      modifies this`writeBufferLen, writeBuffer
      ensures writeBufferLen == old(writeBufferLen) + |bytes|
      ensures Queued() == old(Queued()) + bytes
    {
      forall k | 0 <= k < |bytes| {
        writeBuffer[writeBufferLen + k] := bytes[k];
      }
      writeBufferLen := writeBufferLen + |bytes|;
    }

    /** The doubling loop; within the limit it ends exactly when the message fits. */
    method ReserveSize(needed: nat)
      requires BufferSize(writeBufferSize) && writeBufferSize <= LARGEST_BUFFER
      modifies this`writeBufferSize
      ensures BufferSize(writeBufferSize) && old(writeBufferSize) <= writeBufferSize
      ensures needed < writeBufferSize
      ensures writeBufferSize <= LARGEST_BUFFER <==> needed < LARGEST_BUFFER
      ensures writeBufferSize <= BUFFER_LIMIT <==> needed < LARGEST_BUFFER
    {
      while needed >= writeBufferSize
        invariant BufferSize(writeBufferSize) && old(writeBufferSize) <= writeBufferSize
        invariant writeBufferSize == old(writeBufferSize) || writeBufferSize <= 2 * needed
        decreases needed - writeBufferSize
      {
        writeBufferSize := writeBufferSize * 2;
      }
      BufferSizeWithinLimit(writeBufferSize);
    }

    method Reallocate()
      requires writeBufferLen < writeBuffer.Length <= writeBufferSize
      modifies this`writeBuffer
      ensures writeBuffer == old(writeBuffer) || fresh(writeBuffer)
      ensures writeBuffer.Length == writeBufferSize
      ensures Queued() == old(Queued())
    {
      if writeBuffer.Length < writeBufferSize {
        var grown := new Byte[writeBufferSize];
        forall k | 0 <= k < writeBufferLen {
          grown[k] := writeBuffer[k];
        }
        writeBuffer := grown;
      }
    }

    method CloseGap(written: nat)
      requires written <= writeBufferLen <= writeBuffer.Length
      modifies this`writeBufferLen, writeBuffer
      ensures writeBufferLen == old(writeBufferLen) - written && Queued() == old(Queued())[written..]
    {
      forall k | 0 <= k < writeBufferLen - written {
        writeBuffer[k] := writeBuffer[k + written];
      }
      writeBufferLen := writeBufferLen - written;
    }

    /** write() took bytes; memmove closes the gap. */
    method Consume(written: nat)
      requires written <= writeBufferLen <= writeBuffer.Length
      modifies this`outgoing, this`writeBufferLen, writeBuffer
      ensures writeBufferLen == old(writeBufferLen) - written
      ensures outgoing == old(outgoing) + old(Queued())[..written]
      ensures Queued() == old(Queued())[written..]
      ensures outgoing + Queued() == old(outgoing + Queued())
    {
      ghost var queued := Queued();
      outgoing := outgoing + writeBuffer[..written];
      assert writeBuffer[..written] == queued[..written];
      CloseGap(written);
      assert old(outgoing) + queued == old(outgoing) + (queued[..written] + queued[written..]);
    }

    method HandleWritable(fault: Fault, result: WriteResult)
      requires Valid() && connected
      requires result.Written? ==> result.count <= writeBufferLen
      modifies this`connected, this`outgoing, this`writeBufferLen, this`writableArmed, writeBuffer
      ensures Valid()
      ensures old(outgoing) <= outgoing
      ensures connected ==> outgoing + Queued() == old(outgoing + Queued())
      ensures connected == !(fault.SocketError? || fault.Hangup? || (old(writeBufferLen) > 0 && result.Failed?))
      ensures |outgoing| == |old(outgoing)| + if connected && result.Written? then result.count else 0
      ensures connected && writeBufferLen == 0 ==> outgoing == Encode(accepted)
      ensures connected ==> (writableArmed <==> writeBufferLen > 0)
    {
      hide Decode, Encode, Header, BufferSize;
      if fault.SocketError? || fault.Hangup? {
        connected := false;
        return;
      }
      if writeBufferLen <= 0 {
        assert outgoing + Queued() == outgoing;
        return;
      }
      match result
      case Again =>
      case Failed =>
        connected := false;
      case Written(written) =>
        Consume(written);
        if writeBufferLen == 0 && writableArmed {
          writableArmed := false;
        }
    }
  }

  lemma WaitingTail(pendingLength: Word, pendingType: Word, incoming: seq<Byte>)
    requires |incoming| < if pendingLength > 0 then pendingLength else HEADER_SIZE
    ensures var tail := (if pendingLength > 0 then Header(pendingLength, pendingType) else []) + incoming;
      Decode(tail) == Decoding([], tail, false)
  {
    if pendingLength > 0 {
      HeaderRoundTrip(pendingLength, pendingType, incoming);
    }
  }

  /** A reader that waits has dispatched everything that the stream so far decodes to; what it has not
      dispatched is the pending header and the unread bytes. */
  lemma WaitingReader(dispatched: seq<Frame>, pendingLength: Word, pendingType: Word, incoming: seq<Byte>)
    requires |incoming| < if pendingLength > 0 then pendingLength else HEADER_SIZE
    ensures var pending := if pendingLength > 0 then Header(pendingLength, pendingType) else [];
      Decode(Encode(dispatched) + pending + incoming) == Decoding(dispatched, pending + incoming, false)
  {
    hide Encode, Header, Decode;
    var pending := if pendingLength > 0 then Header(pendingLength, pendingType) else [];
    assert Encode(dispatched) + pending + incoming == Encode(dispatched) + (pending + incoming);
    DecodeEncode(dispatched, pending + incoming);
    WaitingTail(pendingLength, pendingType, incoming);
    assert dispatched + [] == dispatched;
  }

  lemma MalformedTail(dispatched: seq<Frame>, tail: seq<Byte>)
    requires |tail| >= HEADER_SIZE && tail[..|MAGIC|] != MAGIC
    ensures Decode(Encode(dispatched) + tail) == Decoding(dispatched, tail, true)
  {
    DecodeEncode(dispatched, tail);
    assert dispatched + [] == dispatched;
  }

  /** Bytes after a malformed header are never looked at, and more bytes never take a frame back. */
  lemma DecodeMonotone(stream: seq<Byte>, more: seq<Byte>)
    ensures Decode(stream).frames <= Decode(stream + more).frames
    ensures Decode(stream).malformed ==>
      Decode(stream + more).malformed && Decode(stream + more).frames == Decode(stream).frames
  {
    hide Decode, Encode;
    var d := Decode(stream);
    DecodeRebuilds(stream);
    DecodeEncode(d.frames, d.rest + more);
    assert stream + more == Encode(d.frames) + (d.rest + more);
    if d.malformed {
      MalformedRest(stream);
      assert (d.rest + more)[..|MAGIC|] == d.rest[..|MAGIC|];
      MalformedTail(d.frames, d.rest + more);
    }
  }

  lemma {:induction false} MalformedRest(stream: seq<Byte>)
    requires Decode(stream).malformed
    ensures |Decode(stream).rest| >= HEADER_SIZE && Decode(stream).rest[..|MAGIC|] != MAGIC
    decreases |stream|
  {
    if stream[..|MAGIC|] == MAGIC {
      MalformedRest(stream[HEADER_SIZE + HeaderLength(stream)..]);
    }
  }

  // ----- every fragmentation of the request stream

  datatype ReaderEvent = Arrive(bytes: seq<Byte>) | Readable(fault: Fault, payloadFault: Fault)

  function Sent(events: seq<ReaderEvent>): seq<Byte> {
    if events == [] then []
    else Sent(events[..|events| - 1]) + Carried(events[|events| - 1])
  }

  function Carried(event: ReaderEvent): seq<Byte> {
    if event.Arrive? then event.bytes else []
  }

  predicate NoFaults(events: seq<ReaderEvent>) {
    forall e :: e in events && e.Readable? ==> e.fault.NoFault? && e.payloadFault.NoFault?
  }

  /** Runs a fresh client through any interleaving of arrivals and readable events. */
  method RunReader(events: seq<ReaderEvent>) returns (client: IpcClient)
    ensures fresh(client) && client.Valid()
    ensures client.dispatched <= Decode(Sent(events)).frames
    ensures NoFaults(events) && client.connected ==> client.arrived == Sent(events)
    ensures NoFaults(events) && !client.connected ==>
      Decode(Sent(events)).malformed && client.dispatched == Decode(Sent(events)).frames
  {
    hide Decode, Encode, Sent;
    client := new IpcClient();
    ghost var sent := [];
    assert Sent(events[..0]) == [] by { SentNothing(); }
    for i := 0 to |events|
      invariant fresh(client) && client.Valid() && sent == Sent(events[..i]) && client.arrived <= sent
      invariant client.connected ==> client.arrived == sent
      invariant NoFaults(events) && !client.connected ==>
        Decode(client.arrived).malformed && client.dispatched == Decode(client.arrived).frames
    {
      SentNext(events, i);
      sent := sent + Carried(events[i]);
      if client.connected {
        React(client, events[i]);
      }
    }
    assert events[..|events|] == events;
    RunEnds(client.dispatched, client.arrived, Sent(events));
  }

  method React(client: IpcClient, event: ReaderEvent)
    requires client.Valid() && client.connected
    modifies client
    ensures client.Valid() && client.writeBuffer == old(client.writeBuffer)
    ensures client.arrived == old(client.arrived) + Carried(event)
    ensures !client.connected && (event.Readable? ==> event.fault.NoFault? && event.payloadFault.NoFault?) ==>
      Decode(client.arrived).malformed && client.dispatched == Decode(client.arrived).frames
  {
    hide Decode, Encode;
    match event
    case Arrive(bytes) => client.Deliver(bytes);
    case Readable(fault, payloadFault) =>
      client.HandleReadable(fault, payloadFault);
  }

  /** What is sent is what arrives, in order. */
  lemma {:induction false} SentConcat(a: seq<ReaderEvent>, b: seq<ReaderEvent>)
    ensures Sent(a + b) == Sent(a) + Sent(b)
    decreases |b|
  {
    hide *;
    if b == [] {
      assert a + b == a;
      SentNothing();
    } else {
      var n := |b| - 1;
      SentConcat(a, b[..n]);
      SentSnoc(b[..n], b[n]);
      SentSnoc(a + b[..n], b[n]);
      assert b[..n] + [b[n]] == b && a + b[..n] + [b[n]] == a + b;
      assert Sent(a) + Sent(b[..n]) + Carried(b[n]) == Sent(a) + (Sent(b[..n]) + Carried(b[n]));
    }
  }

  lemma SentSnoc(events: seq<ReaderEvent>, e: ReaderEvent)
    ensures Sent(events + [e]) == Sent(events) + Carried(e)
  {
    assert (events + [e])[..|events|] == events;
  }

  lemma SentOne(e: ReaderEvent)
    ensures Sent([e]) == match e case Arrive(bytes) => bytes case Readable(_, _) => []
  {
    assert [e][..0] == [];
  }

  lemma SentNothing()
    ensures Sent([]) == []
  {
  }

  lemma SentNext(events: seq<ReaderEvent>, i: nat)
    requires i < |events|
    ensures Sent(events[..i + 1]) == Sent(events[..i]) + Carried(events[i])
  {
    assert events[..i + 1][..i] == events[..i];
  }

  lemma RunEnds(dispatched: seq<Frame>, arrived: seq<Byte>, sent: seq<Byte>)
    requires Encode(dispatched) <= arrived <= sent
    ensures dispatched <= Decode(sent).frames
    ensures Decode(arrived).malformed ==> Decode(sent).malformed && Decode(sent).frames == Decode(arrived).frames
  {
    hide Decode, Encode;
    var more := sent[|arrived|..];
    assert sent == arrived + more;
    DecodeMonotone(arrived, more);
    PrefixIsDecoded(dispatched, arrived);
  }

  lemma PrefixIsDecoded(frames: seq<Frame>, stream: seq<Byte>)
    requires Encode(frames) <= stream
    ensures frames <= Decode(stream).frames
  {
    DecodeEncode(frames, stream[|Encode(frames)|..]);
    assert stream == Encode(frames) + stream[|Encode(frames)|..];
  }

  /** Fragmentation does not matter: fed the same bytes in any pieces and then left to drain, the reader
      dispatches exactly the decoding of the bytes. */
  method RunReaderToEnd(events: seq<ReaderEvent>) returns (client: IpcClient)
    requires NoFaults(events)
    ensures client.Valid() && client.dispatched == Decode(Sent(events)).frames
    ensures client.connected == !Decode(Sent(events)).malformed
  {
    client := RunReader(events);
    if client.connected {
      client.Drain();
      if client.connected {
        WaitingReader(client.dispatched, client.pendingLength, client.pendingType, client.incoming);
      }
    }
  }
}
