/** The receiving end of the i3-IPC transport (common/ipc-client.c), run against the compositor's side
    with the two interleaved in every possible way. */
module IpcClientSide {
  import opened Common
  import opened IpcProtocol
  import opened IpcServer

  /** What the compositor does for one client: queue a reply or an event, or handle a writable event. */
  datatype ServerStep = Queue(kind: Word, payload: Payload) | Writable(fault: Fault, result: WriteResult)

  datatype RecvResult = RecvError | Bytes(count: nat)

  /** What the compositor does while the client is in recv(), and then what recv() makes of it: it takes as much as
      `count` says of what is there, but at least a byte; if nothing is there it waits on, for the next turn, unless the
      compositor has closed the connection. */
  datatype Turn = Turn(steps: seq<ServerStep>, result: RecvResult)

  /** How a call of ipc_recv_response stands: returned, aborted, or still waiting in recv(). */
  datatype Outcome = Returned | Aborted | Waiting

  // ----- what the compositor's side of a conversation comes to

  /** The server as the conversation sees it: what it has queued, and how many bytes of that it has written. */
  datatype Link = Link(connected: bool, accepted: seq<Frame>, sent: nat)

  ghost function LinkOf(server: IpcClient): Link
    reads server
  {
    Link(server.connected, server.accepted, |server.outgoing|)
  }

  ghost function Unsent(l: Link): nat {
    if l.sent <= |Encode(l.accepted)| then |Encode(l.accepted)| - l.sent else 0
  }

  /** One step: a message is queued if it fits, and otherwise the client is dropped; a write takes what it takes. */
  ghost function Stepped(l: Link, step: ServerStep): Link {
    if !l.connected then l
    else match step
      case Queue(kind, payload) =>
        if Fits(Unsent(l), |payload|) then l.(accepted := l.accepted + [Frame(kind, payload)])
        else l.(connected := false)
      case Writable(fault, result) =>
        if fault.SocketError? || fault.Hangup? || (Unsent(l) > 0 && result.Failed?) then l.(connected := false)
        else if result.Written? then l.(sent := l.sent + Min(result.count, Unsent(l)))
        else l
  }

  ghost function Served(l: Link, steps: seq<ServerStep>): Link {
    if steps == [] then l else Stepped(Served(l, steps[..|steps| - 1]), steps[|steps| - 1])
  }

  function Queues(steps: seq<ServerStep>): seq<Frame> {
    if steps == [] then [] else
      var last := steps[|steps| - 1];
      Queues(steps[..|steps| - 1]) + if last.Queue? then [Frame(last.kind, last.payload)] else []
  }

  /** What is queued is what the steps queue, up to the one that drops the client if there is one. */
  lemma {:induction false} ServedQueues(l: Link, steps: seq<ServerStep>)
    ensures var r := Served(l, steps);
      && l.accepted <= r.accepted <= l.accepted + Queues(steps)
      && (r.connected ==> l.connected && r.accepted == l.accepted + Queues(steps))
      && l.sent <= r.sent
  {
    if steps == [] {
      assert l.accepted + [] == l.accepted;
    } else {
      var n := |steps| - 1;
      ServedQueues(l, steps[..n]);
      var before := Served(l, steps[..n]);
      assert l.accepted + Queues(steps[..n]) <= l.accepted + Queues(steps);
    }
  }

  lemma ServedNext(l: Link, steps: seq<ServerStep>, i: nat)
    requires i < |steps|
    ensures Served(l, steps[..i + 1]) == Stepped(Served(l, steps[..i]), steps[i])
  {
    assert steps[..i + 1][..i] == steps[..i];
  }

  method Step(server: IpcClient, step: ServerStep)
    requires server.Valid()
    modifies server, server.writeBuffer
    ensures server.Valid() && (server.writeBuffer == old(server.writeBuffer) || fresh(server.writeBuffer))
    ensures old(server.outgoing) <= server.outgoing && old(server.accepted) <= server.accepted
    ensures LinkOf(server) == Stepped(old(LinkOf(server)), step)
  {
    hide Encode;
    if server.connected {
      assert |server.outgoing + server.Queued()| == |Encode(server.accepted)|;
      match step
      case Queue(kind, payload) =>
        var _ := server.QueueReply(kind, payload);
      case Writable(fault, result) =>
        server.HandleWritable(fault,
          if result.Written? && result.count > server.writeBufferLen then Written(server.writeBufferLen) else result);
    }
  }

  method Serve(server: IpcClient, steps: seq<ServerStep>)
    requires server.Valid()
    modifies server, server.writeBuffer
    ensures server.Valid() && (server.writeBuffer == old(server.writeBuffer) || fresh(server.writeBuffer))
    ensures old(server.outgoing) <= server.outgoing && old(server.accepted) <= server.accepted
    ensures LinkOf(server) == Served(old(LinkOf(server)), steps)
  {
    hide Encode, Stepped, Served;
    ghost var l := LinkOf(server);
    assert Served(l, steps[..0]) == l by { ServedNothing(l); }
    for i := 0 to |steps|
      invariant server.Valid() && (server.writeBuffer == old(server.writeBuffer) || fresh(server.writeBuffer))
      invariant old(server.outgoing) <= server.outgoing && old(server.accepted) <= server.accepted
      invariant LinkOf(server) == Served(l, steps[..i])
    {
      ServedNext(l, steps, i);
      Step(server, steps[i]);
    }
    assert steps[..|steps|] == steps;
  }

  lemma ServedNothing(l: Link)
    ensures Served(l, []) == l
  {
  }

  // ----- what the client's side comes to

  /** How many bytes recv() is asked for when `read` bytes are taken: those missing from a header or a payload. */
  ghost function Room(frames: seq<Frame>, read: nat): nat {
    if frames == [] then (if read < HEADER_SIZE then HEADER_SIZE - read else 0)
    else
      var n := |EncodeFrame(frames[0])|;
      if read >= n then Room(frames[1..], read - n) else if read < HEADER_SIZE then HEADER_SIZE - read else n - read
  }

  ghost predicate InHeader(frames: seq<Frame>, read: nat) {
    if frames == [] then read < HEADER_SIZE
    else
      var n := |EncodeFrame(frames[0])|;
      if read >= n then InHeader(frames[1..], read - n) else read < HEADER_SIZE
  }

  /** A conversation so far. It ends when recv() fails, or meets the end of the stream while a header is read. */
  datatype Talk = Talk(link: Link, read: nat, aborted: bool)

  const START := Talk(Link(true, [], 0), 0, false)

  ghost function Taken(l: Link, read: nat, result: RecvResult): nat {
    if result.RecvError? || l.sent <= read then 0
    else Min(Max(result.count, 1), Min(Room(l.accepted, read), l.sent - read))
  }

  ghost predicate Ended(l: Link, read: nat) {
    !l.connected && l.sent <= read
  }

  ghost function Heard(t: Talk, turn: Turn): Talk {
    if t.aborted then t else
      var l := Served(t.link, turn.steps);
      var n := Taken(l, t.read, turn.result);
      Talk(l, t.read + n, turn.result.RecvError? || (Ended(l, t.read) && InHeader(l.accepted, t.read)))
  }

  ghost function Listen(t: Talk, turns: seq<Turn>): Talk {
    if turns == [] then t else Heard(Listen(t, turns[..|turns| - 1]), turns[|turns| - 1])
  }

  lemma ListenNext(t: Talk, turns: seq<Turn>, i: nat)
    requires i < |turns|
    ensures Listen(t, turns[..i + 1]) == Heard(Listen(t, turns[..i]), turns[i])
  {
    assert turns[..i + 1][..i] == turns[..i];
  }

  lemma {:induction false} ListenConcat(t: Talk, a: seq<Turn>, b: seq<Turn>)
    ensures Listen(t, a + b) == Listen(Listen(t, a), b)
    decreases |b|
  {
    hide Heard;
    if b == [] {
      assert a + b == a;
    } else {
      var n := |b| - 1;
      ListenConcat(t, a, b[..n]);
      assert (a + b)[..|a| + n] == a + b[..n];
    }
  }

  lemma {:induction false} ListenAborted(t: Talk, turns: seq<Turn>)
    requires t.aborted
    ensures Listen(t, turns) == t
  {
    if turns != [] {
      ListenAborted(t, turns[..|turns| - 1]);
    }
  }

  /** The room behind k whole messages and d more bytes. */
  lemma {:induction false} RoomAt(frames: seq<Frame>, k: nat, d: nat)
    requires k <= |frames| && if k < |frames| then d < |EncodeFrame(frames[k])| else d == 0
    ensures InHeader(frames, |Encode(frames[..k])| + d) == (d < HEADER_SIZE)
    ensures Room(frames, |Encode(frames[..k])| + d) ==
      if d < HEADER_SIZE then HEADER_SIZE - d else |EncodeFrame(frames[k])| - d
    decreases k
  {
    hide EncodeFrame;
    if k == 0 {
      assert frames[..0] == [] && Encode([]) == [];
    } else {
      RoomAt(frames[1..], k - 1, d);
      assert frames[..k] == [frames[0]] + frames[1..][..k - 1];
      EncodeCons(frames[0], frames[1..][..k - 1]);
      assert k < |frames| ==> frames[1..][k - 1] == frames[k];
    }
  }

  /** A stream that starts with whole accepted messages goes on with the header of the next one. */
  lemma NextMessage(accepted: seq<Frame>, k: nat, more: seq<Byte>)
    requires k <= |accepted| && Encode(accepted[..k]) + more <= Encode(accepted)
    ensures more != [] ==> k < |accepted|
    ensures k < |accepted| ==> var bytes := EncodeFrame(accepted[k]);
      more[..Min(|more|, |bytes|)] == bytes[..Min(|more|, |bytes|)]
  {
    hide Encode, EncodeFrame;
    RestOfStream(accepted, k, more);
    if k < |accepted| {
      assert accepted[k..] == [accepted[k]] + accepted[k + 1..];
      EncodeCons(accepted[k], accepted[k + 1..]);
    } else {
      assert accepted[k..] == [];
      assert Encode([]) == [] by { EncodeNothing(); }
    }
  }

  lemma EncodeNothing()
    ensures Encode([]) == []
  {
  }

  lemma RestOfStream(accepted: seq<Frame>, k: nat, more: seq<Byte>)
    requires k <= |accepted| && Encode(accepted[..k]) + more <= Encode(accepted)
    ensures more <= Encode(accepted[k..])
  {
    hide Encode;
    assert accepted == accepted[..k] + accepted[k..];
    EncodeConcat(accepted[..k], accepted[k..]);
    var n := |Encode(accepted[..k])|;
    assert Encode(accepted)[n..] == Encode(accepted[k..]);
    assert more == Encode(accepted)[n..n + |more|];
  }

  /** Once the header is in, it names the length and type of the next message. */
  lemma NextHeader(accepted: seq<Frame>, k: nat, data: seq<Byte>)
    requires k <= |accepted| && Encode(accepted[..k]) + data <= Encode(accepted)
    requires |data| == HEADER_SIZE
    ensures k < |accepted| && data == Header(|accepted[k].payload|, accepted[k].kind)
    ensures HeaderLength(data) == |accepted[k].payload| && HeaderKind(data) == accepted[k].kind
  {
    NextMessage(accepted, k, data);
    var f := accepted[k];
    assert EncodeFrame(f)[..HEADER_SIZE] == Header(|f.payload|, f.kind);
    assert data == data[..HEADER_SIZE];
    HeaderRoundTrip(|f.payload|, f.kind, []);
    assert data + [] == data;
  }

  lemma NextPayload(accepted: seq<Frame>, k: nat, data: seq<Byte>, payload: seq<Byte>)
    requires k < |accepted| && Encode(accepted[..k]) + (data + payload) <= Encode(accepted)
    requires data == Header(|accepted[k].payload|, accepted[k].kind)
    requires |payload| == |accepted[k].payload|
    ensures payload == accepted[k].payload
    ensures Encode(accepted[..k]) + (data + payload) == Encode(accepted[..k + 1])
  {
    var f := accepted[k];
    NextMessage(accepted, k, data + payload);
    assert |EncodeFrame(f)| == |data + payload|;
    assert data + payload == (data + payload)[..|data + payload|];
    assert data + payload == EncodeFrame(f);
    assert payload == (data + payload)[HEADER_SIZE..];
    assert accepted[..k + 1] == accepted[..k] + [f];
    EncodeAppend(accepted[..k], f);
  }

  lemma ListenNothing(t: Talk)
    ensures Listen(t, []) == t
  {
  }

  lemma FrameHasHeader(f: Frame)
    ensures |EncodeFrame(f)| == HEADER_SIZE + |f.payload|
  {
  }

  class ResponseReader {
    var responses: seq<Frame>   // what the calls so far have returned
    var received: seq<Byte>     // what recv() has taken off the stream

    /** Between calls. */
    ghost predicate Valid(server: IpcClient)
      reads this, server, server.writeBuffer
    {
      && server.Valid() && received <= server.outgoing
      && responses <= server.accepted && received == Encode(responses)
    }

    /** Inside a call: the messages so far, and d bytes of the next one. */
    ghost predicate Reading(server: IpcClient, d: nat)
      reads this, server, server.writeBuffer
    {
      && server.Valid() && received <= server.outgoing && responses <= server.accepted
      && Encode(responses) <= received && |received| == |Encode(responses)| + d
      && (d > 0 ==> |responses| < |server.accepted|)
      && (|responses| < |server.accepted| ==> d < |EncodeFrame(server.accepted[|responses|])|)
    }

    ghost function Now(server: IpcClient, aborted: bool): Talk
      reads this, server
    {
      Talk(LinkOf(server), |received|, aborted)
    }

    constructor ()
      ensures responses == [] && received == []
    {
      responses, received := [], [];
    }

    /** recv(): bytes at the front of the unread stream, at most `room` of them. None without an error and without
        the end of the stream is a turn spent waiting. */
    method Recv(server: IpcClient, turn: Turn, room: nat, ghost d: nat)
      returns (bytes: seq<Byte>, error: bool, ended: bool)
      requires Reading(server, d)
      requires if d < HEADER_SIZE then room == HEADER_SIZE - d
        else room == |EncodeFrame(server.accepted[|responses|])| - d
      modifies this`received, server, server.writeBuffer
      ensures server.Valid() && (server.writeBuffer == old(server.writeBuffer) || fresh(server.writeBuffer))
      ensures received == old(received) + bytes && received <= server.outgoing
      ensures old(server.accepted) <= server.accepted
      ensures |bytes| <= room && (error || ended ==> bytes == []) && error == turn.result.RecvError?
      ensures Now(server, error || (ended && d < HEADER_SIZE)) == Heard(old(Now(server, false)), turn)
    {
      hide Encode, EncodeFrame, Room, InHeader, Served;
      Serve(server, turn.steps);
      if |responses| < |server.accepted| {
        FrameHasHeader(server.accepted[|responses|]);
      }
      RoomHere(server, d);
      var available := |server.outgoing| - |received|;
      bytes, error, ended := [], turn.result.RecvError?, !server.connected && available == 0;
      if turn.result.Bytes? && available > 0 {
        var count := Min(Max(turn.result.count, 1), Min(room, available));
        bytes := server.outgoing[|received|..|received| + count];
        received := received + bytes;
      }
    }

    lemma RoomHere(server: IpcClient, d: nat)
      requires responses <= server.accepted && |received| == |Encode(responses)| + d
      requires d > 0 ==> |responses| < |server.accepted|
      requires |responses| < |server.accepted| ==> d < |EncodeFrame(server.accepted[|responses|])|
      ensures InHeader(server.accepted, |received|) == (d < HEADER_SIZE)
      ensures Room(server.accepted, |received|) ==
        if d < HEADER_SIZE then HEADER_SIZE - d else |EncodeFrame(server.accepted[|responses|])| - d
    {
      hide Encode, EncodeFrame, Room, InHeader;
      assert server.accepted[..|responses|] == responses;
      RoomAt(server.accepted, |responses|, d);
    }

    /** `data` has been taken since the last whole message. */
    ghost predicate At(server: IpcClient, data: seq<Byte>)
      reads this, server, server.writeBuffer
    {
      && server.Valid() && received <= server.outgoing && responses <= server.accepted
      && received == Encode(responses) + data
    }

    lemma AtHeader(server: IpcClient, data: seq<Byte>)
      requires At(server, data) && |data| < HEADER_SIZE
      ensures Reading(server, |data|)
    {
      hide Encode, EncodeFrame;
      assert server.accepted[..|responses|] == responses;
      NextMessage(server.accepted, |responses|, data);
      if |responses| < |server.accepted| {
        FrameHasHeader(server.accepted[|responses|]);
      }
    }

    lemma HeaderNames(server: IpcClient, header: seq<Byte>)
      requires At(server, header) && |header| == HEADER_SIZE
      ensures |responses| < |server.accepted|
      ensures var f := server.accepted[|responses|];
        header == Header(|f.payload|, f.kind) && HeaderLength(header) == |f.payload| && HeaderKind(header) == f.kind
    {
      hide Encode, EncodeFrame, Header, HeaderLength, HeaderKind;
      assert server.accepted[..|responses|] == responses;
      NextHeader(server.accepted, |responses|, header);
    }

    lemma AtPayload(server: IpcClient, header: seq<Byte>, payload: seq<Byte>, f: Frame)
      requires At(server, header + payload) && |header| == HEADER_SIZE && |payload| < |f.payload|
      requires |responses| < |server.accepted| && server.accepted[|responses|] == f
      ensures Reading(server, HEADER_SIZE + |payload|)
    {
      hide Encode, EncodeFrame;
      FrameHasHeader(f);
    }

    lemma MessageDone(server: IpcClient, header: seq<Byte>, payload: Payload, f: Frame)
      requires At(server, header + payload) && |header| == HEADER_SIZE && |payload| == |f.payload|
      requires |responses| < |server.accepted| && server.accepted[|responses|] == f
      requires header == Header(|f.payload|, f.kind)
      ensures payload == f.payload && responses + [f] <= server.accepted && received == Encode(responses + [f])
    {
      hide Encode, EncodeFrame, Header;
      assert server.accepted[..|responses|] == responses;
      NextPayload(server.accepted, |responses|, header, payload);
      assert server.accepted[..|responses| + 1] == responses + [f];
    }

    /** The loop that reads a header; Returned means that it is complete. */
    method ReceiveHeader(server: IpcClient, turns: seq<Turn>, ghost begin: Talk)
      returns (outcome: Outcome, used: nat, data: seq<Byte>)
      requires Valid(server) && Now(server, false) == begin
      modifies this`received, server, server.writeBuffer
      ensures server.Valid() && (server.writeBuffer == old(server.writeBuffer) || fresh(server.writeBuffer))
      ensures used <= |turns| && (outcome.Waiting? ==> used == |turns|) && (!outcome.Waiting? ==> used > 0)
      ensures Now(server, outcome.Aborted?) == Listen(begin, turns[..used])
      ensures if outcome.Returned? then At(server, data) && |data| == HEADER_SIZE else Reading(server, |data|)
    {
      hide Encode, EncodeFrame, Listen, Heard, Served;
      used, data := 0, [];
      assert Listen(begin, turns[..0]) == begin by { ListenNothing(begin); }
      while |data| < HEADER_SIZE
        invariant used <= |turns| && |data| <= HEADER_SIZE && (data != [] ==> used > 0) && At(server, data)
        invariant server.writeBuffer == old(server.writeBuffer) || fresh(server.writeBuffer)
        invariant Now(server, false) == Listen(begin, turns[..used])
        decreases |turns| - used
      {
        AtHeader(server, data);
        if used == |turns| {
          return Waiting, used, data;
        }
        ListenNext(begin, turns, used);
        var bytes, error, ended := Recv(server, turns[used], HEADER_SIZE - |data|, |data|);
        used := used + 1;
        if error || ended {
          assert received == Encode(responses) + data;
          AtHeader(server, data);
          return Aborted, used, data;
        }
        assert received == Encode(responses) + (data + bytes);
        data := data + bytes;
      }
      return Returned, used, data;
    }

    /** The loop that reads a payload. */
    method ReceivePayload(server: IpcClient, turns: seq<Turn>, from: nat, size: nat, ghost begin: Talk,
                          ghost header: seq<Byte>, ghost f: Frame)
      returns (outcome: Outcome, used: nat, payload: seq<Byte>)
      requires At(server, header) && |header| == HEADER_SIZE && size == |f.payload| && 0 < from <= |turns|
      requires |responses| < |server.accepted| && server.accepted[|responses|] == f
      requires Now(server, false) == Listen(begin, turns[..from])
      modifies this`received, server, server.writeBuffer
      ensures server.Valid() && (server.writeBuffer == old(server.writeBuffer) || fresh(server.writeBuffer))
      ensures from <= used <= |turns| && (outcome.Waiting? ==> used == |turns|)
      ensures Now(server, outcome.Aborted?) == Listen(begin, turns[..used])
      ensures |responses| < |server.accepted| && server.accepted[|responses|] == f
      ensures if outcome.Returned? then At(server, header + payload) && |payload| == size
        else Reading(server, HEADER_SIZE + |payload|)
    {
      hide Encode, EncodeFrame, Listen, Heard, Served;
      used, payload := from, [];
      assert header + payload == header;
      while |payload| < size
        invariant from <= used <= |turns| && |payload| <= size && At(server, header + payload)
        invariant server.writeBuffer == old(server.writeBuffer) || fresh(server.writeBuffer)
        invariant |responses| < |server.accepted| && server.accepted[|responses|] == f
        invariant Now(server, false) == Listen(begin, turns[..used])
        decreases |turns| - used
      {
        AtPayload(server, header, payload, f);
        if used == |turns| {
          return Waiting, used, payload;
        }
        ListenNext(begin, turns, used);
        FrameHasHeader(f);
        var bytes, error, _ := Recv(server, turns[used], size - |payload|, HEADER_SIZE + |payload|);
        used := used + 1;
        assert received == Encode(responses) + (header + (payload + bytes));
        if error {
          assert payload + bytes == payload;
          AtPayload(server, header, payload, f);
          return Aborted, used, payload;
        }
        assert header + payload + bytes == header + (payload + bytes);
        payload := payload + bytes;
      }
      return Returned, used, payload;
    }

    /** ipc_recv_response: the turns that it uses are heard as specified; a call that returns has taken one message, and
        one that waits has used up the turns. An end of stream aborts only while the header is read. */
    method ReceiveResponse(server: IpcClient, turns: seq<Turn>) returns (outcome: Outcome, used: nat)
      requires Valid(server)
      modifies this, server, server.writeBuffer
      ensures server.Valid() && (server.writeBuffer == old(server.writeBuffer) || fresh(server.writeBuffer))
      ensures used <= |turns| && (outcome.Waiting? ==> used == |turns|) && (!outcome.Waiting? ==> used > 0)
      ensures Now(server, outcome.Aborted?) == Listen(old(Now(server, false)), turns[..used])
      ensures outcome.Returned? ==> Valid(server) && |responses| == |old(responses)| + 1 && old(responses) <= responses
      ensures !outcome.Returned? ==> responses == old(responses) && exists d :: Reading(server, d)
    {
      hide Decode, Encode, EncodeFrame, Header, HeaderLength, HeaderKind, Listen, Heard, Served;
      ghost var begin := Now(server, false);
      var header;
      outcome, used, header := ReceiveHeader(server, turns, begin);
      if !outcome.Returned? {
        return;
      }
      var size, kind := HeaderLength(header), HeaderKind(header);
      HeaderNames(server, header);
      ghost var f := server.accepted[|responses|];
      var bytes;
      outcome, used, bytes := ReceivePayload(server, turns, used, size, begin, header, f);
      if outcome.Returned? {
        var payload: Payload := bytes;
        MessageDone(server, header, payload, f);
        responses := responses + [Frame(kind, payload)];
      }
    }
  }

  /** Any conversation: the client keeps asking for responses while the compositor queues and writes. The turns are
      heard as specified, to the end or to the recv() that aborts. What the client has decoded is always exactly the
      whole messages among the bytes that it took, and these are a prefix, unaltered, of what was queued; once all is
      read on a live connection they are all that the steps queue. */
  method Converse(turns: seq<Turn>) returns (client: ResponseReader, server: IpcClient, aborted: bool)
    ensures server.Valid() && client.Now(server, aborted) == Listen(START, turns)
    ensures client.received <= server.outgoing <= Encode(server.accepted)
    ensures client.responses <= server.accepted && client.responses == Decode(client.received).frames
    ensures server.connected ==>
      client.received + server.outgoing[|client.received|..] + server.Queued() == Encode(server.accepted)
    ensures !aborted && server.connected && client.received == Encode(server.accepted) ==>
      client.responses == server.accepted == AllQueued(turns)
  {
    hide Listen, Encode, Decode, AllQueued;
    server := new IpcClient();
    client := new ResponseReader();
    aborted := false;
    var used := 0;
    assert [] == Encode([]) by { EncodeNothing(); }
    assert Listen(START, turns[..0]) == START by { ListenNothing(START); }
    while used < |turns|
      invariant used <= |turns| && fresh(client) && fresh(server) && fresh(server.writeBuffer)
      invariant client.Valid(server) && client.Now(server, false) == Listen(START, turns[..used])
      decreases |turns| - used
    {
      var outcome;
      outcome, used := NextResponse(client, server, turns, used);
      if !outcome.Returned? {
        aborted := outcome.Aborted?;
        ghost var d: nat :| client.Reading(server, d);
        RestUnheard(turns, used, aborted);
        TalkEnds(client, server, d);
        AllRead(client, server, aborted, turns);
        return;
      }
    }
    assert turns[..used] == turns;
    WholeIsReading(client, server);
    TalkEnds(client, server, 0);
    AllRead(client, server, aborted, turns);
  }

  /** One call of the client, in the middle of a conversation. */
  method NextResponse(client: ResponseReader, server: IpcClient, turns: seq<Turn>, from: nat)
    returns (outcome: Outcome, used: nat)
    requires from < |turns| && client.Valid(server) && client.Now(server, false) == Listen(START, turns[..from])
    modifies client, server, server.writeBuffer
    ensures server.Valid() && (server.writeBuffer == old(server.writeBuffer) || fresh(server.writeBuffer))
    ensures from <= used <= |turns| && client.Now(server, outcome.Aborted?) == Listen(START, turns[..used])
    ensures outcome.Returned? ==> from < used && client.Valid(server)
    ensures !outcome.Returned? ==> (outcome.Waiting? ==> used == |turns|) && exists d :: client.Reading(server, d)
  {
    hide Listen, Encode, Decode;
    var n;
    outcome, n := client.ReceiveResponse(server, turns[from..]);
    ListenPart(turns, from, n);
    used := from + n;
  }

  lemma ListenPart(turns: seq<Turn>, used: nat, n: nat)
    requires used + n <= |turns|
    ensures Listen(START, turns[..used + n]) == Listen(Listen(START, turns[..used]), turns[used..][..n])
  {
    hide Listen;
    ListenConcat(START, turns[..used], turns[used..][..n]);
    assert turns[..used] + turns[used..][..n] == turns[..used + n];
  }

  lemma RestUnheard(turns: seq<Turn>, used: nat, aborted: bool)
    requires used <= |turns| && (if aborted then Listen(START, turns[..used]).aborted else used == |turns|)
    ensures Listen(START, turns) == Listen(START, turns[..used])
  {
    assert turns == turns[..used] + turns[used..];
    if aborted {
      ListenConcat(START, turns[..used], turns[used..]);
      ListenAborted(Listen(START, turns[..used]), turns[used..]);
    } else {
      assert turns[..used] == turns;
    }
  }

  lemma WholeIsReading(client: ResponseReader, server: IpcClient)
    requires client.Valid(server)
    ensures client.Reading(server, 0)
  {
    if |client.responses| < |server.accepted| {
      FrameHasHeader(server.accepted[|client.responses|]);
    }
  }

  lemma TalkEnds(client: ResponseReader, server: IpcClient, d: nat)
    requires client.Reading(server, d)
    ensures client.received <= server.outgoing <= Encode(server.accepted)
    ensures client.responses == Decode(client.received).frames
    ensures server.connected ==>
      client.received + server.outgoing[|client.received|..] + server.Queued() == Encode(server.accepted)
  {
    hide Encode, Decode, EncodeFrame;
    PartDecodes(server.accepted, client.responses, client.received, d);
    assert client.received + server.outgoing[|client.received|..] == server.outgoing;
  }

  lemma AllRead(client: ResponseReader, server: IpcClient, aborted: bool, turns: seq<Turn>)
    requires client.Now(server, aborted) == Listen(START, turns)
    requires client.responses == Decode(client.received).frames
    ensures !aborted && server.connected && client.received == Encode(server.accepted) ==>
      client.responses == server.accepted == AllQueued(turns)
  {
    hide Listen, Encode, Decode, AllQueued;
    WholeDecodes(server.accepted);
    if !aborted && server.connected {
      ListenQueues(START, turns);
    }
  }

  lemma WholeDecodes(frames: seq<Frame>)
    ensures Decode(Encode(frames)).frames == frames
  {
    DecodeEncode(frames, []);
    assert Encode(frames) + [] == Encode(frames) && Decode([]).frames == [];
  }

  /** Less than a message behind whole ones decodes to the whole ones. */
  lemma PartDecodes(accepted: seq<Frame>, frames: seq<Frame>, received: seq<Byte>, d: nat)
    requires frames <= accepted && Encode(frames) <= received <= Encode(accepted)
    requires |received| == |Encode(frames)| + d && (d > 0 ==> |frames| < |accepted|)
    requires |frames| < |accepted| ==> d < |EncodeFrame(accepted[|frames|])|
    ensures Decode(received).frames == frames
  {
    hide Encode, Decode, EncodeFrame;
    var part := received[|Encode(frames)|..];
    assert received == Encode(frames) + part;
    DecodeEncode(frames, part);
    assert frames + [] == frames;
    if d == 0 {
      assert part == [];
      assert Decode([]).frames == [] by { DecodeNothing(); }
    } else {
      var f := accepted[|frames|];
      assert accepted[..|frames|] == frames;
      NextMessage(accepted, |frames|, part);
      assert part == part[..d];
      PartOfFrame(f, part);
    }
  }

  lemma DecodeNothing()
    ensures Decode([]).frames == []
  {
  }

  lemma PartOfFrame(f: Frame, part: seq<Byte>)
    requires |part| < |EncodeFrame(f)| && part == EncodeFrame(f)[..|part|]
    ensures Decode(part).frames == []
  {
    hide Header, HeaderLength, HeaderKind;
    var h := Header(|f.payload|, f.kind);
    if |part| >= HEADER_SIZE {
      assert part[..HEADER_SIZE] == h;
      assert part == h + part[HEADER_SIZE..];
      HeaderRoundTrip(|f.payload|, f.kind, part[HEADER_SIZE..]);
    }
  }

  // ----- nothing is held back

  lemma {:induction false} ServedWithin(l: Link, steps: seq<ServerStep>)
    requires l.sent <= |Encode(l.accepted)|
    ensures var r := Served(l, steps); l.sent <= r.sent <= |Encode(r.accepted)|
  {
    hide Encode;
    if steps != [] {
      var n := |steps| - 1;
      ServedWithin(l, steps[..n]);
      var before := Served(l, steps[..n]);
      if steps[n].Queue? {
        EncodeConcat(before.accepted, [Frame(steps[n].kind, steps[n].payload)]);
      }
    }
  }

  function AllQueued(turns: seq<Turn>): seq<Frame> {
    if turns == [] then [] else AllQueued(turns[..|turns| - 1]) + Queues(turns[|turns| - 1].steps)
  }

  lemma {:induction false} ListenQueues(t: Talk, turns: seq<Turn>)
    requires !Listen(t, turns).aborted && Listen(t, turns).link.connected
    ensures t.link.connected && Listen(t, turns).link.accepted == t.link.accepted + AllQueued(turns)
  {
    hide Served, Room, InHeader, Queues;
    if turns == [] {
      assert t.link.accepted + [] == t.link.accepted;
    } else {
      var n := |turns| - 1;
      var before := Listen(t, turns[..n]);
      ServedQueues(before.link, turns[n].steps);
      ListenQueues(t, turns[..n]);
    }
  }

  /** A turn in which the compositor writes something, if there is anything to write, and recv() does not fail. */
  ghost predicate Delivers(turn: Turn) {
    turn.result.Bytes? && turn.steps != [] && Writes(turn.steps)
  }

  ghost predicate Writes(steps: seq<ServerStep>) {
    forall i :: 0 <= i < |steps| ==>
      steps[i].Writable? && steps[i].fault.NoFault? && steps[i].result.Written? && steps[i].result.count > 0
  }

  lemma {:induction false} WritesOnly(l: Link, steps: seq<ServerStep>)
    requires l.connected && l.sent <= |Encode(l.accepted)| && Writes(steps)
    ensures var r := Served(l, steps);
      && r.connected && r.accepted == l.accepted
      && Min(l.sent + |steps|, |Encode(l.accepted)|) <= r.sent <= |Encode(l.accepted)|
  {
    hide Encode;
    if steps != [] {
      WritesOnly(l, steps[..|steps| - 1]);
    }
  }

  /** There is always room: a header or a payload is never asked for when it is complete. */
  lemma {:induction false} RoomIsThere(frames: seq<Frame>, read: nat)
    requires read <= |Encode(frames)|
    ensures Room(frames, read) > 0
  {
    hide EncodeFrame;
    if frames != [] {
      FrameHasHeader(frames[0]);
      EncodeCons(frames[0], frames[1..]);
      assert [frames[0]] + frames[1..] == frames;
      if read >= |EncodeFrame(frames[0])| {
        RoomIsThere(frames[1..], read - |EncodeFrame(frames[0])|);
      }
    }
  }

  ghost predicate Within(t: Talk) {
    t.read <= t.link.sent <= |Encode(t.link.accepted)|
  }

  lemma {:induction false} ListenWithin(t: Talk, turns: seq<Turn>)
    requires Within(t)
    ensures Within(Listen(t, turns))
  {
    hide Served, Encode, Room, InHeader;
    if turns != [] {
      var n := |turns| - 1;
      ListenWithin(t, turns[..n]);
      ServedWithin(Listen(t, turns[..n]).link, turns[n].steps);
    }
  }

  /** Each turn that delivers takes at least a byte over, until there is none left; it may take many. */
  lemma {:induction false} DrainReads(t: Talk, drain: seq<Turn>)
    requires !t.aborted && t.link.connected && Within(t) && forall i :: 0 <= i < |drain| ==> Delivers(drain[i])
    ensures var r, size := Listen(t, drain), |Encode(t.link.accepted)|;
      && !r.aborted && r.link.connected && r.link.accepted == t.link.accepted
      && Within(r) && Min(t.read + |drain|, size) <= r.read
  {
    hide Served, Encode, Room, InHeader;
    if drain != [] {
      var n := |drain| - 1;
      DrainReads(t, drain[..n]);
      var before := Listen(t, drain[..n]);
      WritesOnly(before.link, drain[n].steps);
      RoomIsThere(before.link.accepted, before.read);
    }
  }

  lemma {:induction false} DrainQueuesNothing(turns: seq<Turn>, drain: seq<Turn>)
    requires forall i :: 0 <= i < |drain| ==> Delivers(drain[i])
    ensures AllQueued(turns + drain) == AllQueued(turns)
    decreases |drain|
  {
    hide Delivers, Queues;
    if drain == [] {
      assert turns + drain == turns;
    } else {
      var n := |drain| - 1;
      var all := turns + drain;
      DrainQueuesNothing(turns, drain[..n]);
      assert all[..|all| - 1] == turns + drain[..n] && all[|all| - 1] == drain[n];
      WritesQueueNothing(drain[n]);
      assert AllQueued(all) == AllQueued(turns) + [];
    }
  }

  lemma WritesQueueNothing(turn: Turn)
    requires Delivers(turn)
    ensures Queues(turn.steps) == []
  {
    NoneQueued(turn.steps);
  }

  lemma {:induction false} NoneQueued(steps: seq<ServerStep>)
    requires Writes(steps)
    ensures Queues(steps) == []
  {
    if steps != [] {
      NoneQueued(steps[..|steps| - 1]);
    }
  }

  /** The other half: any conversation that has not ended, left to go on until all is read, brings over every message
      that any step has queued, whatever the writes and each recv() take at a time. */
  method ConverseToEnd(turns: seq<Turn>, drain: seq<Turn>) returns (client: ResponseReader, server: IpcClient)
    requires !Listen(START, turns).aborted && Listen(START, turns).link.connected
    requires forall i :: 0 <= i < |drain| ==> Delivers(drain[i])
    requires Listen(START, turns).read + |drain| >= |Encode(Listen(START, turns).link.accepted)|
    ensures server.connected && client.responses == server.accepted == AllQueued(turns)
    ensures client.received == server.outgoing == Encode(server.accepted)
  {
    hide Listen, Encode, Decode, AllQueued, Delivers;
    var aborted;
    client, server, aborted := Converse(turns + drain);
    StartIsWithin();
    ListenWithin(START, turns);
    ListenConcat(START, turns, drain);
    DrainReads(Listen(START, turns), drain);
    DrainQueuesNothing(turns, drain);
    assert client.received == Encode(server.accepted);
  }

  /** Nothing goes wrong with the socket on either side. */
  ghost predicate Healthy(turns: seq<Turn>) {
    forall i :: 0 <= i < |turns| ==> turns[i].result.Bytes? && Sound(turns[i].steps)
  }

  ghost predicate Sound(steps: seq<ServerStep>) {
    forall i :: 0 <= i < |steps| && steps[i].Writable? ==>
      !steps[i].fault.SocketError? && !steps[i].fault.Hangup? && !steps[i].result.Failed?
  }

  lemma {:induction false} SoundStays(l: Link, steps: seq<ServerStep>)
    requires l.connected && Sound(steps) && |Encode(l.accepted + Queues(steps))| < 2_097_152
    ensures var r := Served(l, steps); r.connected && r.accepted == l.accepted + Queues(steps)
  {
    hide Encode, EncodeFrame;
    if steps == [] {
      assert l.accepted + [] == l.accepted;
    } else {
      var n := |steps| - 1;
      var queued := l.accepted + Queues(steps[..n]);
      if steps[n].Queue? {
        var f := Frame(steps[n].kind, steps[n].payload);
        EncodeAppend(queued, f);
        FrameHasHeader(f);
        assert l.accepted + Queues(steps) == queued + [f];
      } else {
        assert Queues(steps) == Queues(steps[..n]);
      }
      SoundStays(l, steps[..n]);
    }
  }

  /** A conversation in which nothing goes wrong does not end as long as all that is queued is shorter than the largest
      buffer. */
  lemma {:induction false} HealthyStays(turns: seq<Turn>)
    requires Healthy(turns) && |Encode(AllQueued(turns))| < 2_097_152
    ensures var t := Listen(START, turns); !t.aborted && t.link.connected && t.link.accepted == AllQueued(turns)
  {
    hide Encode, Served, Queues, Sound, Room, InHeader;
    if turns != [] {
      var n := |turns| - 1;
      EncodeConcat(AllQueued(turns[..n]), Queues(turns[n].steps));
      HealthyStays(turns[..n]);
      SoundStays(Listen(START, turns[..n]).link, turns[n].steps);
    }
  }

  /** Then everything arrives. */
  method ConverseInHealth(turns: seq<Turn>, drain: seq<Turn>) returns (client: ResponseReader, server: IpcClient)
    requires Healthy(turns) && |Encode(AllQueued(turns))| < 2_097_152
    requires (forall i :: 0 <= i < |drain| ==> Delivers(drain[i])) && |drain| >= |Encode(AllQueued(turns))|
    ensures server.connected && client.responses == server.accepted == AllQueued(turns)
  {
    hide Listen, Encode, AllQueued, Delivers, Healthy;
    HealthyStays(turns);
    client, server := ConverseToEnd(turns, drain);
  }

  /** What is queued: a message for each step that queues one, in order, and nothing for a write. */
  lemma {:induction false} QueuesConcat(a: seq<ServerStep>, b: seq<ServerStep>)
    ensures Queues(a + b) == Queues(a) + Queues(b)
    decreases |b|
  {
    if b == [] {
      assert a + b == a;
    } else {
      var n := |b| - 1;
      QueuesConcat(a, b[..n]);
      assert (a + b)[..|a| + n] == a + b[..n];
    }
  }

  lemma QueuesOne(kind: Word, payload: Payload, fault: Fault, result: WriteResult)
    ensures Queues([Queue(kind, payload)]) == [Frame(kind, payload)] && Queues([Writable(fault, result)]) == []
  {
    assert [Queue(kind, payload)][..0] == [] && [Writable(fault, result)][..0] == [];
  }

  lemma {:induction false} AllQueuedConcat(a: seq<Turn>, b: seq<Turn>)
    ensures AllQueued(a + b) == AllQueued(a) + AllQueued(b)
    decreases |b|
  {
    hide Queues;
    if b == [] {
      assert a + b == a;
    } else {
      var n := |b| - 1;
      AllQueuedConcat(a, b[..n]);
      var all, last := a + b, Queues(b[n].steps);
      assert all[..|all| - 1] == a + b[..n] && all[|all| - 1] == b[n];
      assert AllQueued(a) + AllQueued(b[..n]) + last == AllQueued(a) + (AllQueued(b[..n]) + last);
    }
  }

  lemma AllQueuedOne(turn: Turn)
    ensures AllQueued([turn]) == Queues(turn.steps)
  {
    assert [turn][..0] == [];
  }

  /** What ends a conversation: a recv() that fails, or the end of the stream while a header is read. */
  lemma WhatAborts(t: Talk, turn: Turn)
    requires !t.aborted
    ensures turn.result.RecvError? ==> Heard(t, turn) == Talk(Served(t.link, turn.steps), t.read, true)
    ensures var l := Served(t.link, turn.steps);
      turn.result.Bytes? ==>
        (Heard(t, turn).aborted <==> !l.connected && l.sent <= t.read && InHeader(l.accepted, t.read))
  {
  }

  /** What a turn takes over: as much as `count` says, as long as it is there and belongs to the header or payload that
      is being read, and at least a byte; nothing if nothing is there. */
  lemma WhatIsTaken(t: Talk, steps: seq<ServerStep>, count: nat)
    requires !t.aborted && Within(t)
    ensures var l, r := Served(t.link, steps), Heard(t, Turn(steps, Bytes(count)));
      var room := Room(l.accepted, t.read);
      && r.link == l && t.read <= l.sent
      && (0 < count <= room && count <= l.sent - t.read ==> r.read == t.read + count)
      && (count > room && room <= l.sent - t.read ==> r.read == t.read + room)
      && (count > l.sent - t.read && l.sent - t.read <= room ==> r.read == l.sent)
      && (count == 0 && l.sent > t.read ==> r.read == t.read + 1)
  {
    hide Encode, Served, Room, InHeader;
    ServedWithin(t.link, steps);
    if count == 0 {
      RoomOfServed(t, steps);
    }
  }

  lemma RoomOfServed(t: Talk, steps: seq<ServerStep>)
    requires Within(t)
    ensures var l := Served(t.link, steps); t.read <= l.sent && Room(l.accepted, t.read) > 0
  {
    hide Encode, Served, Room;
    ServedWithin(t.link, steps);
    RoomIsThere(Served(t.link, steps).accepted, t.read);
  }

  /** What a step of the compositor does: queue a message that fits, drop a client that it does not fit, and write. */
  lemma WhatSteps(l: Link, kind: Word, payload: Payload, count: nat)
    requires l.connected && l.sent <= |Encode(l.accepted)|
    ensures var waiting := |Encode(l.accepted)| - l.sent;
      && Stepped(l, Queue(kind, payload)) ==
           (if waiting + 14 + |payload| < 2_097_152 then Link(true, l.accepted + [Frame(kind, payload)], l.sent)
            else Link(false, l.accepted, l.sent))
      && Stepped(l, Writable(NoFault, Written(count))) ==
           Link(true, l.accepted, if count <= waiting then l.sent + count else l.sent + waiting)
      && Stepped(l, Writable(NoFault, Again)) == l
      && Stepped(l, Writable(NoFault, Failed)).connected == (waiting == 0)
      && !Stepped(l, Writable(Hangup, Again)).connected && !Stepped(l, Writable(SocketError, Again)).connected
  {
    hide Encode;
  }

  lemma StartIsWithin()
    ensures Within(START)
  {
  }
}
