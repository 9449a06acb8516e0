/** Events sent over the list of connected clients (sway/ipc-server.c); a client whose queue is full is
    dropped from the list while the list is being walked. */
module IpcBroadcast {
  import opened IpcProtocol
  import opened IpcServer

  /** The bit that stands for an event type in a client's subscriptions. */
  function EventBit(event: Word): nat {
    event % 0x80
  }

  /** Every event type, a word with its highest bit set, has a bit of its own. */
  lemma EventsHaveTheirBits(a: Word, b: Word)
    requires 0x8000_0000 <= a < 0x8000_0080 && 0x8000_0000 <= b < 0x8000_0080
    ensures EventBit(a) == a - 0x8000_0000
    ensures EventBit(a) == EventBit(b) <==> a == b
  {
  }

  /** The elements among the first `n` of `all` whose flag is set, in order. */
  ghost function Kept<T>(all: seq<T>, flags: seq<bool>, n: nat): (kept: seq<T>)
    requires n <= |all| == |flags|
    ensures n == 0 ==> kept == []
  {
    if n == 0 then [] else Kept(all, flags, n - 1) + if flags[n - 1] then [all[n - 1]] else []
  }

  lemma {:induction false} KeptSubset<T>(all: seq<T>, flags: seq<bool>, n: nat)
    requires n <= |all| == |flags|
    ensures forall x :: x in Kept(all, flags, n) ==> exists k :: 0 <= k < n && all[k] == x && flags[k]
  {
    if n > 0 {
      KeptSubset(all, flags, n - 1);
    }
  }

  /** They are all that are flagged, and stand in their old order. */
  lemma {:induction false} KeptInOrder<T>(all: seq<T>, flags: seq<bool>, n: nat, i: nat, j: nat)
    requires n <= |all| == |flags| && i < j < |Kept(all, flags, n)|
    ensures var kept := Kept(all, flags, n);
      exists a, b :: 0 <= a < b < n && flags[a] && flags[b] && all[a] == kept[i] && all[b] == kept[j]
  {
    if j < |Kept(all, flags, n - 1)| {
      KeptInOrder(all, flags, n - 1, i, j);
    } else {
      KeptSubset(all, flags, n - 1);
      assert Kept(all, flags, n - 1)[i] in Kept(all, flags, n - 1);
    }
  }

  lemma {:induction false} KeptHolds<T>(all: seq<T>, flags: seq<bool>, n: nat, k: nat)
    requires k < n <= |all| == |flags| && flags[k]
    ensures all[k] in Kept(all, flags, n)
  {
    if k < n - 1 {
      KeptHolds(all, flags, n - 1, k);
    }
  }

  /** What the broadcast sees of a client. */
  datatype View = View(connected: bool, subscribed: set<nat>, queued: seq<Byte>)

  ghost function ViewOf(c: IpcClient): View
    requires ValidClient(c)
    reads c, c.writeBuffer
  {
    View(c.connected, c.subscribedEvents, c.Queued())
  }

  ghost function AfterReply(v: View, f: Frame): View {
    if Fits(|v.queued|, |f.payload|) then v.(queued := v.queued + EncodeFrame(f)) else v.(connected := false)
  }

  /** What a broadcast of `f` does to one client: at most one message, and only to a subscriber. */
  ghost function AfterEvent(v: View, f: Frame): View {
    if EventBit(f.kind) in v.subscribed then AfterReply(v, f) else v
  }

  ghost predicate ValidClient(c: IpcClient)
    reads c, c.writeBuffer
  {
    c.Valid()
  }

  ghost predicate AllValid(s: seq<IpcClient>)
    reads *
  {
    forall k :: 0 <= k < |s| ==> ValidClient(s[k])
  }

  /** No two entries share their client or its buffer. */
  ghost predicate Separate(s: seq<IpcClient>)
    reads *
  {
    forall i, j :: 0 <= i < j < |s| ==> s[i] != s[j] && s[i].writeBuffer != s[j].writeBuffer
  }

  /** Every client of `s` is valid and looks as `views` says. */
  ghost predicate ViewsAre(s: seq<IpcClient>, views: seq<View>)
    reads *
  {
    |views| == |s| && forall k :: 0 <= k < |s| ==> ValidClient(s[k]) && ViewOf(s[k]) == views[k]
  }

  ghost function AfterEvents(views: seq<View>, f: Frame, n: nat): (after: seq<View>)
    requires n <= |views|
    ensures |after| == |views| && (n == 0 ==> after == views)
    ensures forall k :: 0 <= k < |views| ==> after[k] == if k < n then AfterEvent(views[k], f) else views[k]
  {
    seq(|views|, k requires 0 <= k < |views| => if k < n then AfterEvent(views[k], f) else views[k])
  }

  /** Which clients a broadcast leaves on the list. */
  ghost function Survive(views: seq<View>, f: Frame): (flags: seq<bool>)
    ensures |flags| == |views|
    ensures forall k :: 0 <= k < |views| ==> flags[k] == AfterEvent(views[k], f).connected
  {
    seq(|views|, k requires 0 <= k < |views| => AfterEvent(views[k], f).connected)
  }

  lemma NextViews(views: seq<View>, f: Frame, n: nat)
    requires n < |views|
    ensures AfterEvents(views, f, n)[n] == views[n]
    ensures Survive(views, f)[n] == AfterEvent(views[n], f).connected
    ensures AfterEvents(views, f, n + 1) == AfterEvents(views, f, n)[n := AfterEvent(views[n], f)]
  {
  }

  /** Dropping entries keeps the rest separate. */
  lemma {:induction false} KeptSeparate(all: seq<IpcClient>, flags: seq<bool>, n: nat)
    requires n <= |all| == |flags| && Separate(all)
    ensures Separate(Kept(all, flags, n))
  {
    if n > 0 {
      KeptSeparate(all, flags, n - 1);
      var init, last := Kept(all, flags, n - 1), all[n - 1];
      forall i | 0 <= i < |init|
        ensures init[i] != last && init[i].writeBuffer != last.writeBuffer
      {
        KeptSubset(all, flags, n - 1);
        assert init[i] in init;
      }
    }
  }

  lemma KeptValid(all: seq<IpcClient>, flags: seq<bool>)
    requires |all| == |flags| && AllValid(all) && Separate(all)
    requires forall k :: 0 <= k < |all| ==> all[k].connected == flags[k]
    ensures var s := Kept(all, flags, |all|);
      AllValid(s) && Separate(s) && forall c :: c in s ==> c.connected
  {
    KeptSeparate(all, flags, |all|);
    KeptSubset(all, flags, |all|);
    var s := Kept(all, flags, |all|);
    forall i | 0 <= i < |s|
      ensures ValidClient(s[i]) && s[i].connected
    {
      assert s[i] in s;
    }
  }

  /** Where a broadcast stands when it comes to the n-th of the clients it started with: the kept ones
      are in front of index i, the others from there on. */
  ghost predicate WalkIsAt(current: seq<IpcClient>, i: nat, all: seq<IpcClient>, flags: seq<bool>, n: nat) {
    && n <= |all| == |flags|
    && i == |Kept(all, flags, n)|
    && current == Kept(all, flags, n) + all[n..]
  }

  /** The list after its i-th client was handled. */
  ghost function Advance<T>(current: seq<T>, i: nat, stays: bool): seq<T>
    requires i < |current|
  {
    if stays then current else current[..i] + current[i + 1..]
  }

  ghost predicate FirstAt(current: seq<IpcClient>, i: nat)
    requires i < |current|
  {
    current[i] !in current[..i]
  }

  lemma WalkStarts(all: seq<IpcClient>, flags: seq<bool>)
    requires |all| == |flags|
    ensures WalkIsAt(all, 0, all, flags, 0)
  {
  }

  lemma NextList(current: seq<IpcClient>, i: nat, all: seq<IpcClient>, flags: seq<bool>, n: nat)
    requires WalkIsAt(current, i, all, flags, n) && Separate(all)
    ensures n <= |all| == |flags| && (n < |all| <==> i < |current|)
    ensures n == |all| ==> current == Kept(all, flags, |all|)
    ensures n < |all| ==>
      && current[i] == all[n] && FirstAt(current, i)
      && WalkIsAt(Advance(current, i, flags[n]), if flags[n] then i + 1 else i, all, flags, n + 1)
  {
    if n < |all| {
      KeptSubset(all, flags, n);
      assert current[..i] == Kept(all, flags, n);
    }
  }

  class Server {
    var clients: seq<IpcClient>

    ghost predicate Valid()
      reads *
    {
      && AllValid(clients) && (forall c :: c in clients ==> c.connected)
      && Separate(clients)
    }

    method Disconnect(client: IpcClient, ghost i: nat)
      requires i < |clients| && clients[i] == client && client !in clients[..i]
      modifies this, client`connected
      ensures !client.connected
      ensures clients == old(clients)[..i] + old(clients)[i + 1..]
    {
      var j := 0;
      while j < |clients| && clients[j] != client
        invariant j <= i
      {
        j := j + 1;
      }
      client.connected := false;
      clients := clients[..j] + clients[j + 1..];
    }

    /** Queues a message for a client; a client that cannot take it is disconnected. */
    method SendReply(client: IpcClient, ghost i: nat, kind: Word, payload: Payload) returns (ok: bool)
      requires i < |clients| && clients[i] == client && client !in clients[..i]
      requires client.Valid() && client.connected
      modifies this, client, client.writeBuffer
      ensures client.Valid()
      ensures client.writeBuffer == old(client.writeBuffer) || fresh(client.writeBuffer)
      ensures ViewOf(client) == AfterReply(old(ViewOf(client)), Frame(kind, payload))
      ensures ok == client.connected == (|old(client.Queued())| + 14 + |payload| < 2_097_152)
      ensures client.Queued() == old(client.Queued()) + if ok then EncodeFrame(Frame(kind, payload)) else []
      ensures clients == Advance(old(clients), i, ok)
    {
      ok := client.QueueReply(kind, payload);
      if !ok {
        assert client.Queued() == old(client.Queued());
        Disconnect(client, i);
      }
    }

    /** One turn of the broadcast loop, seen from the whole list `all`: only the k-th client changes, and
        the index moves on exactly when that client stays on the list. */
    method Visit(ghost all: seq<IpcClient>, ghost views: seq<View>, ghost k: nat, i: nat, f: Frame) returns (next: nat)
      requires Separate(all) && ViewsAre(all, views)
      requires k < |all| && i < |clients| && clients[i] == all[k] && FirstAt(clients, i)
      requires views[k].connected
      modifies this, all[k], all[k].writeBuffer
      ensures forall j :: 0 <= j < |all| ==> all[j].writeBuffer == old(all[j].writeBuffer) || fresh(all[j].writeBuffer)
      ensures Separate(all) && ViewsAre(all, views[k := AfterEvent(views[k], f)])
      ensures next == if AfterEvent(views[k], f).connected then i + 1 else i
      ensures clients == Advance(old(clients), i, AfterEvent(views[k], f).connected)
    {
      var client := clients[i];
      next := i;
      if EventBit(f.kind) in client.subscribedEvents {
        var ok := SendReply(client, i, f.kind, f.payload);
        forall j | 0 <= j < |all| && j != k
          ensures ValidClient(all[j]) && ViewOf(all[j]) == views[j]
        {
          assert old(ValidClient(all[j])) && unchanged(all[j]) && unchanged(all[j].writeBuffer);
        }
        if !ok {
          return;
        }
      }
      next := next + 1;
    }

    method SendEvent(payload: Payload, event: Word, ghost views: seq<View>)
      requires Valid() && ViewsAre(clients, views)
      modifies this, clients, set c | c in clients :: c.writeBuffer
      ensures Valid()
      ensures ViewsAre(old(clients), AfterEvents(views, Frame(event, payload), |views|))
      ensures clients == Kept(old(clients), Survive(views, Frame(event, payload)), |views|)
      ensures forall c :: c in old(clients) ==>
        && c.Valid()
        && var subscribed := EventBit(event) in old(c.subscribedEvents);
           var fits := |old(c.Queued())| + 14 + |payload| < 2_097_152;
           && c.connected == (subscribed ==> fits)
           && c.Queued() == old(c.Queued()) + if subscribed && fits then EncodeFrame(Frame(event, payload)) else []
      ensures forall c :: c in clients <==> c in old(clients) && c.connected
    {
      hide EncodeFrame, Fits, Kept, AfterEvent, Encode, Decode;
      var f := Frame(event, payload);
      assert forall k :: 0 <= k < |views| ==> views[k] == ViewOf(clients[k]) && clients[k] in clients;
      Walk(views, f);
      KeptValid(old(clients), Survive(views, f));
      Sent(old(clients), views, f, clients);
    }

    lemma Sent(all: seq<IpcClient>, views: seq<View>, f: Frame, kept: seq<IpcClient>)
      requires ViewsAre(all, AfterEvents(views, f, |views|)) && kept == Kept(all, Survive(views, f), |views|)
      requires forall k :: 0 <= k < |views| ==> views[k].connected
      ensures forall k :: 0 <= k < |all| ==>
        var subscribed := EventBit(f.kind) in views[k].subscribed;
        var fits := |views[k].queued| + 14 + |f.payload| < 2_097_152;
        && all[k].connected == (subscribed ==> fits)
        && all[k].Queued() == views[k].queued + if subscribed && fits then EncodeFrame(f) else []
      ensures forall c :: c in kept <==> c in all && c.connected
    {
      hide EncodeFrame;
      KeptSubset(all, Survive(views, f), |views|);
      forall k | 0 <= k < |all| && all[k].connected ensures all[k] in kept {
        KeptHolds(all, Survive(views, f), |views|, k);
      }
    }

    method Walk(ghost views: seq<View>, f: Frame)
      requires Separate(clients) && |clients| == |views| && ViewsAre(clients, views)
      requires forall k :: 0 <= k < |views| ==> views[k].connected
      modifies this, clients, set c | c in clients :: c.writeBuffer
      ensures Separate(old(clients))
      ensures ViewsAre(old(clients), AfterEvents(views, f, |views|))
      ensures clients == Kept(old(clients), Survive(views, f), |views|)
    {
      hide *;
      ghost var all, stays := clients, Survive(views, f);
      ghost var done: nat := 0;
      var i: nat := 0;
      WalkStarts(all, stays);
      while i < |clients|
        invariant WalkIsAt(clients, i, all, stays, done)
        invariant Separate(all)
        invariant forall k :: 0 <= k < |all| ==>
          all[k].writeBuffer == old(all[k].writeBuffer) || fresh(all[k].writeBuffer)
        invariant done <= |all| && ViewsAre(all, AfterEvents(views, f, done))
        decreases |all| - done
      {
        NextList(clients, i, all, stays, done);
        i := Turn(all, views, done, i, f);
        done := done + 1;
      }
      NextList(clients, i, all, stays, done);
    }

    /** A turn of the loop, at the clients that are left. */
    method Turn(ghost all: seq<IpcClient>, ghost views: seq<View>, ghost done: nat, i: nat, f: Frame)
      returns (next: nat)
      requires Separate(all) && done < |all| == |views| && ViewsAre(all, AfterEvents(views, f, done))
      requires i < |clients| && WalkIsAt(clients, i, all, Survive(views, f), done) && views[done].connected
      modifies this, all[done], all[done].writeBuffer
      ensures forall j :: 0 <= j < |all| ==> all[j].writeBuffer == old(all[j].writeBuffer) || fresh(all[j].writeBuffer)
      ensures Separate(all) && ViewsAre(all, AfterEvents(views, f, done + 1))
      ensures WalkIsAt(clients, next, all, Survive(views, f), done + 1)
    {
      hide *;
      NextList(clients, i, all, Survive(views, f), done);
      NextViews(views, f, done);
      next := Visit(all, AfterEvents(views, f, done), done, i, f);
    }
  }
}
