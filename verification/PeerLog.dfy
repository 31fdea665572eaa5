/** A step does not look at the log of the node: what was sent before only stands in front of what is sent now. */
module PeerLog {
  import opened Common
  import opened Sha1
  import opened Torrent
  import opened PieceStore
  import opened PeerSpec
  import Retry

  type Log = seq<Effect<set<nat>>>

  ghost function Before(log: Log, s: Node): (r: Node)
    ensures r.conns == s.conns && r.own == s.own && r.file == s.file
  {
    s.(log := log + s.log)
  }

  lemma SendLog(log: Log, s: Node, to: Destination, m: Message<set<nat>>)
    ensures SendTo(Before(log, s), to, m) == Before(log, SendTo(s, to, m))
  {
    assert log + s.log + [Send(to, m)] == log + (s.log + [Send(to, m)]);
  }

  lemma SendRequestLog(log: Log, t: Setup, s: Node, to: Address, r: Request)
    ensures SendRequest(t, Before(log, s), to, r) == Before(log, SendRequest(t, s, to, r))
  {
    SendLog(log, s, Unicast(to), DataRequest(MakeHeader(t, s), r.index % 0x100, r.offset % 0x1_0000));
  }

  lemma StartLog(log: Log, t: Setup, s: Node, k: nat, r: Request)
    requires k < |s.conns|
    ensures RequestStart(t, Before(log, s), k, r) == Before(log, RequestStart(t, s, k, r))
  {
    var c := s.conns[k];
    var c' := c.(request := Some(r), retry := Retry.Start(c.retry, MAX_PEER_RETRIES).0);
    SendRequestLog(log, t, SetConn(s, k, c'), c.addr, r);
  }

  lemma NextLog(log: Log, t: Setup, s: Node, k: nat)
    requires k < |s.conns|
    ensures RequestNext(t, Before(log, s), k) == Before(log, RequestNext(t, s, k))
  {
    assert Candidates(t, Before(log, s), k) == Candidates(t, s, k);
    StartLog(log, t, s, k, Request(Rarest(s.conns, Candidates(t, s, k), t.info.NumPieces()), 0));
  }

  lemma ConnectLog(log: Log, s: Node, addr: Address, pool: Pool)
    ensures ConnectWith(Before(log, s), addr, pool)
         == (Before(log, ConnectWith(s, addr, pool).0), ConnectWith(s, addr, pool).1)
  {
  }

  lemma ReceiveLog(log: Log, t: Setup, s: Node, k: nat, i: nat, start: nat, length: nat)
    requires t.Proper() && t.info.IsValid(i) && t.info.fileSize <= |s.file|
    requires k < |s.conns| && s.conns[k].request.Some?
    ensures ReceiveData(t, Before(log, s), k, i, start, length) == Before(log, ReceiveData(t, s, k, i, start, length))
  {
    var next := (start + length) % 0x1_0000;
    if next < t.info.Size(i) {
      StartLog(log, t, s, k, s.conns[k].request.value.(offset := next));
    } else {
      var e := if Verified(t.info, t.digest, s.file, i) then Completed(i) else Corrupted(i);
      assert log + s.log + [e] == log + (s.log + [e]);
    }
  }

  lemma ReceiverLog(log: Log, s: Node, src: Address, i: nat, start: nat, length: nat)
    ensures DataReceiver(Before(log, s), src, i, start, length)
         == (Before(log, DataReceiver(s, src, i, start, length).0), DataReceiver(s, src, i, start, length).1)
  {
    ConnectLog(log, s, src, Outgoing);
  }

  lemma ReplyLog(log: Log, t: Setup, s: Node, src: Address, i: nat, start: nat, data: seq<byte>)
    requires t.Proper() && t.info.fileSize <= |s.file|
    ensures HandleDataReply(t, Before(log, s), src, i, start, data)
         == Before(log, HandleDataReply(t, s, src, i, start, data))
  {
    if t.info.IsValid(i) {
      ReceiverLog(log, s, src, i, start, |data|);
      var (s1, k) := DataReceiver(s, src, i, start, |data|);
      var written := WriteResult(t.info, i, start, |data|);
      if k.Some? && written > 0 {
        var s2 := s1.(file := AfterWrite(t.info, s1.file, i, start, data));
        ReceiveLog(log, t, s2, k.value, i, start, written);
      }
    }
  }

  lemma DataRequestLog(log: Log, t: Setup, s: Node, src: Address, i: nat, start: nat, read: nat)
    requires t.Proper() && t.info.fileSize <= |s.file|
    ensures HandleDataRequest(t, Before(log, s), src, i, start, read)
         == Before(log, HandleDataRequest(t, s, src, i, start, read))
  {
    if t.info.IsValid(i) && i in s.own && Narrow(start) < t.info.Size(i) {
      var n := ReadLength(read, Min(t.maxData, t.info.Size(i) - Narrow(start)));
      var data := Piece(t.info, s.file, i)[Narrow(start)..Narrow(start) + n];
      SendLog(log, s, if src.linkLocal then AllNodes else Unicast(src),
              DataReply(MakeHeader(t, s), i % 0x100, start % 0x1_0000, data));
    }
  }

  lemma RespondLog(log: Log, t: Setup, s: Node, k: nat, src: Address, m: Message<set<nat>>, read: nat)
    requires t.Proper() && t.info.fileSize <= |s.file| && k < |s.conns|
    ensures Respond(t, Before(log, s), k, src, m, read) == Before(log, Respond(t, s, k, src, m, read))
  {
    if m.Have? || m.DataReply? {
      NextLog(log, t, s, k);
    } else if m.DataRequest? {
      DataRequestLog(log, t, s, src, m.index, m.start, read);
    }
  }

  lemma MessageLog(log: Log, t: Setup, s: Node, src: Address, toAll: bool, m: Message<set<nat>>, read: nat)
    requires t.Proper() && t.info.fileSize <= |s.file|
    ensures HandleMessage(t, Before(log, s), src, toAll, m, read)
         == Before(log, HandleMessage(t, s, src, toAll, m, read))
  {
    if m.header.infoHash == t.infoHash && !m.Close? {
      var s1 := if m.DataReply? then HandleDataReply(t, s, src, m.index, m.start, m.data) else s;
      if m.DataReply? {
        ReplyLog(log, t, s, src, m.index, m.start, m.data);
      }
      ConnectLog(log, s1, src, Incoming);
      var (s2, k) := ConnectWith(s1, src, Incoming);
      if k.None? {
        SendLog(log, s2, Unicast(src), Close(MakeHeader(t, s2)));
      } else {
        RespondLog(log, t, UpdateHave(s2, k.value, m.header.have), k.value, src, m, read);
      }
    }
  }

  lemma RetryLog(log: Log, t: Setup, s: Node, k: nat, expired: bool)
    requires k < |s.conns|
    ensures RetryProcess(t, Before(log, s), k, expired) == Before(log, RetryProcess(t, s, k, expired))
  {
    var c := s.conns[k];
    var (retry, action) := Retry.Process(c.retry, expired);
    var s1 := SetConn(s, k, c.(retry := retry));
    if c.request.Some? {
      SendRequestLog(log, t, s1, c.addr, c.request.value);
      NextLog(log, t, RequestStop(s1, k), k);
    }
  }

  lemma PollConnLog(log: Log, t: Setup, s: Node, k: nat, timers: Timers)
    requires k < |s.conns|
    ensures PollConn(t, Before(log, s), k, timers) == Before(log, PollConn(t, s, k, timers))
  {
    var addr := s.conns[k].addr;
    if addr in timers.silent {
      SendLog(log, Remove(s, k), Unicast(addr), Close(MakeHeader(t, s)));
    } else {
      RetryLog(log, t, s, k, addr in timers.retries);
    }
    var s1 := if addr in timers.silent then DisconnectConn(t, s, k)
              else if s.conns[k].request.Some? then RetryProcess(t, s, k, addr in timers.retries)
              else s;
    SendLog(log, s1, Unicast(addr), Have(MakeHeader(t, s1)));
  }

  lemma {:induction false} PollFromLog(log: Log, t: Setup, s: Node, k: nat, timers: Timers)
    requires k <= |s.conns|
    ensures PollFrom(t, Before(log, s), k, timers) == Before(log, PollFrom(t, s, k, timers))
    decreases |s.conns| - k
  {
    if k < |s.conns| {
      PollConnLog(log, t, s, k, timers);
      PollFromLog(log, t, PollConn(t, s, k, timers), if s.conns[k].addr in timers.silent then k else k + 1, timers);
    }
  }

  /** A step appends the same to any log, and changes nothing else differently. */
  lemma StepLog(log: Log, t: Setup, s: Node, e: Event)
    requires t.Proper() && t.info.fileSize <= |s.file|
    ensures Step(t, Before(log, s), e) == Before(log, Step(t, s, e))
  {
    match e {
      case Receive(src, toAll, m, read) => MessageLog(log, t, s, src, toAll, m, read);
      case WakeUp(timers) =>
        PollFromLog(log, t, s, 0, timers);
        var s1 := PollFrom(t, s, 0, timers);
        SendLog(log, s1, AllNodes, Have(MakeHeader(t, s1)));
      case Join(peer) => ConnectLog(log, s, peer, Outgoing);
    }
  }

  /** Hence a step of a node with any log is a step with an empty log, which is how the network takes it. */
  lemma StepFromEmptyLog(t: Setup, s: Node, e: Event)
    requires t.Proper() && t.info.fileSize <= |s.file|
    ensures Step(t, s, e) == Before(s.log, Step(t, s.(log := []), e))
  {
    var empty := s.(log := []);
    assert s.log + empty.log == s.log;
    assert Before(s.log, empty) == s;
    StepLog(s.log, t, empty, e);
  }
}
