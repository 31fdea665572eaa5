/** What a node knows and says of the others is true, and what it asks of them they have.
    Nothing is assumed of the data that arrives, of the digest or of the piece size. */
module PeerKnowledge {
  import opened Bitset
  import opened Common
  import opened PeerRequests
  import opened PeerSpec
  import opened PieceStore
  import Retry
  import opened Sha1
  import opened Torrent

  /** A true message: its header claims no more than the sender has, a request is for a piece its addressee has,
      and a reply carries data of a piece it claims. */
  ghost predicate SentTrue(
    t: Setup, remote: Address -> set<nat>, own: set<nat>, to: Destination, m: Message<set<nat>>)
  {
    && m.header.infoHash == t.infoHash && m.header.have <= own
    && (m.DataRequest? ==> to.Unicast? && t.info.IsValid(m.index) && m.index in remote(to.to))
    && (m.DataReply? ==> m.data != [] && m.index in m.header.have)
  }

  ghost predicate LogTrue(t: Setup, remote: Address -> set<nat>, s: Node) {
    forall e :: e in s.log && e.Send? ==> SentTrue(t, remote, s.own, e.to, e.message)
  }

  ghost predicate HavesTrue(remote: Address -> set<nat>, s: Node) {
    forall k :: 0 <= k < |s.conns| ==> s.conns[k].have <= remote(s.conns[k].addr)
  }

  /** The node behind each address has valid pieces only, and at least what is assumed of it. */
  ghost predicate WorldTrue(t: Setup, remote: Address -> set<nat>, assumed: Address -> set<nat>) {
    forall a :: assumed(a) <= remote(a) <= Below(t.info.NumPieces())
  }

  ghost predicate Knows(t: Setup, remote: Address -> set<nat>, assumed: Address -> set<nat>, s: Node) {
    && t.Proper() && WorldTrue(t, remote, assumed)
    && Tidy(t, assumed, s) && HavesTrue(remote, s) && LogTrue(t, remote, s)
  }

  // ------------------------------------------------------------------
  // Elementary changes

  lemma SendKnows(t: Setup, remote: Address -> set<nat>, assumed: Address -> set<nat>, s: Node,
                  to: Destination, m: Message<set<nat>>)
    requires Knows(t, remote, assumed, s) && SentTrue(t, remote, s.own, to, m)
    ensures Knows(t, remote, assumed, SendTo(s, to, m))
  {
  }

  /** Asking a remote for what its connection requests. */
  lemma SendRequestKnows(t: Setup, remote: Address -> set<nat>, assumed: Address -> set<nat>, s: Node, k: nat)
    requires Knows(t, remote, assumed, s) && k < |s.conns| && s.conns[k].request.Some?
    ensures Knows(t, remote, assumed, SendRequest(t, s, s.conns[k].addr, s.conns[k].request.value))
  {
    var c := s.conns[k];
    var r := c.request.value;
    assert ConnTidy(t, assumed, s.own, c);
    SendKnows(t, remote, assumed, s, Unicast(c.addr),
              DataRequest(MakeHeader(t, s), r.index % 0x100, r.offset % 0x1_0000));
  }

  lemma StartKnows(t: Setup, remote: Address -> set<nat>, assumed: Address -> set<nat>, s: Node, k: nat, r: Request)
    requires Knows(t, remote, assumed, s) && k < |s.conns| && RequestTidy(t, assumed, s.own, s.conns[k], r.index)
    requires Requests(s.conns[k], r.index) || r.index !in Pending(s.conns) || IsEndgame(t, s.own)
    ensures Knows(t, remote, assumed, RequestStart(t, s, k, r))
  {
    var c := s.conns[k];
    var s1 := SetConn(s, k, c.(request := Some(r), retry := Retry.Start(c.retry, MAX_PEER_RETRIES).0));
    SetTidy(t, assumed, s, k, s1.conns[k]);
    SendRequestKnows(t, remote, assumed, s1, k);
  }

  lemma NextKnows(t: Setup, remote: Address -> set<nat>, assumed: Address -> set<nat>, s: Node, k: nat)
    requires Knows(t, remote, assumed, s) && k < |s.conns|
    ensures Knows(t, remote, assumed, RequestNext(t, s, k))
  {
    var candidates := Candidates(t, s, k);
    if s.conns[k].request.None? && !IsSeed(t, s.own) && candidates != {} {
      var some :| some in candidates;
      assert some in s.conns[k].have;
      var i := Rarest(s.conns, candidates, t.info.NumPieces());
      assert IsRarest(s.conns, candidates, t.info.NumPieces(), i);
      StartKnows(t, remote, assumed, s, k, Request(i, 0));
    }
  }

  lemma StopKnows(t: Setup, remote: Address -> set<nat>, assumed: Address -> set<nat>, s: Node, k: nat)
    requires Knows(t, remote, assumed, s) && k < |s.conns|
    ensures Knows(t, remote, assumed, RequestStop(s, k))
  {
    StopTidy(t, assumed, s, k);
  }

  lemma ConnectKnows(t: Setup, remote: Address -> set<nat>, assumed: Address -> set<nat>, s: Node,
                     addr: Address, pool: Pool)
    requires Knows(t, remote, assumed, s)
    ensures Knows(t, remote, assumed, ConnectWith(s, addr, pool).0)
  {
    ConnectTidy(t, assumed, s, addr, pool);
  }

  lemma RemoveKnows(t: Setup, remote: Address -> set<nat>, assumed: Address -> set<nat>, s: Node, k: nat)
    requires Knows(t, remote, assumed, s) && k < |s.conns|
    ensures Knows(t, remote, assumed, Remove(s, k))
  {
    RemoveTidy(t, assumed, s, k);
    var s' := Remove(s, k);
    assert forall j :: 0 <= j < |s'.conns| ==> s'.conns[j] == s.conns[if j < k then j else j + 1];
  }

  lemma HaveKnows(t: Setup, remote: Address -> set<nat>, assumed: Address -> set<nat>, s: Node, k: nat, have: set<nat>)
    requires Knows(t, remote, assumed, s) && k < |s.conns| && have <= remote(s.conns[k].addr)
    ensures Knows(t, remote, assumed, UpdateHave(s, k, have))
  {
    HaveTidy(t, assumed, s, k, have);
  }

  lemma CompleteKnows(t: Setup, remote: Address -> set<nat>, assumed: Address -> set<nat>, s: Node, i: nat)
    requires Knows(t, remote, assumed, s)
    ensures var s' := RequestStopAll(s.(own := s.own + {i}), i);
            Knows(t, remote, assumed, s'.(log := s'.log + [Completed(i)]))
  {
    CompleteTidy(t, assumed, s, i);
  }

  // ------------------------------------------------------------------
  // Receiving data

  lemma ReceiveKnows(t: Setup, remote: Address -> set<nat>, assumed: Address -> set<nat>, s: Node,
                     k: nat, i: nat, start: nat, length: nat)
    requires Knows(t, remote, assumed, s) && t.info.fileSize <= |s.file|
    requires k < |s.conns| && Requests(s.conns[k], i) && t.info.IsValid(i)
    ensures Knows(t, remote, assumed, ReceiveData(t, s, k, i, start, length))
  {
    var next := (start + length) % 0x1_0000;
    assert ConnTidy(t, assumed, s.own, s.conns[k]);
    if next < t.info.Size(i) {
      StartKnows(t, remote, assumed, s, k, s.conns[k].request.value.(offset := next));
    } else {
      StopKnows(t, remote, assumed, s, k);
      if Verified(t.info, t.digest, s.file, i) {
        CompleteKnows(t, remote, assumed, RequestStop(s, k), i);
      } else {
        assert s.own - {i} == s.own;
      }
    }
  }

  lemma ReceiverKnows(t: Setup, remote: Address -> set<nat>, assumed: Address -> set<nat>, s: Node,
                      src: Address, i: nat, start: nat, length: nat)
    requires Knows(t, remote, assumed, s) && t.info.IsValid(i) && i in assumed(src)
    ensures Knows(t, remote, assumed, DataReceiver(s, src, i, start, length).0)
  {
    ReceiverTidy(t, assumed, s, src, i, start, length);
    ConnectKnows(t, remote, assumed, s, src, Outgoing);
  }

  lemma ReplyKnows(t: Setup, remote: Address -> set<nat>, assumed: Address -> set<nat>, s: Node,
                   src: Address, i: nat, start: nat, data: seq<byte>)
    requires Knows(t, remote, assumed, s) && t.info.fileSize <= |s.file|
    requires t.info.IsValid(i) ==> i in assumed(src)
    ensures Knows(t, remote, assumed, HandleDataReply(t, s, src, i, start, data))
  {
    if t.info.IsValid(i) {
      var (s1, k) := DataReceiver(s, src, i, start, |data|);
      ReceiverKnows(t, remote, assumed, s, src, i, start, |data|);
      if k.Some? {
        var s2 := s1.(file := AfterWrite(t.info, s1.file, i, start, data));
        var written := WriteResult(t.info, i, start, |data|);
        if written > 0 {
          ReceiveKnows(t, remote, assumed, s2, k.value, i, start, written);
        }
      }
    }
  }

  // ------------------------------------------------------------------
  // Whole handlers

  lemma SendReplyKnows(t: Setup, remote: Address -> set<nat>, assumed: Address -> set<nat>, s: Node,
                       src: Address, i: nat, start: nat, n: nat)
    requires Knows(t, remote, assumed, s) && t.info.fileSize <= |s.file| && t.info.IsValid(i) && i in s.own
    requires 0 < n && Narrow(start) + n <= t.info.Size(i)
    ensures Knows(t, remote, assumed, SendReply(t, s, src, i, start, n))
  {
    var m := ReplyMessage(t, s, i, start, n);
    SendKnows(t, remote, assumed, s, if src.linkLocal then AllNodes else Unicast(src), m);
  }

  lemma DataRequestKnows(t: Setup, remote: Address -> set<nat>, assumed: Address -> set<nat>, s: Node,
                         src: Address, i: nat, start: nat, read: nat)
    requires Knows(t, remote, assumed, s) && t.info.fileSize <= |s.file|
    ensures Knows(t, remote, assumed, HandleDataRequest(t, s, src, i, start, read))
  {
    if t.info.IsValid(i) && i in s.own && Narrow(start) < t.info.Size(i) {
      var n := ReadLength(read, Min(t.maxData, t.info.Size(i) - Narrow(start)));
      if n > 0 {
        SendReplyKnows(t, remote, assumed, s, src, i, start, n);
      }
    }
  }

  /** A true message as its receiver sees it. */
  ghost predicate EventTrue(t: Setup, remote: Address -> set<nat>, e: Event) {
    e.Receive? && e.message.header.infoHash == t.infoHash ==>
      && e.message.header.have <= remote(e.src)
      && (e.message.DataReply? ==> e.message.data != [] && e.message.index in e.message.header.have)
  }

  lemma LoosenKnows(t: Setup, remote: Address -> set<nat>, src: Address, have: set<nat>, s: Node)
    requires Knows(t, remote, CLAIMED, s) && have <= remote(src)
    ensures Knows(t, remote, During(CLAIMED, src, have), s)
  {
    Loosen(t, CLAIMED, src, have, s);
  }

  lemma TightenKnows(t: Setup, remote: Address -> set<nat>, src: Address, have: set<nat>, s: Node)
    requires Knows(t, remote, During(CLAIMED, src, have), s)
    requires forall k :: 0 <= k < |s.conns| && s.conns[k].addr == src ==> have <= s.conns[k].have
    ensures Knows(t, remote, CLAIMED, s)
  {
    Tighten(t, CLAIMED, src, have, s);
  }

  lemma AcceptKnows(t: Setup, remote: Address -> set<nat>, s: Node, src: Address, toAll: bool,
                    m: Message<set<nat>>, read: nat)
    requires Knows(t, remote, During(CLAIMED, src, m.header.have), s) && t.info.fileSize <= |s.file|
    requires m.header.have <= remote(src)
    ensures var (s2, k) := ConnectWith(s, src, Incoming);
            Knows(t, remote, CLAIMED,
                  if k.Some? then Respond(t, UpdateHave(s2, k.value, m.header.have), k.value, src, m, read)
                  else if toAll then s2 else SendTo(s2, Unicast(src), Close(MakeHeader(t, s2))))
  {
    var have := m.header.have;
    var during := During(CLAIMED, src, have);
    var (s2, k) := ConnectWith(s, src, Incoming);
    ConnectKnows(t, remote, during, s, src, Incoming);
    if k.None? {
      TightenKnows(t, remote, src, have, s2);
      SendKnows(t, remote, CLAIMED, s2, Unicast(src), Close(MakeHeader(t, s2)));
    } else {
      HaveKnows(t, remote, during, s2, k.value, have);
      var s3 := UpdateHave(s2, k.value, have);
      assert forall j :: 0 <= j < |s3.conns| && j != k.value ==> s3.conns[j].addr != src;
      TightenKnows(t, remote, src, have, s3);
      if m.Have? || m.DataReply? {
        NextKnows(t, remote, CLAIMED, s3, k.value);
      } else if m.DataRequest? {
        DataRequestKnows(t, remote, CLAIMED, s3, src, m.index, m.start, read);
      }
    }
  }

  lemma MessageKnows(t: Setup, remote: Address -> set<nat>, s: Node, e: Event)
    requires Knows(t, remote, CLAIMED, s) && t.info.fileSize <= |s.file| && e.Receive? && EventTrue(t, remote, e)
    ensures Knows(t, remote, CLAIMED, Step(t, s, e))
  {
    var m, src := e.message, e.src;
    if m.header.infoHash == t.infoHash {
      if m.Close? {
        if Find(s.conns, src) < |s.conns| {
          RemoveKnows(t, remote, CLAIMED, s, Find(s.conns, src));
        }
      } else {
        LoosenKnows(t, remote, src, m.header.have, s);
        var s1 := if m.DataReply? then HandleDataReply(t, s, src, m.index, m.start, m.data) else s;
        if m.DataReply? {
          ReplyKnows(t, remote, During(CLAIMED, src, m.header.have), s, src, m.index, m.start, m.data);
        }
        AcceptKnows(t, remote, s1, src, e.toAll, m, e.read);
      }
    }
  }

  lemma RetryKnows(t: Setup, remote: Address -> set<nat>, s: Node, k: nat, expired: bool)
    requires Knows(t, remote, CLAIMED, s) && k < |s.conns|
    ensures Knows(t, remote, CLAIMED, RetryProcess(t, s, k, expired))
  {
    var c := s.conns[k];
    var (retry, action) := Retry.Process(c.retry, expired);
    var s1 := SetConn(s, k, c.(retry := retry));
    assert ConnTidy(t, CLAIMED, s.own, c);
    SetTidy(t, CLAIMED, s, k, c.(retry := retry));
    if c.request.Some? {
      if action.Again? {
        SendRequestKnows(t, remote, CLAIMED, s1, k);
      } else if action.Stop? {
        StopKnows(t, remote, CLAIMED, s1, k);
        NextKnows(t, remote, CLAIMED, RequestStop(s1, k), k);
      }
    }
  }

  lemma PollConnKnows(t: Setup, remote: Address -> set<nat>, s: Node, k: nat, timers: Timers)
    requires Knows(t, remote, CLAIMED, s) && k < |s.conns|
    ensures Knows(t, remote, CLAIMED, PollConn(t, s, k, timers))
  {
    var addr := s.conns[k].addr;
    if addr in timers.silent {
      RemoveKnows(t, remote, CLAIMED, s, k);
      SendKnows(t, remote, CLAIMED, Remove(s, k), Unicast(addr), Close(MakeHeader(t, s)));
    } else if s.conns[k].request.Some? {
      RetryKnows(t, remote, s, k, addr in timers.retries);
    }
    var s1 := if addr in timers.silent then DisconnectConn(t, s, k)
              else if s.conns[k].request.Some? then RetryProcess(t, s, k, addr in timers.retries)
              else s;
    SendKnows(t, remote, CLAIMED, s1, Unicast(addr), Have(MakeHeader(t, s1)));
  }

  lemma {:induction false} PollFromKnows(t: Setup, remote: Address -> set<nat>, s: Node, k: nat, timers: Timers)
    requires Knows(t, remote, CLAIMED, s) && k <= |s.conns|
    ensures Knows(t, remote, CLAIMED, PollFrom(t, s, k, timers))
    decreases |s.conns| - k
  {
    if k < |s.conns| {
      PollConnKnows(t, remote, s, k, timers);
      PollFromKnows(t, remote, PollConn(t, s, k, timers),
                    if s.conns[k].addr in timers.silent then k else k + 1, timers);
    }
  }

  /** Every step keeps what a node knows true, given true messages. */
  lemma StepKnows(t: Setup, remote: Address -> set<nat>, s: Node, e: Event)
    requires Knows(t, remote, CLAIMED, s) && t.info.fileSize <= |s.file| && EventTrue(t, remote, e)
    ensures Knows(t, remote, CLAIMED, Step(t, s, e))
  {
    match e {
      case Receive(_, _, _, _) => MessageKnows(t, remote, s, e);
      case WakeUp(timers) =>
        PollFromKnows(t, remote, s, 0, timers);
        var s1 := PollFrom(t, s, 0, timers);
        SendKnows(t, remote, CLAIMED, s1, AllNodes, Have(MakeHeader(t, s1)));
      case Join(peer) => ConnectKnows(t, remote, CLAIMED, s, peer, Outgoing);
    }
  }

  /** What a node knows stays true when the others get more pieces. */
  lemma GrowKnows(t: Setup, remote: Address -> set<nat>, remote': Address -> set<nat>, s: Node)
    requires Knows(t, remote, CLAIMED, s)
    requires forall a :: remote(a) <= remote'(a) <= Below(t.info.NumPieces())
    ensures Knows(t, remote', CLAIMED, s)
  {
    forall k | 0 <= k < |s.conns| ensures s.conns[k].have <= remote'(s.conns[k].addr) {
      assert s.conns[k].have <= remote(s.conns[k].addr);
    }
    forall e | e in s.log && e.Send? ensures SentTrue(t, remote', s.own, e.to, e.message) {
      assert SentTrue(t, remote, s.own, e.to, e.message);
    }
  }
}
