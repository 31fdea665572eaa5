/** Outstanding requests are being retried: how often a request is sent, and which requests could be left alone. */
module PeerRetry {
  import opened Common
  import opened Sha1
  import opened Torrent
  import opened PieceStore
  import opened PeerSpec
  import opened PeerIntegrity
  import Retry

  /** An outstanding request has been sent, and another retry or the stop is still to come. */
  ghost predicate Retrying(c: Conn) {
    c.request.Some? ==> 1 <= c.retry.numRetries <= c.retry.maxRetries && c.retry.maxRetries == MAX_PEER_RETRIES
  }

  ghost predicate AllRetrying(s: Node) {
    forall k :: 0 <= k < |s.conns| ==> Retrying(s.conns[k])
  }

  ghost predicate OthersRetrying(s: Node, k: nat) {
    forall j :: 0 <= j < |s.conns| && j != k ==> Retrying(s.conns[j])
  }

  // ------------------------------------------------------------------
  // What every step keeps

  lemma StartRetrying(t: Setup, s: Node, k: nat, r: Request)
    requires k < |s.conns| && OthersRetrying(s, k)
    ensures AllRetrying(RequestStart(t, s, k, r))
  {
  }

  lemma StopRetrying(s: Node, k: nat)
    requires k < |s.conns| && OthersRetrying(s, k)
    ensures AllRetrying(RequestStop(s, k))
  {
  }

  lemma NextRetrying(t: Setup, s: Node, k: nat)
    requires AllRetrying(s) && k < |s.conns|
    ensures AllRetrying(RequestNext(t, s, k))
  {
    if s.conns[k].request.None? && !IsSeed(t, s.own) && Candidates(t, s, k) != {} {
      StartRetrying(t, s, k, Request(Rarest(s.conns, Candidates(t, s, k), t.info.NumPieces()), 0));
    }
  }

  lemma RemoveRetrying(s: Node, k: nat)
    requires AllRetrying(s) && k < |s.conns|
    ensures AllRetrying(Remove(s, k))
  {
    var s' := Remove(s, k);
    assert forall j :: 0 <= j < |s'.conns| ==> s'.conns[j] == s.conns[if j < k then j else j + 1];
  }

  lemma ReceiveRetrying(t: Setup, s: Node, k: nat, i: nat, start: nat, length: nat)
    requires t.Proper() && t.info.IsValid(i) && t.info.fileSize <= |s.file|
    requires k < |s.conns| && s.conns[k].request.Some? && OthersRetrying(s, k)
    ensures AllRetrying(ReceiveData(t, s, k, i, start, length))
  {
    var next := (start + length) % 0x1_0000;
    if next < t.info.Size(i) {
      StartRetrying(t, s, k, s.conns[k].request.value.(offset := next));
    } else {
      StopRetrying(s, k);
    }
  }

  /** A new request goes on at once if the reply carries data of a nonempty file. */
  lemma ReplyRetrying(t: Setup, s: Node, src: Address, i: nat, start: nat, data: seq<byte>)
    requires AllRetrying(s) && t.Proper() && t.info.fileSize <= |s.file| && 0 < t.info.fileSize && data != []
    ensures AllRetrying(HandleDataReply(t, s, src, i, start, data))
  {
    if t.info.IsValid(i) {
      var (s1, k) := DataReceiver(s, src, i, start, |data|);
      if k.Some? {
        var s2 := s1.(file := AfterWrite(t.info, s1.file, i, start, data));
        var written := WriteResult(t.info, i, start, |data|);
        Abut(t.info, i);
        assert OthersRetrying(s2, k.value);
        if written > 0 {
          ReceiveRetrying(t, s2, k.value, i, start, written);
        } else {
          assert start > 0;
        }
      }
    }
  }

  lemma RespondRetrying(t: Setup, s: Node, k: nat, src: Address, m: Message<set<nat>>, read: nat)
    requires AllRetrying(s) && t.Proper() && t.info.fileSize <= |s.file| && k < |s.conns|
    ensures AllRetrying(Respond(t, s, k, src, m, read))
  {
    if m.Have? || m.DataReply? {
      NextRetrying(t, s, k);
    }
  }

  lemma ProcessRetrying(t: Setup, s: Node, k: nat, expired: bool)
    requires AllRetrying(s) && k < |s.conns|
    ensures AllRetrying(RetryProcess(t, s, k, expired))
  {
    var c := s.conns[k];
    var (retry, action) := Retry.Process(c.retry, expired);
    var s1 := SetConn(s, k, c.(retry := retry));
    if action.Stop? && c.request.Some? {
      StopRetrying(s1, k);
      NextRetrying(t, RequestStop(s1, k), k);
    }
  }

  lemma PollConnRetrying(t: Setup, s: Node, k: nat, timers: Timers)
    requires AllRetrying(s) && k < |s.conns|
    ensures AllRetrying(PollConn(t, s, k, timers))
  {
    if s.conns[k].addr in timers.silent {
      RemoveRetrying(s, k);
    } else if s.conns[k].request.Some? {
      ProcessRetrying(t, s, k, s.conns[k].addr in timers.retries);
    }
  }

  lemma {:induction false} PollFromRetrying(t: Setup, s: Node, k: nat, timers: Timers)
    requires AllRetrying(s) && k <= |s.conns|
    ensures AllRetrying(PollFrom(t, s, k, timers))
    decreases |s.conns| - k
  {
    if k < |s.conns| {
      PollConnRetrying(t, s, k, timers);
      PollFromRetrying(t, PollConn(t, s, k, timers), if s.conns[k].addr in timers.silent then k else k + 1, timers);
    }
  }

  ghost predicate CarriesData(e: Event) {
    e.Receive? && e.message.DataReply? ==> e.message.data != []
  }

  lemma StepRetrying(t: Setup, s: Node, e: Event)
    requires AllRetrying(s) && t.Proper() && t.info.fileSize <= |s.file| && 0 < t.info.fileSize && CarriesData(e)
    ensures AllRetrying(Step(t, s, e))
  {
    match e {
      case Receive(src, _, m, read) =>
        if m.header.infoHash == t.infoHash {
          if m.Close? {
            if Find(s.conns, src) < |s.conns| {
              RemoveRetrying(s, Find(s.conns, src));
            }
          } else {
            var s1 := if m.DataReply? then HandleDataReply(t, s, src, m.index, m.start, m.data) else s;
            if m.DataReply? {
              ReplyRetrying(t, s, src, m.index, m.start, m.data);
            }
            var (s2, k) := ConnectWith(s1, src, Incoming);
            if k.Some? {
              RespondRetrying(t, UpdateHave(s2, k.value, m.header.have), k.value, src, m, read);
            }
          }
        }
      case WakeUp(timers) => PollFromRetrying(t, s, 0, timers);
      case Join(_) =>
    }
  }

  /** In every run on a nonempty file in which data replies carry data, whatever they carry and whoever sends them,
      every outstanding request has been sent and is being retried. */
  lemma {:induction false} RequestsAreRetried(t: Setup, s: Node, events: seq<Event>)
    requires Sound(t, s) && AllRetrying(s) && 0 < t.info.fileSize && forall e :: e in events ==> CarriesData(e)
    ensures AllRetrying(Steps(t, s, events))
    decreases |events|
  {
    if events != [] {
      StepKeeps(t, s, events[0]);
      StepRetrying(t, s, events[0]);
      RequestsAreRetried(t, Step(t, s, events[0]), events[1..]);
    }
  }

  // ------------------------------------------------------------------
  // How often a request is sent

  /** A node after checks of one connection's retry timer. */
  ghost function Ticked(t: Setup, s: Node, k: nat, ticks: seq<bool>): (r: Node)
    requires k < |s.conns|
    decreases |ticks|
  {
    if ticks == [] then s else Ticked(t, RetryProcess(t, s, k, ticks[0]), k, ticks[1..])
  }

  ghost function Times(e: Effect<set<nat>>, n: nat): (r: seq<Effect<set<nat>>>)
    ensures |r| == n
  {
    seq(n, i => e)
  }

  ghost function RequestOf(t: Setup, s: Node, k: nat): Effect<set<nat>>
    requires k < |s.conns| && s.conns[k].request.Some?
  {
    var r := s.conns[k].request.value;
    Send(Unicast(s.conns[k].addr), DataRequest(MakeHeader(t, s), r.index % 0x100, r.offset % 0x1_0000))
  }

  /** Until the stop the node keeps the request and sends it once for every retry of the timer. */
  lemma {:induction false} TicksSend(t: Setup, s: Node, k: nat, ticks: seq<bool>)
    requires k < |s.conns| && s.conns[k].request.Some? && Retry.Stops(Retry.Run(s.conns[k].retry, ticks)) == 0
    ensures var s' := Ticked(t, s, k, ticks);
            && |s'.conns| == |s.conns| && s'.conns[k].request == s.conns[k].request
            && s'.log == s.log + Times(RequestOf(t, s, k), Retry.Agains(Retry.Run(s.conns[k].retry, ticks)))
    decreases |ticks|
  {
    if ticks != [] {
      var retry, e := s.conns[k].retry, RequestOf(t, s, k);
      var trace := Retry.Run(retry, ticks);
      var (retry', action) := Retry.Process(retry, ticks[0]);
      var s1 := RetryProcess(t, s, k, ticks[0]);
      assert trace[0] == action && trace[1..] == Retry.Run(retry', ticks[1..]);
      assert !action.Stop?;
      assert s1.conns[k].request == s.conns[k].request && s1.conns[k].retry == retry';
      assert s1.log == if action.Again? then s.log + [e] else s.log;
      assert RequestOf(t, s1, k) == e;
      TicksSend(t, s1, k, ticks[1..]);
      var n := Retry.Agains(trace[1..]);
      if action.Again? {
        assert s.log + [e] + Times(e, n) == s.log + Times(e, n + 1);
      }
    }
  }

  /** A request that is not answered is sent as often as its episode retries, at most MAX_PEER_RETRIES times. */
  lemma EpisodeSends(t: Setup, s: Node, k: nat, r: Request, ticks: seq<bool>)
    requires k < |s.conns|
    requires Retry.Stops(Retry.Episode(s.conns[k].retry, MAX_PEER_RETRIES, ticks)) == 0
    ensures var trace := Retry.Episode(s.conns[k].retry, MAX_PEER_RETRIES, ticks);
            var s1 := RequestStart(t, s, k, r);
            var s' := Ticked(t, s1, k, ticks);
            && |s'.conns| == |s.conns| && s'.conns[k].request == Some(r)
            && s'.log == s.log + Times(RequestOf(t, s1, k), Retry.Agains(trace))
            && 1 <= Retry.Agains(trace) <= MAX_PEER_RETRIES
  {
    var retry := s.conns[k].retry;
    var s1 := RequestStart(t, s, k, r);
    var (retry', action) := Retry.Start(retry, MAX_PEER_RETRIES);
    var trace := Retry.Episode(retry, MAX_PEER_RETRIES, ticks);
    assert trace[0] == action && trace[1..] == Retry.Run(retry', ticks) && action.Again?;
    TicksSend(t, s1, k, ticks);
    Retry.EpisodeBounds(retry, MAX_PEER_RETRIES, ticks);
    var n := Retry.Agains(trace[1..]);
    var e := RequestOf(t, s1, k);
    assert s1.log == s.log + [e];
    assert s.log + [e] + Times(e, n) == s.log + Times(e, n + 1);
  }

  // ------------------------------------------------------------------
  // The limit

  /** A data reply from this sender opens a request for piece i. */
  ghost predicate Opens(t: Setup, s: Node, src: Address, i: nat) {
    && t.info.IsValid(i) && i !in s.own && i !in Pending(s.conns)
    && ConnectWith(s, src, Outgoing).1.Some? && Receiver(s, src).request.None?
  }

  /** The connection that would take data of a new piece. */
  ghost function Receiver(s: Node, src: Address): Conn
    requires ConnectWith(s, src, Outgoing).1.Some?
  {
    ConnectWith(s, src, Outgoing).0.conns[ConnectWith(s, src, Outgoing).1.value]
  }

  ghost function Opened(t: Setup, s: Node, src: Address, i: nat): Node
    requires Opens(t, s, src, i)
  {
    var (s1, k) := ConnectWith(s, src, Outgoing);
    SetConn(s1, k.value, s1.conns[k.value].(request := Some(Request(i, 0))))
  }

  /** What follows the first data of a piece: a request for the rest, or the outcome of verifying it. */
  ghost function Follows(t: Setup, s: Node, src: Address, i: nat, data: seq<byte>): Effect<set<nat>>
    requires t.Proper() && t.info.fileSize <= |s.file| && t.info.IsValid(i)
  {
    if |data| < t.info.Size(i) then Send(Unicast(src), DataRequest(MakeHeader(t, s), i % 0x100, |data| % 0x1_0000))
    else if Verified(t.info, t.digest, AfterWrite(t.info, s.file, i, 0, data), i) then Completed(i)
    else Corrupted(i)
  }

  /** A reply that opens a request goes on to send for the rest or to verify the piece exactly if it carries data
      and the file is not empty; otherwise the request is left open, and nothing is sent for it. */
  lemma OpeningReplyGoesOnIff(t: Setup, s: Node, src: Address, i: nat, data: seq<byte>)
    requires t.Proper() && t.info.fileSize <= |s.file| && Opens(t, s, src, i)
    ensures var s' := HandleDataReply(t, s, src, i, 0, data);
            && (s'.log == s.log + [Follows(t, s, src, i, data)] <==> 0 < |data| && 0 < t.info.fileSize)
            && (s' == Opened(t, s, src, i) <==> !(0 < |data| && 0 < t.info.fileSize))
  {
    var (s1, k) := ConnectWith(s, src, Outgoing);
    var s2 := Opened(t, s, src, i);
    assert DataReceiver(s, src, i, 0, |data|) == (s2, k);
    Abut(t.info, i);
    if 0 < |data| && 0 < t.info.fileSize {
      FirstDataFollows(t, s2, k.value, src, i, data);
    } else {
      NothingWritten(t.info, s.file, i, data);
    }
  }

  lemma NothingWritten(info: Info, file: seq<byte>, i: nat, data: seq<byte>)
    requires info.Proper() && info.fileSize <= |file| && info.IsValid(i) && (data == [] || info.fileSize == 0)
    ensures WriteResult(info, i, 0, |data|) <= 0 && AfterWrite(info, file, i, 0, data) == file
  {
    Abut(info, i);
    if info.Size(i) > 0 {
      OverwriteNothing(file, info.Offset(i), data[..0]);
    }
  }

  lemma OverwriteNothing(file: seq<byte>, start: nat, chunk: seq<byte>)
    requires start <= |file| && chunk == []
    ensures Overwrite(file, start, chunk) == file
  {
  }

  lemma FirstDataFollows(t: Setup, s: Node, k: nat, src: Address, i: nat, data: seq<byte>)
    requires t.Proper() && t.info.fileSize <= |s.file| && t.info.IsValid(i) && 0 < t.info.fileSize && 0 < |data|
    requires k < |s.conns| && s.conns[k].addr == src && Requests(s.conns[k], i)
    ensures var file := AfterWrite(t.info, s.file, i, 0, data);
            var written := WriteResult(t.info, i, 0, |data|);
            && written > 0
            && ReceiveData(t, s.(file := file), k, i, 0, written).log == s.log + [Follows(t, s, src, i, data)]
  {
    Abut(t.info, i);
    var s' := s.(file := AfterWrite(t.info, s.file, i, 0, data));
    if |data| < t.info.Size(i) {
      ReceiveMore(t, s', k, i, 0, |data|);
    } else {
      LastDataFollows(t, s', k, i);
    }
  }

  lemma LastDataFollows(t: Setup, s: Node, k: nat, i: nat)
    requires t.Proper() && t.info.fileSize <= |s.file| && t.info.IsValid(i) && k < |s.conns| && Requests(s.conns[k], i)
    ensures ReceiveData(t, s, k, i, 0, t.info.Size(i)).log
         == s.log + [if Verified(t.info, t.digest, s.file, i) then Completed(i) else Corrupted(i)]
  {
    assert t.info.Size(i) % 0x1_0000 == t.info.Size(i);
  }

  /** A connection's request is left alone by every check of its timer exactly if its retries are used up. */
  lemma InertIff(t: Setup, s: Node, k: nat)
    requires k < |s.conns| && s.conns[k].request.Some?
    ensures (forall expired :: RetryProcess(t, s, k, expired) == s)
            <==> s.conns[k].retry.numRetries > s.conns[k].retry.maxRetries
  {
    var c := s.conns[k];
    var s' := RetryProcess(t, s, k, true);
    if c.retry.numRetries > c.retry.maxRetries {
      assert SetConn(s, k, c) == s;
    } else if c.retry.numRetries < c.retry.maxRetries {
      assert s'.conns[k].retry.numRetries == c.retry.numRetries + 1;
    } else {
      assert s'.conns[k].request.None? || |s'.log| > |s.log|;
    }
  }

  /** The request a reply leaves open is never looked at again exactly if its connection had used up its retries
      before; otherwise the next expiry sends it or gives it up. */
  lemma LeftOpenStallsIff(t: Setup, s: Node, src: Address, i: nat, data: seq<byte>)
    requires t.Proper() && t.info.fileSize <= |s.file| && Opens(t, s, src, i)
    requires !(0 < |data| && 0 < t.info.fileSize)
    ensures var s', k := HandleDataReply(t, s, src, i, 0, data), ConnectWith(s, src, Outgoing).1.value;
            && k < |s'.conns| && Requests(s'.conns[k], i)
            && ((forall expired :: RetryProcess(t, s', k, expired) == s')
                <==> Receiver(s, src).retry.numRetries > Receiver(s, src).retry.maxRetries)
  {
    OpeningReplyGoesOnIff(t, s, src, i, data);
    InertIff(t, Opened(t, s, src, i), ConnectWith(s, src, Outgoing).1.value);
  }

  /** On a new connection the next expiry gives up the request an empty reply has opened. */
  lemma NewConnectionRecovers(t: Setup, file: seq<byte>, src: Address, i: nat)
    requires t.Proper() && t.info.fileSize <= |file| && t.info.IsValid(i)
    ensures var s := HandleDataReply(t, Node([], {}, file, []), src, i, 0, []);
            && |s.conns| == 1 && s.conns[0].request == Some(Request(i, 0))
            && RetryProcess(t, s, 0, true).conns[0].request == None
  {
    var s0 := Node([], {}, file, []);
    var (s1, k) := ConnectWith(s0, src, Outgoing);
    assert s1.conns == [NewConn(src, Outgoing, RETRY_TIMEOUT)] && k == Some(0);
    OpeningReplyGoesOnIff(t, s0, src, i, []);
    var s := HandleDataReply(t, s0, src, i, 0, []);
    var c := s.conns[0];
    var stopped := RequestStop(SetConn(s, 0, c.(retry := Retry.Process(c.retry, true).0)), 0);
    NoCandidates(t, stopped, 0);
  }

  /** After a request has been given up for good, an empty reply opens one that no expiry touches. */
  lemma SpentConnectionStalls(t: Setup, file: seq<byte>, c: Conn, i: nat)
    requires t.Proper() && t.info.fileSize <= |file| && t.info.IsValid(i) && c.have == {}
    requires c.request == Some(Request(i, 0))
    requires c.retry == Retry.Counters(RETRY_TIMEOUT, MAX_PEER_RETRIES, MAX_PEER_RETRIES)
    ensures var given := RetryProcess(t, Node([c], {}, file, []), 0, true);
            var s := HandleDataReply(t, given, c.addr, i, 0, []);
            && given.conns == [given.conns[0]] && given.conns[0].request == None
            && |s.conns| == 1 && s.conns[0].request == Some(Request(i, 0))
            && forall expired :: RetryProcess(t, s, 0, expired) == s
  {
    var s0 := Node([c], {}, file, []);
    var c1 := c.(retry := Retry.Process(c.retry, true).0);
    var given := RequestStop(SetConn(s0, 0, c1), 0);
    NoCandidates(t, given, 0);
    assert RetryProcess(t, s0, 0, true) == given && given.conns == [c1.(request := None)];
    assert Pending(given.conns) == {};
    assert ConnectWith(given, c.addr, Outgoing) == (given, Some(0));
    LeftOpenStallsIff(t, given, c.addr, i, []);
    OpeningReplyGoesOnIff(t, given, c.addr, i, []);
  }

  lemma NoCandidates(t: Setup, s: Node, k: nat)
    requires k < |s.conns| && s.conns[k].have == {}
    ensures RequestNext(t, s, k) == s
  {
    assert Candidates(t, s, k) == {};
  }
}
