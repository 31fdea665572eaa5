/** Which requests are outstanding, whatever data arrives: for missing pieces that the remote has claimed,
    and no two for one piece before the end-game. Nothing is assumed of the data, its sender or the piece size. */
module PeerRequests {
  import opened Common
  import opened Bitset
  import opened Sha1
  import opened Torrent
  import opened PieceStore
  import opened PeerSpec
  import opened PeerIntegrity
  import Retry

  /** A request is for a valid missing piece that its remote has claimed, or may be assumed to have. */
  ghost predicate RequestTidy(t: Setup, assumed: Address -> set<nat>, own: set<nat>, c: Conn, i: nat) {
    t.info.IsValid(i) && i !in own && (i in c.have || i in assumed(c.addr))
  }

  ghost predicate ConnTidy(t: Setup, assumed: Address -> set<nat>, own: set<nat>, c: Conn) {
    c.request.Some? ==> RequestTidy(t, assumed, own, c, c.request.value.index)
  }

  ghost predicate Orderly(t: Setup, assumed: Address -> set<nat>, s: Node) {
    && DistinctAddresses(s.conns) && Exclusive(t, s)
    && (forall k :: 0 <= k < |s.conns| ==> ConnTidy(t, assumed, s.own, s.conns[k]))
  }

  /** Only valid pieces have been claimed. */
  ghost predicate ClaimsValid(t: Setup, s: Node) {
    forall k :: 0 <= k < |s.conns| ==> s.conns[k].have <= Below(t.info.NumPieces())
  }

  ghost predicate Tidy(t: Setup, assumed: Address -> set<nat>, s: Node) {
    Orderly(t, assumed, s) && ClaimsValid(t, s)
  }

  /** Nothing is assumed: every requested piece has been claimed. */
  ghost const CLAIMED: Address -> set<nat> := a => {}

  /** Everything is assumed: nothing is said of what the remotes have claimed. */
  ghost function Anything(t: Setup): Address -> set<nat> {
    a => Below(t.info.NumPieces())
  }

  // ------------------------------------------------------------------
  // Elementary changes

  lemma SetTidy(t: Setup, assumed: Address -> set<nat>, s: Node, k: nat, c: Conn)
    requires Orderly(t, assumed, s) && k < |s.conns| && c.addr == s.conns[k].addr && ConnTidy(t, assumed, s.own, c)
    requires c.request.None? || Requests(s.conns[k], c.request.value.index)
             || c.request.value.index !in Pending(s.conns) || IsEndgame(t, s.own)
    ensures Orderly(t, assumed, SetConn(s, k, c))
  {
    var s' := SetConn(s, k, c);
    forall a, b | 0 <= a < b < |s'.conns| && SameRequest(s'.conns[a], s'.conns[b])
      ensures IsEndgame(t, s.own)
    {
      if a == k {
        assert Requests(s.conns[b], c.request.value.index);
      } else if b == k {
        assert Requests(s.conns[a], c.request.value.index);
      } else {
        assert SameRequest(s.conns[a], s.conns[b]);
      }
    }
  }

  lemma StartTidy(t: Setup, assumed: Address -> set<nat>, s: Node, k: nat, r: Request)
    requires Tidy(t, assumed, s) && k < |s.conns| && RequestTidy(t, assumed, s.own, s.conns[k], r.index)
    requires Requests(s.conns[k], r.index) || r.index !in Pending(s.conns) || IsEndgame(t, s.own)
    ensures Tidy(t, assumed, RequestStart(t, s, k, r))
  {
    var c := s.conns[k];
    SetTidy(t, assumed, s, k, c.(request := Some(r), retry := Retry.Start(c.retry, MAX_PEER_RETRIES).0));
  }

  lemma StopTidy(t: Setup, assumed: Address -> set<nat>, s: Node, k: nat)
    requires Tidy(t, assumed, s) && k < |s.conns|
    ensures Tidy(t, assumed, RequestStop(s, k))
  {
    SetTidy(t, assumed, s, k, s.conns[k].(request := None));
  }

  lemma NextTidy(t: Setup, assumed: Address -> set<nat>, s: Node, k: nat)
    requires Tidy(t, assumed, s) && k < |s.conns|
    ensures Tidy(t, assumed, RequestNext(t, s, k))
  {
    var candidates := Candidates(t, s, k);
    if s.conns[k].request.None? && !IsSeed(t, s.own) && candidates != {} {
      var some :| some in candidates;
      assert some in s.conns[k].have;
      var i := Rarest(s.conns, candidates, t.info.NumPieces());
      assert IsRarest(s.conns, candidates, t.info.NumPieces(), i);
      StartTidy(t, assumed, s, k, Request(i, 0));
    }
  }

  lemma ConnectTidy(t: Setup, assumed: Address -> set<nat>, s: Node, addr: Address, pool: Pool)
    requires Tidy(t, assumed, s)
    ensures Tidy(t, assumed, ConnectWith(s, addr, pool).0)
  {
    var s' := ConnectWith(s, addr, pool).0;
    if s'.conns != s.conns {
      forall j, k | 0 <= j < k < |s'.conns| && SameRequest(s'.conns[j], s'.conns[k]) ensures IsEndgame(t, s.own) {
        assert SameRequest(s.conns[j - 1], s.conns[k - 1]);
      }
    }
  }

  lemma RemoveTidy(t: Setup, assumed: Address -> set<nat>, s: Node, k: nat)
    requires Tidy(t, assumed, s) && k < |s.conns|
    ensures Tidy(t, assumed, Remove(s, k))
  {
    var s' := Remove(s, k);
    assert forall j :: 0 <= j < |s'.conns| ==> s'.conns[j] == s.conns[if j < k then j else j + 1];
    forall a, b | 0 <= a < b < |s'.conns| && SameRequest(s'.conns[a], s'.conns[b]) ensures IsEndgame(t, s.own) {
      assert SameRequest(s.conns[if a < k then a else a + 1], s.conns[if b < k then b else b + 1]);
    }
  }

  lemma HaveTidy(t: Setup, assumed: Address -> set<nat>, s: Node, k: nat, have: set<nat>)
    requires Tidy(t, assumed, s) && k < |s.conns| && have <= Below(t.info.NumPieces())
    ensures Tidy(t, assumed, UpdateHave(s, k, have))
  {
    SetTidy(t, assumed, s, k, s.conns[k].(have := s.conns[k].have + have));
  }

  /** A completed piece is requested by nobody any more. */
  lemma CompleteTidy(t: Setup, assumed: Address -> set<nat>, s: Node, i: nat)
    requires Tidy(t, assumed, s)
    ensures Tidy(t, assumed, RequestStopAll(s.(own := s.own + {i}), i))
  {
    var s' := RequestStopAll(s.(own := s.own + {i}), i);
    OwnGrows(t, s.own, s'.own);
    forall k | 0 <= k < |s'.conns| ensures ConnTidy(t, assumed, s'.own, s'.conns[k]) {
      assert ConnTidy(t, assumed, s.own, s.conns[k]);
    }
    forall j, k | 0 <= j < k < |s'.conns| && SameRequest(s'.conns[j], s'.conns[k]) ensures IsEndgame(t, s'.own) {
      assert SameRequest(s.conns[j], s.conns[k]);
    }
  }

  // ------------------------------------------------------------------
  // Receiving data

  lemma ReceiveTidy(t: Setup, assumed: Address -> set<nat>, s: Node, k: nat, i: nat, start: nat, length: nat)
    requires Tidy(t, assumed, s) && t.Proper() && t.info.fileSize <= |s.file|
    requires k < |s.conns| && Requests(s.conns[k], i) && t.info.IsValid(i)
    ensures Tidy(t, assumed, ReceiveData(t, s, k, i, start, length))
  {
    var next := (start + length) % 0x1_0000;
    assert ConnTidy(t, assumed, s.own, s.conns[k]);
    if next < t.info.Size(i) {
      StartTidy(t, assumed, s, k, s.conns[k].request.value.(offset := next));
    } else {
      StopTidy(t, assumed, s, k);
      if Verified(t.info, t.digest, s.file, i) {
        CompleteTidy(t, assumed, RequestStop(s, k), i);
      } else {
        assert s.own - {i} == s.own;
      }
    }
  }

  lemma ReceiverTidy(t: Setup, assumed: Address -> set<nat>, s: Node, src: Address, i: nat, start: nat, length: nat)
    requires Tidy(t, assumed, s) && t.info.IsValid(i) && i in assumed(src)
    ensures Tidy(t, assumed, DataReceiver(s, src, i, start, length).0)
  {
    if i !in s.own && i !in Pending(s.conns) && start == 0 {
      var (s1, k) := ConnectWith(s, src, Outgoing);
      ConnectTidy(t, assumed, s, src, Outgoing);
      if k.Some? && s1.conns[k.value].request.None? {
        ConnectPending(s, src, Outgoing);
        SetTidy(t, assumed, s1, k.value, s1.conns[k.value].(request := Some(Request(i, start))));
      }
    }
  }

  lemma ReplyTidy(t: Setup, assumed: Address -> set<nat>, s: Node, src: Address, i: nat, start: nat, data: seq<byte>)
    requires Tidy(t, assumed, s) && t.Proper() && t.info.fileSize <= |s.file|
    requires t.info.IsValid(i) ==> i in assumed(src)
    ensures Tidy(t, assumed, HandleDataReply(t, s, src, i, start, data))
  {
    if t.info.IsValid(i) {
      var (s1, k) := DataReceiver(s, src, i, start, |data|);
      ReceiverTidy(t, assumed, s, src, i, start, |data|);
      if k.Some? {
        var s2 := s1.(file := AfterWrite(t.info, s1.file, i, start, data));
        var written := WriteResult(t.info, i, start, |data|);
        if written > 0 {
          ReceiveTidy(t, assumed, s2, k.value, i, start, written);
        }
      }
    }
  }

  // ------------------------------------------------------------------
  // Whole handlers

  /** While a message is handled, its sender may be assumed to have what its header claims. */
  ghost function During(assumed: Address -> set<nat>, src: Address, have: set<nat>): Address -> set<nat> {
    a => if a == src then assumed(a) + have else assumed(a)
  }

  lemma Loosen(t: Setup, assumed: Address -> set<nat>, src: Address, have: set<nat>, s: Node)
    requires Tidy(t, assumed, s)
    ensures Tidy(t, During(assumed, src, have), s)
  {
    forall k | 0 <= k < |s.conns| ensures ConnTidy(t, During(assumed, src, have), s.own, s.conns[k]) {
      assert ConnTidy(t, assumed, s.own, s.conns[k]);
    }
  }

  /** Once the claim is recorded, or no connection to its sender exists, it need not be assumed. */
  lemma Tighten(t: Setup, assumed: Address -> set<nat>, src: Address, have: set<nat>, s: Node)
    requires Tidy(t, During(assumed, src, have), s)
    requires forall k :: 0 <= k < |s.conns| && s.conns[k].addr == src ==> have <= s.conns[k].have
    ensures Tidy(t, assumed, s)
  {
    forall k | 0 <= k < |s.conns| ensures ConnTidy(t, assumed, s.own, s.conns[k]) {
      assert ConnTidy(t, During(assumed, src, have), s.own, s.conns[k]);
    }
  }

  /** Claims are of valid pieces, and a data reply is for a piece its header claims or that may be assumed. */
  ghost predicate EventTidy(t: Setup, assumed: Address -> set<nat>, e: Event) {
    e.Receive? && e.message.header.infoHash == t.infoHash ==>
      && e.message.header.have <= Below(t.info.NumPieces())
      && (e.message.DataReply? && t.info.IsValid(e.message.index) ==>
            e.message.index in e.message.header.have + assumed(e.src))
  }

  lemma AcceptTidy(t: Setup, assumed: Address -> set<nat>, s: Node, src: Address,
                   toAll: bool, m: Message<set<nat>>, read: nat)
    requires Tidy(t, During(assumed, src, m.header.have), s) && t.Proper() && t.info.fileSize <= |s.file|
    requires m.header.have <= Below(t.info.NumPieces())
    ensures var (s2, k) := ConnectWith(s, src, Incoming);
            Tidy(t, assumed,
                 if k.None? then s2
                 else Respond(t, UpdateHave(s2, k.value, m.header.have), k.value, src, m, read))
  {
    var during := During(assumed, src, m.header.have);
    var (s2, k) := ConnectWith(s, src, Incoming);
    ConnectTidy(t, during, s, src, Incoming);
    if k.None? {
      Tighten(t, assumed, src, m.header.have, s2);
    } else {
      HaveTidy(t, during, s2, k.value, m.header.have);
      var s3 := UpdateHave(s2, k.value, m.header.have);
      assert forall j :: 0 <= j < |s3.conns| && j != k.value ==> s3.conns[j].addr != src;
      Tighten(t, assumed, src, m.header.have, s3);
      if m.Have? || m.DataReply? {
        NextTidy(t, assumed, s3, k.value);
      }
    }
  }

  lemma MessageTidy(t: Setup, assumed: Address -> set<nat>, s: Node, e: Event)
    requires Tidy(t, assumed, s) && t.Proper() && t.info.fileSize <= |s.file| && e.Receive? && EventTidy(t, assumed, e)
    ensures Tidy(t, assumed, Step(t, s, e))
  {
    var m, src := e.message, e.src;
    if m.header.infoHash == t.infoHash {
      if m.Close? {
        if Find(s.conns, src) < |s.conns| {
          RemoveTidy(t, assumed, s, Find(s.conns, src));
        }
      } else {
        var during := During(assumed, src, m.header.have);
        Loosen(t, assumed, src, m.header.have, s);
        var s1 := if m.DataReply? then HandleDataReply(t, s, src, m.index, m.start, m.data) else s;
        if m.DataReply? {
          ReplyTidy(t, during, s, src, m.index, m.start, m.data);
        }
        AcceptTidy(t, assumed, s1, src, e.toAll, m, e.read);
      }
    }
  }

  lemma RetryTidy(t: Setup, assumed: Address -> set<nat>, s: Node, k: nat, expired: bool)
    requires Tidy(t, assumed, s) && k < |s.conns|
    ensures Tidy(t, assumed, RetryProcess(t, s, k, expired))
  {
    var c := s.conns[k];
    var (retry, action) := Retry.Process(c.retry, expired);
    var s1 := SetConn(s, k, c.(retry := retry));
    assert ConnTidy(t, assumed, s.own, c);
    SetTidy(t, assumed, s, k, c.(retry := retry));
    if action.Stop? && c.request.Some? {
      StopTidy(t, assumed, s1, k);
      NextTidy(t, assumed, RequestStop(s1, k), k);
    }
  }

  lemma PollConnTidy(t: Setup, assumed: Address -> set<nat>, s: Node, k: nat, timers: Timers)
    requires Tidy(t, assumed, s) && k < |s.conns|
    ensures Tidy(t, assumed, PollConn(t, s, k, timers))
  {
    if s.conns[k].addr in timers.silent {
      RemoveTidy(t, assumed, s, k);
    } else if s.conns[k].request.Some? {
      RetryTidy(t, assumed, s, k, s.conns[k].addr in timers.retries);
    }
  }

  lemma {:induction false} PollFromTidy(t: Setup, assumed: Address -> set<nat>, s: Node, k: nat, timers: Timers)
    requires Tidy(t, assumed, s) && k <= |s.conns|
    ensures Tidy(t, assumed, PollFrom(t, s, k, timers))
    decreases |s.conns| - k
  {
    if k < |s.conns| {
      PollConnTidy(t, assumed, s, k, timers);
      PollFromTidy(t, assumed, PollConn(t, s, k, timers),
                   if s.conns[k].addr in timers.silent then k else k + 1, timers);
    }
  }

  lemma StepTidy(t: Setup, assumed: Address -> set<nat>, s: Node, e: Event)
    requires Tidy(t, assumed, s) && t.Proper() && t.info.fileSize <= |s.file| && EventTidy(t, assumed, e)
    ensures Tidy(t, assumed, Step(t, s, e))
  {
    match e {
      case Receive(_, _, _, _) => MessageTidy(t, assumed, s, e);
      case WakeUp(timers) => PollFromTidy(t, assumed, s, 0, timers);
      case Join(peer) => ConnectTidy(t, assumed, s, peer, Outgoing);
    }
  }

  // ------------------------------------------------------------------
  // Runs

  lemma {:induction false} RunTidy(t: Setup, assumed: Address -> set<nat>, s: Node, events: seq<Event>)
    requires Sound(t, s) && Tidy(t, assumed, s) && forall e :: e in events ==> EventTidy(t, assumed, e)
    ensures Tidy(t, assumed, Steps(t, s, events))
    decreases |events|
  {
    if events != [] {
      StepKeeps(t, s, events[0]);
      StepTidy(t, assumed, s, events[0]);
      RunTidy(t, assumed, Step(t, s, events[0]), events[1..]);
    }
  }

  /** Every outstanding request is for a valid missing piece, and two are for one piece only in the end-game. */
  ghost predicate RequestsSound(t: Setup, s: Node) {
    && (forall k :: 0 <= k < |s.conns| && s.conns[k].request.Some? ==>
          t.info.IsValid(s.conns[k].request.value.index) && s.conns[k].request.value.index !in s.own)
    && Exclusive(t, s)
  }

  /** Every requested piece has been claimed by the remote it is requested from. */
  ghost predicate RequestsClaimed(s: Node) {
    forall k :: 0 <= k < |s.conns| && s.conns[k].request.Some? ==> s.conns[k].request.value.index in s.conns[k].have
  }

  ghost predicate ClaimsOnlyValid(t: Setup, e: Event) {
    e.Receive? && e.message.header.infoHash == t.infoHash ==> e.message.header.have <= Below(t.info.NumPieces())
  }

  /** A data reply's header claims the piece it carries data of. */
  ghost predicate RepliesClaimed(t: Setup, e: Event) {
    e.Receive? && e.message.header.infoHash == t.infoHash && e.message.DataReply? && t.info.IsValid(e.message.index) ==>
      e.message.index in e.message.header.have
  }

  /** In every run in which only valid pieces are claimed, whatever data arrives, requests are sound;
      and if replies carry data of claimed pieces only, requests are for claimed pieces. */
  lemma RequestsStaySound(t: Setup, s: Node, events: seq<Event>)
    requires Sound(t, s) && s.conns == [] && forall e :: e in events ==> ClaimsOnlyValid(t, e)
    ensures RequestsSound(t, Steps(t, s, events))
    ensures (forall e :: e in events ==> RepliesClaimed(t, e)) ==> RequestsClaimed(Steps(t, s, events))
  {
    var s' := Steps(t, s, events);
    RunTidy(t, Anything(t), s, events);
    forall k | 0 <= k < |s'.conns| ensures ConnTidy(t, Anything(t), s'.own, s'.conns[k]) {
    }
    if forall e :: e in events ==> RepliesClaimed(t, e) {
      RunTidy(t, CLAIMED, s, events);
      forall k | 0 <= k < |s'.conns| ensures ConnTidy(t, CLAIMED, s'.own, s'.conns[k]) {
      }
    }
  }

  // ------------------------------------------------------------------
  // The limit

  /** With claims of invalid pieces the next request keeps requests sound exactly if there is a valid candidate,
      or piece 0, which is asked for otherwise, is missing and either nobody requests it or the end-game is reached. */
  lemma NextSoundIff(t: Setup, s: Node, k: nat)
    requires t.Proper() && RequestsSound(t, s) && k < |s.conns| && s.conns[k].request.None?
    requires !IsSeed(t, s.own) && Candidates(t, s, k) != {}
    ensures RequestsSound(t, RequestNext(t, s, k)) <==>
            (exists j :: j in Candidates(t, s, k) && t.info.IsValid(j))
            || (0 !in s.own && (0 !in Pending(s.conns) || IsEndgame(t, s.own)))
  {
    var candidates := Candidates(t, s, k);
    var n := t.info.NumPieces();
    var i := Rarest(s.conns, candidates, n);
    NewRequestSoundIff(t, s, k, Request(i, 0));
    if exists j :: j in candidates && j < n {
      var j :| j in candidates && j < n;
      assert IsRarest(s.conns, candidates, n, i);
    }
  }

  lemma OtherRequester(conns: seq<Conn>, k: nat, i: nat) returns (j: nat)
    requires i in Pending(conns) && k < |conns| && conns[k].request.None?
    ensures j < |conns| && j != k && Requests(conns[j], i)
  {
    j :| 0 <= j < |conns| && conns[j].request.Some? && conns[j].request.value.index == i;
  }

  /** A new request keeps requests sound exactly if it is for a valid missing piece that nobody requests,
      or that may be requested twice. */
  lemma NewRequestSoundIff(t: Setup, s: Node, k: nat, r: Request)
    requires RequestsSound(t, s) && k < |s.conns| && s.conns[k].request.None?
    ensures RequestsSound(t, RequestStart(t, s, k, r)) <==>
            t.info.IsValid(r.index) && r.index !in s.own && (r.index !in Pending(s.conns) || IsEndgame(t, s.own))
  {
    var i, s' := r.index, RequestStart(t, s, k, r);
    assert s'.conns[k].request == Some(r) && s'.own == s.own;
    assert forall j :: 0 <= j < |s.conns| && j != k ==> s'.conns[j] == s.conns[j];
    if i in Pending(s.conns) && !IsEndgame(t, s.own) {
      var j := OtherRequester(s.conns, k, i);
      assert SameRequest(s'.conns[j], s'.conns[k]) && SameRequest(s'.conns[k], s'.conns[j]);
    } else if t.info.IsValid(i) && i !in s.own {
      forall a, b | 0 <= a < b < |s'.conns| && SameRequest(s'.conns[a], s'.conns[b]) ensures IsEndgame(t, s.own) {
        if a == k {
          assert Requests(s.conns[b], i);
        } else if b == k {
          assert Requests(s.conns[a], i);
        } else {
          assert SameRequest(s.conns[a], s.conns[b]);
        }
      }
    }
  }

  /** A node that has piece 0 of several asks for it again when bit 31 is all its remote claims. */
  lemma StrayBitAsksForOwned(t: Setup, file: seq<byte>, c: Conn)
    requires t.Proper() && t.info.NumPieces() > 1 && c.have == {31} && c.request.None?
    ensures RequestNext(t, Node([c], {0}, file, []), 0).conns[0].request == Some(Request(0, 0))
    ensures !RequestsSound(t, RequestNext(t, Node([c], {0}, file, []), 0))
  {
    var s := Node([c], {0}, file, []);
    assert Pending(s.conns) == {};
    assert Interesting(s, 0) == {31};
    assert 1 in Below(t.info.NumPieces());
    NextSoundIff(t, s, 0);
  }
}
