/** What a node does when its process wakes up, connection by connection and message by message (peer/peer.c). */
module PeerWakeUp {
  import opened Bitset
  import opened Common
  import opened Sha1
  import opened Torrent
  import opened PeerSpec
  import opened PeerChoice
  import opened PeerRetry
  import Retry

  /** The connection has a request whose retry timer has expired, and a retry or the stop is still to come. */
  ghost predicate Due(c: Conn, timers: Timers) {
    c.request.Some? && c.addr in timers.retries && c.retry.numRetries <= c.retry.maxRetries
  }

  /** What may become of a connection: it is left alone, its request is retried, or its request is given up,
      and the connection is then idle or asked for some piece from the beginning. */
  ghost predicate Outcome(c: Conn, timers: Timers, c': Conn) {
    if c.addr in timers.silent || !Due(c, timers) then c' == c
    else if c.retry.numRetries < c.retry.maxRetries then
      c' == c.(retry := c.retry.(numRetries := c.retry.numRetries + 1))
    else
      && c'.addr == c.addr && c'.pool == c.pool && c'.have == c.have
      && (c'.request.Some? ==> c'.request.value.offset == 0 && c'.retry == Retry.Counters(c.retry.timeout, 3, 1))
  }

  ghost function Asking(t: Setup, own: set<nat>, c: Conn): Effect<set<nat>>
    requires c.request.Some?
  {
    var r := c.request.value;
    Send(Unicast(c.addr), DataRequest(Header(t.infoHash, own), r.index % 0x100, r.offset % 0x1_0000))
  }

  /** What is sent for a connection: CLOSE if it has fallen silent, else its request, old or new, if a timer was due;
      and HAVE at a heartbeat. */
  ghost function Said(t: Setup, own: set<nat>, timers: Timers, c: Conn, c': Conn): seq<Effect<set<nat>>> {
    (if c.addr in timers.silent then [Send(Unicast(c.addr), Close(Header(t.infoHash, own)))]
     else if Due(c, timers) && c'.request.Some? then [Asking(t, own, c')]
     else [])
    + (if timers.heartbeat && !c.addr.linkLocal then [Send(Unicast(c.addr), Have(Header(t.infoHash, own)))] else [])
  }

  ghost function SaidAll(t: Setup, own: set<nat>, timers: Timers, conns: seq<Conn>, after: seq<Conn>)
    : seq<Effect<set<nat>>>
    requires |conns| == |after|
  {
    if conns == [] then []
    else Said(t, own, timers, conns[0], after[0]) + SaidAll(t, own, timers, conns[1..], after[1..])
  }

  /** The connections that have not fallen silent, in order. */
  ghost function Kept(conns: seq<Conn>, timers: Timers): seq<Conn> {
    if conns == [] then []
    else (if conns[0].addr in timers.silent then [] else [conns[0]]) + Kept(conns[1..], timers)
  }

  ghost predicate Outcomes(conns: seq<Conn>, timers: Timers, after: seq<Conn>) {
    |after| == |conns| && forall j :: 0 <= j < |conns| ==> Outcome(conns[j], timers, after[j])
  }

  // ------------------------------------------------------------------
  // One connection

  /** The connection after the stop of its timer. */
  ghost function Idle(c: Conn): Conn {
    c.(request := None, retry := c.retry.(numRetries := (c.retry.numRetries + 1) % 0x100))
  }

  lemma GivesUp(t: Setup, s: Node, k: nat)
    requires k < |s.conns| && s.conns[k].request.Some? && s.conns[k].retry.numRetries == s.conns[k].retry.maxRetries
    ensures RetryProcess(t, s, k, true) == RequestNext(t, s.(conns := s.conns[k := Idle(s.conns[k])]), k)
  {
    var c := s.conns[k];
    var s1 := SetConn(s, k, c.(retry := Idle(c).retry));
    assert RequestStop(s1, k).conns == s.conns[k := Idle(c)];
  }

  lemma NextIs(t: Setup, s: Node, k: nat)
    requires k < |s.conns| && s.conns[k].request.None?
    ensures var s' := RequestNext(t, s, k);
            s' == s || exists i: nat :: HasAsked(t, s, s', k, i, 0)
  {
    if s.conns[k].request.None? && !IsSeed(t, s.own) && Candidates(t, s, k) != {} {
      var i := Rarest(s.conns, Candidates(t, s, k), t.info.NumPieces());
      StartHasAsked(t, s, k, Request(i, 0));
    }
  }

  lemma RetryIs(t: Setup, s: Node, k: nat, timers: Timers)
    requires k < |s.conns| && s.conns[k].request.Some? && s.conns[k].addr !in timers.silent
    ensures var c, s' := s.conns[k], RetryProcess(t, s, k, s.conns[k].addr in timers.retries);
            && s' == s.(conns := s.conns[k := s'.conns[k]], log := s'.log) && Outcome(c, timers, s'.conns[k])
            && s'.log
               == s.log + if Due(c, timers) && s'.conns[k].request.Some? then [Asking(t, s.own, s'.conns[k])] else []
  {
    var c := s.conns[k];
    if Due(c, timers) && c.retry.numRetries == c.retry.maxRetries {
      GivesUp(t, s, k);
      NextIs(t, s.(conns := s.conns[k := Idle(c)]), k);
    }
  }

  lemma PollConnIs(t: Setup, s: Node, k: nat, timers: Timers) returns (c': Conn)
    requires k < |s.conns|
    ensures var c, s' := s.conns[k], PollConn(t, s, k, timers);
            && Outcome(c, timers, c')
            && s'.own == s.own && s'.file == s.file && s'.log == s.log + Said(t, s.own, timers, c, c')
            && s'.conns == s.conns[..k] + (if c.addr in timers.silent then [] else [c']) + s.conns[k + 1..]
  {
    var c := s.conns[k];
    if c.addr in timers.silent {
      c' := c;
    } else if c.request.Some? {
      RetryIs(t, s, k, timers);
      c' := RetryProcess(t, s, k, c.addr in timers.retries).conns[k];
    } else {
      c' := c;
    }
  }

  // ------------------------------------------------------------------
  // All connections

  /** From s to s' the connections from k on have had their outcomes, and what was to be said has been sent. */
  ghost predicate Polled(t: Setup, s: Node, k: nat, timers: Timers, after: seq<Conn>, s': Node)
    requires k <= |s.conns|
  {
    && Outcomes(s.conns[k..], timers, after)
    && s'.own == s.own && s'.file == s.file
    && s'.conns == s.conns[..k] + Kept(after, timers)
    && s'.log == s.log + SaidAll(t, s.own, timers, s.conns[k..], after)
  }

  lemma {:induction false} PollFromIs(t: Setup, s: Node, k: nat, timers: Timers) returns (after: seq<Conn>)
    requires k <= |s.conns|
    ensures Polled(t, s, k, timers, after, PollFrom(t, s, k, timers))
    decreases |s.conns| - k
  {
    if k == |s.conns| {
      after := [];
    } else {
      var c, s1 := s.conns[k], PollConn(t, s, k, timers);
      var c' := PollConnIs(t, s, k, timers);
      var kept := if c.addr in timers.silent then [] else [c'];
      var rest := PollFromIs(t, s1, k + |kept|, timers);
      after := [c'] + rest;
      PolledStep(t, s, k, timers, c', kept, s1, rest, PollFrom(t, s1, k + |kept|, timers));
    }
  }

  lemma PolledStep(
    t: Setup, s: Node, k: nat, timers: Timers, c': Conn, kept: seq<Conn>, s1: Node, rest: seq<Conn>, s': Node)
    requires k < |s.conns| && Outcome(s.conns[k], timers, c')
    requires kept == if s.conns[k].addr in timers.silent then [] else [c']
    requires s1.own == s.own && s1.file == s.file && s1.log == s.log + Said(t, s.own, timers, s.conns[k], c')
    requires s1.conns == s.conns[..k] + kept + s.conns[k + 1..]
    requires Polled(t, s1, k + |kept|, timers, rest, s')
    ensures Polled(t, s, k, timers, [c'] + rest, s')
  {
    var c, later := s.conns[k], s.conns[k + 1..];
    Replaced(s.conns, k, kept, s1.conns);
    assert s.conns[k..] == [c] + later;
    Onwards(t, s.own, timers, c, later, c', rest);
    Associate(s.conns[..k], kept, Kept(rest, timers));
    Associate(s.log, Said(t, s.own, timers, c, c'), SaidAll(t, s.own, timers, later, rest));
  }

  lemma Associate<T>(a: seq<T>, b: seq<T>, c: seq<T>)
    ensures a + b + c == a + (b + c)
  {
  }

  lemma Replaced(conns: seq<Conn>, k: nat, kept: seq<Conn>, conns': seq<Conn>)
    requires k < |conns| && conns' == conns[..k] + kept + conns[k + 1..]
    ensures conns'[..k + |kept|] == conns[..k] + kept && conns'[k + |kept|..] == conns[k + 1..]
  {
  }

  lemma Onwards(t: Setup, own: set<nat>, timers: Timers, c: Conn, conns: seq<Conn>, c': Conn, rest: seq<Conn>)
    requires Outcome(c, timers, c') && Outcomes(conns, timers, rest)
    ensures Outcomes([c] + conns, timers, [c'] + rest)
    ensures Kept([c'] + rest, timers) == (if c.addr in timers.silent then [] else [c']) + Kept(rest, timers)
    ensures SaidAll(t, own, timers, [c] + conns, [c'] + rest)
         == Said(t, own, timers, c, c') + SaidAll(t, own, timers, conns, rest)
  {
    assert ([c] + conns)[1..] == conns && ([c'] + rest)[1..] == rest;
  }

  /** Whenever a node wakes up: every connection that is not silent stays, in order, with the outcome its timer asks
      for; the silent ones go; what is sent is said connection by connection, and the heartbeat to all comes last. */
  lemma WakeUpIs(t: Setup, s: Node, timers: Timers) returns (after: seq<Conn>)
    requires t.Proper() && t.info.fileSize <= |s.file|
    ensures Outcomes(s.conns, timers, after)
    ensures var s' := Step(t, s, WakeUp(timers));
            && s'.own == s.own && s'.file == s.file && s'.conns == Kept(after, timers)
            && s'.log == s.log + SaidAll(t, s.own, timers, s.conns, after) + Heartbeat(t, s.own, timers)
  {
    after := PollFromIs(t, s, 0, timers);
    assert s.conns[0..] == s.conns;
  }

  lemma {:induction false} KeptHas(after: seq<Conn>, timers: Timers, k: nat) returns (j: nat)
    requires k < |after| && after[k].addr !in timers.silent
    ensures j < |Kept(after, timers)| && Kept(after, timers)[j] == after[k]
  {
    if k == 0 {
      j := 0;
    } else {
      var i := KeptHas(after[1..], timers, k - 1);
      j := if after[0].addr in timers.silent then i else i + 1;
    }
  }

  lemma {:induction false} KeptOnly(after: seq<Conn>, timers: Timers)
    ensures forall c :: c in Kept(after, timers) ==> c in after && c.addr !in timers.silent
  {
    if after != [] {
      KeptOnly(after[1..], timers);
    }
  }

  lemma {:induction false} SaidHas(
    t: Setup, own: set<nat>, timers: Timers, conns: seq<Conn>, after: seq<Conn>, k: nat, e: Effect<set<nat>>)
    requires |conns| == |after| && k < |conns| && e in Said(t, own, timers, conns[k], after[k])
    ensures e in SaidAll(t, own, timers, conns, after)
  {
    if k > 0 {
      SaidHas(t, own, timers, conns[1..], after[1..], k - 1, e);
    }
  }

  /** Among what was sent from s to s'. */
  ghost predicate Sent(s: Node, s': Node, e: Effect<set<nat>>) {
    |s.log| <= |s'.log| && e in s'.log[|s.log|..]
  }

  lemma SentAll(t: Setup, s: Node, timers: Timers, after: seq<Conn>, last: seq<Effect<set<nat>>>, k: nat,
                e: Effect<set<nat>>, s': Node)
    requires k < |s.conns| == |after| && e in Said(t, s.own, timers, s.conns[k], after[k])
    requires s'.log == s.log + SaidAll(t, s.own, timers, s.conns, after) + last
    ensures Sent(s, s', e)
  {
    SaidHas(t, s.own, timers, s.conns, after, k, e);
    InMiddle(s.log, SaidAll(t, s.own, timers, s.conns, after), last);
  }

  lemma InMiddle<T>(a: seq<T>, b: seq<T>, c: seq<T>)
    ensures (a + b + c)[|a|..] == b + c
  {
  }

  ghost function Heartbeat(t: Setup, own: set<nat>, timers: Timers): seq<Effect<set<nat>>> {
    if timers.heartbeat then [Send(AllNodes, Have(Header(t.infoHash, own)))] else []
  }

  /** No connection to a silent remote is left, and each of them was told. */
  lemma SilentAreDropped(t: Setup, s: Node, timers: Timers, k: nat)
    requires t.Proper() && t.info.fileSize <= |s.file| && k < |s.conns| && s.conns[k].addr in timers.silent
    ensures var s' := Step(t, s, WakeUp(timers));
            && (forall c :: c in s'.conns ==> c.addr != s.conns[k].addr)
            && Sent(s, s', Send(Unicast(s.conns[k].addr), Close(Header(t.infoHash, s.own))))
  {
    var after := WakeUpIs(t, s, timers);
    KeptOnly(after, timers);
    SentAll(t, s, timers, after, Heartbeat(t, s.own, timers), k,
            Send(Unicast(s.conns[k].addr), Close(Header(t.infoHash, s.own))), Step(t, s, WakeUp(timers)));
  }

  /** An outstanding request whose timer has expired is sent again while retries are left, and given up after the last
      one; a connection whose timer has not expired is left as it is. */
  lemma RequestsAreChecked(t: Setup, s: Node, timers: Timers, k: nat) returns (j: nat)
    requires t.Proper() && t.info.fileSize <= |s.file| && DistinctAddresses(s.conns)
    requires k < |s.conns| && s.conns[k].request.Some? && s.conns[k].addr !in timers.silent
    ensures var c, s' := s.conns[k], Step(t, s, WakeUp(timers));
            && j < |s'.conns| && s'.conns[j].addr == c.addr
            && (c.addr !in timers.retries ==> s'.conns[j] == c)
            && (c.addr in timers.retries && c.retry.numRetries < c.retry.maxRetries ==>
                  && s'.conns[j] == c.(retry := c.retry.(numRetries := c.retry.numRetries + 1))
                  && Sent(s, s', Asking(t, s.own, c)))
            && (c.addr in timers.retries && c.retry.numRetries == c.retry.maxRetries ==>
                  s'.conns[j].request.None?
                  || (s'.conns[j].request.value.offset == 0
                      && s'.conns[j].retry == Retry.Counters(c.retry.timeout, 3, 1)))
  {
    var c := s.conns[k];
    var after := WakeUpIs(t, s, timers);
    assert Outcome(c, timers, after[k]);
    j := KeptHas(after, timers, k);
    if Due(c, timers) && c.retry.numRetries < c.retry.maxRetries {
      SentAll(t, s, timers, after, Heartbeat(t, s.own, timers), k, Asking(t, s.own, after[k]),
              Step(t, s, WakeUp(timers)));
      assert Asking(t, s.own, after[k]) == Asking(t, s.own, c);
    }
  }

  // ------------------------------------------------------------------
  // After a request has been given up

  ghost predicate LeftAlone(c: Conn, timers: Timers) {
    c.addr !in timers.silent && !Due(c, timers)
  }

  lemma {:induction false} PollLeavesAlone(t: Setup, s: Node, k: nat, timers: Timers)
    requires k <= |s.conns| && forall j :: k <= j < |s.conns| ==> LeftAlone(s.conns[j], timers)
    ensures PollFrom(t, s, k, timers).conns == s.conns
    decreases |s.conns| - k
  {
    if k < |s.conns| {
      var c' := PollConnIs(t, s, k, timers);
      assert PollConn(t, s, k, timers).conns == s.conns;
      PollLeavesAlone(t, PollConn(t, s, k, timers), k + 1, timers);
    }
  }

  /** The node once connection k has given up its request. */
  ghost function Without(s: Node, k: nat): (r: Node)
    requires k < |s.conns|
    ensures |r.conns| == |s.conns|
  {
    s.(conns := s.conns[k := Idle(s.conns[k])])
  }

  ghost predicate StopsOnly(s: Node, k: nat, timers: Timers) {
    && k < |s.conns| && s.conns[k].addr !in timers.silent && Due(s.conns[k], timers)
    && s.conns[k].retry.numRetries == s.conns[k].retry.maxRetries
    && forall j :: 0 <= j < |s.conns| && j != k ==> LeftAlone(s.conns[j], timers)
  }

  lemma {:induction false} PollGivesUp(t: Setup, s: Node, j: nat, k: nat, timers: Timers)
    requires StopsOnly(s, k, timers) && j <= k
    ensures PollFrom(t, s, j, timers).conns == RequestNext(t, Without(s, k), k).conns
    decreases k - j
  {
    var s1 := PollConn(t, s, j, timers);
    var c' := PollConnIs(t, s, j, timers);
    if j < k {
      assert s1.conns == s.conns && s1.own == s.own;
      PollGivesUp(t, s1, j + 1, k, timers);
      NextIgnoresLog(t, Without(s, k), Without(s1, k), k);
    } else {
      GivesUp(t, s, k);
      PollLeavesAlone(t, s1, k + 1, timers);
    }
  }

  lemma NextIgnoresLog(t: Setup, s: Node, s': Node, k: nat)
    requires k < |s.conns| && s'.conns == s.conns && s'.own == s.own
    ensures RequestNext(t, s', k).conns == RequestNext(t, s, k).conns
  {
    assert Candidates(t, s', k) == Candidates(t, s, k);
  }

  /** A connection that gives up its request at a wake-up at which nothing else is due is asked for another piece
      exactly if there is one that it may be asked for now; all other connections stay as they are. */
  lemma GivenUpAsksIff(t: Setup, s: Node, timers: Timers, k: nat)
    requires t.Proper() && t.info.fileSize <= |s.file|
    requires StopsOnly(s, k, timers) && s.conns[k].have <= Below(|t.info.hashes|)
    ensures var s' := Step(t, s, WakeUp(timers));
            && |s'.conns| == |s.conns| && s'.conns == s.conns[k := s'.conns[k]]
            && (s'.conns[k].request.Some? <==> exists i: nat :: MayAsk(t, Without(s, k), k, i))
            && (s'.conns[k].request.Some? ==> BestToAsk(t, Without(s, k), k, s'.conns[k].request.value.index))
  {
    PollGivesUp(t, s, 0, k, timers);
    var s1 := Without(s, k);
    AsksIff(t, s1, k);
    if exists i: nat :: MayAsk(t, s1, k, i) {
      var i := AsksForRarest(t, s1, k);
    }
  }

  // ------------------------------------------------------------------
  // Several wake-ups

  lemma {:induction false} KeptDistinct(conns: seq<Conn>, timers: Timers, after: seq<Conn>)
    requires DistinctAddresses(conns) && Outcomes(conns, timers, after)
    ensures DistinctAddresses(Kept(after, timers))
    ensures forall c :: c in Kept(after, timers) ==> exists j :: 0 <= j < |conns| && conns[j].addr == c.addr
  {
    if conns != [] {
      assert forall j :: 0 <= j < |conns| - 1 ==> conns[1..][j] == conns[j + 1] && after[1..][j] == after[j + 1];
      KeptDistinct(conns[1..], timers, after[1..]);
      var rest := Kept(after[1..], timers);
      assert Outcome(conns[0], timers, after[0]);
      forall c | c in rest ensures c.addr != conns[0].addr && exists j :: 0 <= j < |conns| && conns[j].addr == c.addr {
        var j :| 0 <= j < |conns[1..]| && conns[1..][j].addr == c.addr;
        assert conns[j + 1].addr == c.addr;
      }
    }
  }

  /** The node after one wake-up after another. */
  ghost function Woken(t: Setup, s: Node, wakeUps: seq<Timers>): Node
    decreases |wakeUps|
  {
    if wakeUps == [] then s else Woken(t, Poll(t, s, wakeUps[0]), wakeUps[1..])
  }

  ghost predicate AlwaysExpired(addr: Address, wakeUps: seq<Timers>) {
    forall n :: 0 <= n < |wakeUps| ==> addr in wakeUps[n].retries && addr !in wakeUps[n].silent
  }

  /** A request that is never answered is kept as long as retries are left. */
  lemma {:induction false} KeptWhileRetried(t: Setup, s: Node, k: nat, wakeUps: seq<Timers>) returns (j: nat)
    requires t.Proper() && t.info.fileSize <= |s.file| && DistinctAddresses(s.conns)
    requires k < |s.conns| && s.conns[k].request.Some? && AlwaysExpired(s.conns[k].addr, wakeUps)
    requires s.conns[k].retry.numRetries + |wakeUps| <= s.conns[k].retry.maxRetries
    ensures var c, s' := s.conns[k], Woken(t, s, wakeUps);
            && DistinctAddresses(s'.conns) && s'.file == s.file
            && j < |s'.conns| && s'.conns[j] == c.(retry := c.retry.(numRetries := c.retry.numRetries + |wakeUps|))
    decreases |wakeUps|
  {
    if wakeUps == [] {
      j := k;
    } else {
      var s1 := Step(t, s, WakeUp(wakeUps[0]));
      var i := RequestsAreChecked(t, s, wakeUps[0], k);
      var after := WakeUpIs(t, s, wakeUps[0]);
      KeptDistinct(s.conns, wakeUps[0], after);
      j := KeptWhileRetried(t, s1, i, wakeUps[1..]);
    }
  }

  lemma {:induction false} WokenLast(t: Setup, s: Node, wakeUps: seq<Timers>)
    requires wakeUps != []
    ensures var n := |wakeUps| - 1;
            Woken(t, s, wakeUps) == Poll(t, Woken(t, s, wakeUps[..n]), wakeUps[n])
    decreases |wakeUps|
  {
    if |wakeUps| > 1 {
      WokenLast(t, Poll(t, s, wakeUps[0]), wakeUps[1..]);
      assert wakeUps[1..][..|wakeUps| - 2] == wakeUps[..|wakeUps| - 1][1..];
    }
  }

  /** And it is given up at the expiry after the last retry: an outstanding request of counters n of m
      is gone, or replaced by a new one, after exactly m - n + 1 expiries without an answer. */
  lemma GivenUpInTime(t: Setup, s: Node, k: nat, wakeUps: seq<Timers>) returns (j: nat)
    requires t.Proper() && t.info.fileSize <= |s.file| && DistinctAddresses(s.conns)
    requires k < |s.conns| && s.conns[k].request.Some? && AlwaysExpired(s.conns[k].addr, wakeUps)
    requires s.conns[k].retry.numRetries <= s.conns[k].retry.maxRetries
    requires s.conns[k].retry.numRetries + |wakeUps| == s.conns[k].retry.maxRetries + 1
    ensures var c, s' := s.conns[k], Woken(t, s, wakeUps);
            && j < |s'.conns| && s'.conns[j].addr == c.addr
            && (s'.conns[j].request.Some? ==>
                  s'.conns[j].request.value.offset == 0
                  && s'.conns[j].retry == Retry.Counters(c.retry.timeout, 3, 1))
  {
    var n := |wakeUps| - 1;
    var i := KeptWhileRetried(t, s, k, wakeUps[..n]);
    WokenLast(t, s, wakeUps);
    j := RequestsAreChecked(t, Woken(t, s, wakeUps[..n]), wakeUps[n], i);
  }

  /** So wherever requests are being retried, three expiries without an answer end each of them. */
  lemma ThreeExpiriesEnd(t: Setup, s: Node, k: nat, wakeUps: seq<Timers>) returns (n: nat, j: nat)
    requires t.Proper() && t.info.fileSize <= |s.file| && DistinctAddresses(s.conns) && AllRetrying(s)
    requires k < |s.conns| && s.conns[k].request.Some?
    requires |wakeUps| == 3 && AlwaysExpired(s.conns[k].addr, wakeUps)
    ensures 1 <= n <= 3
    ensures var c, s' := s.conns[k], Woken(t, s, wakeUps[..n]);
            && j < |s'.conns| && s'.conns[j].addr == c.addr
            && (s'.conns[j].request.Some? ==>
                  s'.conns[j].request.value.offset == 0
                  && s'.conns[j].retry == Retry.Counters(c.retry.timeout, 3, 1))
  {
    assert Retrying(s.conns[k]);
    n := s.conns[k].retry.maxRetries - s.conns[k].retry.numRetries + 1;
    j := GivenUpInTime(t, s, k, wakeUps[..n]);
  }
}
