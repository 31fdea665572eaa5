/** A set of nodes that all run this code over a network that drops, duplicates and reorders messages.
    Nothing is assumed of the stored files, of the digest or of the piece size. */
module Network {
  import opened Bitset
  import opened PeerIntegrity
  import opened PeerKnowledge
  import opened PeerRequests
  import opened PeerRetry
  import opened PeerSpec
  import opened PeerWakeUp
  import opened PieceStore
  import Retry

  datatype Packet = Packet(src: Address, to: Destination, message: Message<set<nat>>)

  /** Node n answers to the addresses with node number n. */
  datatype System = System(nodes: seq<Node>, net: set<Packet>)

  ghost predicate Reaches(to: Destination, n: nat) {
    to == AllNodes || to.to.node == n
  }

  ghost predicate EmittedBy(n: nat, log: seq<Effect<set<nat>>>, p: Packet) {
    p.src.node == n && Send(p.to, p.message) in log
  }

  /** A datagram can only be received from the network. */
  ghost predicate Possible(sys: System, n: nat, e: Event) {
    e.Receive? ==> exists p :: p in sys.net && p.src == e.src && p.message == e.message
                                 && Reaches(p.to, n) && (e.toAll <==> p.to == AllNodes)
  }

  /** Node n handles one event; what is in flight afterwards was in flight before or has just been sent,
      so packets may be lost at any time and, while in flight, delivered any number of times in any order. */
  ghost predicate NodeStep(t: Setup, sys: System, sys': System, n: nat, e: Event)
    requires t.Proper()
  {
    && n < |sys.nodes| && Possible(sys, n, e) && t.info.fileSize <= |sys.nodes[n].file|
    && sys'.nodes == sys.nodes[n := Step(t, sys.nodes[n].(log := []), e)]
    && (forall p :: p in sys'.net ==> p in sys.net || EmittedBy(n, sys'.nodes[n].log, p))
  }

  ghost predicate Next(t: Setup, sys: System, sys': System)
    requires t.Proper()
  {
    exists n, e :: NodeStep(t, sys, sys', n, e)
  }

  /** Every node starts without connections and with the pieces of its own file that verify. */
  ghost predicate Init(t: Setup, sys: System)
    requires t.Proper()
  {
    sys.net == {} && forall n :: 0 <= n < |sys.nodes| ==> FreshNode(t, sys.nodes[n])
  }

  ghost predicate FreshNode(t: Setup, s: Node)
    requires t.Proper()
  {
    && s.conns == [] && s.log == [] && t.info.fileSize <= |s.file|
    && VerifiedBelow(t.info, t.digest, s.file, t.info.NumPieces(), s.own)
  }

  /** Every state of a path follows from the one before. */
  ghost predicate IsPath(t: Setup, path: seq<System>)
    requires t.Proper()
  {
    |path| > 0 && forall i :: 0 <= i < |path| - 1 ==> Next(t, path[i], path[i + 1])
  }

  ghost predicate IsRun(t: Setup, run: seq<System>)
    requires t.Proper()
  {
    IsPath(t, run) && Init(t, run[0])
  }

  // ------------------------------------------------------------------
  // The invariant

  /** What the node behind an address has. */
  ghost function OwnAt(nodes: seq<Node>, a: Address): set<nat> {
    if a.node < |nodes| then nodes[a.node].own else {}
  }

  ghost function Remote(nodes: seq<Node>): Address -> set<nat> {
    a => OwnAt(nodes, a)
  }

  ghost predicate PacketTrue(t: Setup, nodes: seq<Node>, p: Packet) {
    p.src.node < |nodes| && SentTrue(t, Remote(nodes), nodes[p.src.node].own, p.to, p.message)
  }

  /** Seen with what the others have: the node's pieces verify, what it knows is true, and it retries its requests. */
  ghost predicate NodeInv(t: Setup, remote: Address -> set<nat>, s: Node) {
    Sound(t, s) && Knows(t, remote, CLAIMED, s) && (t.info.fileSize > 0 ==> AllRetrying(s))
  }

  ghost predicate SystemInv(t: Setup, sys: System) {
    && t.Proper()
    && (forall n :: 0 <= n < |sys.nodes| ==> NodeInv(t, Remote(sys.nodes), sys.nodes[n]))
    && (forall p :: p in sys.net ==> PacketTrue(t, sys.nodes, p))
  }

  ghost predicate Grows(nodes: seq<Node>, nodes': seq<Node>) {
    |nodes'| == |nodes| && forall n :: 0 <= n < |nodes| ==> nodes[n].own <= nodes'[n].own
  }

  lemma InitInv(t: Setup, sys: System)
    requires t.Proper() && Init(t, sys)
    ensures SystemInv(t, sys)
  {
    forall n | 0 <= n < |sys.nodes| ensures Sound(t, sys.nodes[n]) {
      assert FreshNode(t, sys.nodes[n]);
      StartsSound(t, sys.nodes[n]);
    }
    forall n | 0 <= n < |sys.nodes| ensures NodeInv(t, Remote(sys.nodes), sys.nodes[n]) {
      assert FreshNode(t, sys.nodes[n]);
    }
  }

  /** The stepping node, seen in the world before the step. */
  lemma NodeKeepsInv(t: Setup, sys: System, n: nat, e: Event)
    requires SystemInv(t, sys) && n < |sys.nodes| && Possible(sys, n, e)
    ensures var s' := Step(t, sys.nodes[n].(log := []), e);
            NodeInv(t, Remote(sys.nodes), s') && sys.nodes[n].own <= s'.own
  {
    var s, remote := sys.nodes[n].(log := []), Remote(sys.nodes);
    assert NodeInv(t, remote, sys.nodes[n]);
    assert NodeInv(t, remote, s);
    if e.Receive? {
      var p :| p in sys.net && p.src == e.src && p.message == e.message && Reaches(p.to, n);
      assert PacketTrue(t, sys.nodes, p);
    }
    StepKeeps(t, s, e);
    StepKnows(t, remote, s, e);
    if t.info.fileSize > 0 {
      StepRetrying(t, s, e);
    }
  }

  /** One step of the system keeps the invariant, and no node loses a piece. */
  lemma NextInv(t: Setup, sys: System, sys': System)
    requires SystemInv(t, sys) && Next(t, sys, sys')
    ensures SystemInv(t, sys') && Grows(sys.nodes, sys'.nodes)
  {
    var n: nat, e :| NodeStep(t, sys, sys', n, e);
    NodeKeepsInv(t, sys, n, e);
    assert Grows(sys.nodes, sys'.nodes);
    forall m | 0 <= m < |sys'.nodes| ensures NodeInv(t, Remote(sys'.nodes), sys'.nodes[m]) {
      assert m != n ==> sys'.nodes[m] == sys.nodes[m];
      NodeGrows(t, sys.nodes, sys'.nodes, sys'.nodes[m]);
    }
    forall p | p in sys'.net ensures PacketTrue(t, sys'.nodes, p) {
      if p in sys.net {
        PacketStaysTrue(t, sys.nodes, sys'.nodes, p);
      } else {
        PacketStartsTrue(t, sys'.nodes, n, p);
      }
    }
  }

  lemma NodeGrows(t: Setup, nodes: seq<Node>, nodes': seq<Node>, s: Node)
    requires NodeInv(t, Remote(nodes), s) && Grows(nodes, nodes')
    requires forall m :: 0 <= m < |nodes'| ==> nodes'[m].own <= Below(t.info.NumPieces())
    ensures NodeInv(t, Remote(nodes'), s)
  {
    GrowKnows(t, Remote(nodes), Remote(nodes'), s);
  }

  lemma PacketStaysTrue(t: Setup, nodes: seq<Node>, nodes': seq<Node>, p: Packet)
    requires PacketTrue(t, nodes, p) && Grows(nodes, nodes')
    ensures PacketTrue(t, nodes', p)
  {
  }

  lemma PacketStartsTrue(t: Setup, nodes: seq<Node>, n: nat, p: Packet)
    requires n < |nodes| && NodeInv(t, Remote(nodes), nodes[n]) && EmittedBy(n, nodes[n].log, p)
    ensures PacketTrue(t, nodes, p)
  {
  }

  lemma {:induction false} RunInv(t: Setup, run: seq<System>, i: nat)
    requires t.Proper() && IsRun(t, run) && i < |run|
    ensures SystemInv(t, run[i])
  {
    if i == 0 {
      InitInv(t, run[0]);
    } else {
      RunInv(t, run, i - 1);
      PathStep(t, run, i - 1);
      NextInv(t, run[i - 1], run[i]);
    }
  }

  lemma PathStep(t: Setup, path: seq<System>, i: nat)
    requires t.Proper() && IsPath(t, path) && i + 1 < |path|
    ensures Next(t, path[i], path[i + 1])
  {
  }

  // ------------------------------------------------------------------
  // What it means

  /** Whatever a node believes or is told about another is true of that other node now. */
  lemma KnowledgeIsTrue(t: Setup, run: seq<System>, i: nat)
    requires t.Proper() && IsRun(t, run) && i < |run|
    ensures forall n, k :: 0 <= n < |run[i].nodes| && 0 <= k < |run[i].nodes[n].conns| ==>
              run[i].nodes[n].conns[k].have <= OwnAt(run[i].nodes, run[i].nodes[n].conns[k].addr)
    ensures forall p :: p in run[i].net ==> p.message.header.have <= OwnAt(run[i].nodes, p.src)
  {
    RunInv(t, run, i);
    var sys := run[i];
    forall n, k | 0 <= n < |sys.nodes| && 0 <= k < |sys.nodes[n].conns|
      ensures sys.nodes[n].conns[k].have <= OwnAt(sys.nodes, sys.nodes[n].conns[k].addr)
    {
      assert NodeInv(t, Remote(sys.nodes), sys.nodes[n]);
    }
    forall p | p in sys.net ensures p.message.header.have <= OwnAt(sys.nodes, p.src) {
      assert PacketTrue(t, sys.nodes, p);
    }
  }

  /** Every data request in flight is addressed to a node that holds the piece. */
  lemma RequestsReachHolders(t: Setup, run: seq<System>, i: nat, p: Packet)
    requires t.Proper() && IsRun(t, run) && i < |run|
    requires p in run[i].net && p.message.DataRequest?
    ensures p.to.Unicast? && p.to.to.node < |run[i].nodes| && p.message.index in OwnAt(run[i].nodes, p.to.to)
  {
    RunInv(t, run, i);
    assert PacketTrue(t, run[i].nodes, p);
  }

  /** Every outstanding request is for a valid missing piece that its remote has claimed and holds now;
      two requests of one node are for the same piece only near the end. */
  lemma RequestsAreSound(t: Setup, run: seq<System>, i: nat, n: nat)
    requires t.Proper() && IsRun(t, run) && i < |run| && n < |run[i].nodes|
    ensures RequestsSound(t, run[i].nodes[n]) && RequestsClaimed(run[i].nodes[n])
    ensures var conns := run[i].nodes[n].conns;
            forall k :: 0 <= k < |conns| && conns[k].request.Some? ==>
              conns[k].request.value.index in OwnAt(run[i].nodes, conns[k].addr)
  {
    RunInv(t, run, i);
    var s := run[i].nodes[n];
    assert NodeInv(t, Remote(run[i].nodes), s);
    forall k | 0 <= k < |s.conns| ensures ConnTidy(t, CLAIMED, s.own, s.conns[k]) {
    }
    forall k | 0 <= k < |s.conns| ensures s.conns[k].have <= OwnAt(run[i].nodes, s.conns[k].addr) {
    }
  }

  /** Every outstanding request of a nonempty file is being retried. */
  lemma RequestsAreRetriedEverywhere(t: Setup, run: seq<System>, i: nat, n: nat)
    requires t.Proper() && IsRun(t, run) && i < |run| && n < |run[i].nodes| && t.info.fileSize > 0
    ensures AllRetrying(run[i].nodes[n])
    ensures forall p :: p in run[i].net && p.message.DataReply? ==> p.message.data != []
  {
    RunInv(t, run, i);
    assert NodeInv(t, Remote(run[i].nodes), run[i].nodes[n]);
    forall p | p in run[i].net && p.message.DataReply? ensures p.message.data != [] {
      assert PacketTrue(t, run[i].nodes, p);
    }
  }

  /** And if it stays unanswered while its timer expires three times, it ends: the connection is then idle,
      or has been asked for some piece anew. */
  lemma UnansweredRequestsEnd(t: Setup, run: seq<System>, i: nat, n: nat, k: nat, wakeUps: seq<Timers>)
      returns (count: nat, j: nat)
    requires t.Proper() && IsRun(t, run) && i < |run| && n < |run[i].nodes| && t.info.fileSize > 0
    requires k < |run[i].nodes[n].conns| && run[i].nodes[n].conns[k].request.Some?
    requires |wakeUps| == 3 && AlwaysExpired(run[i].nodes[n].conns[k].addr, wakeUps)
    ensures 1 <= count <= 3
    ensures var c, s' := run[i].nodes[n].conns[k], Woken(t, run[i].nodes[n], wakeUps[..count]);
            && j < |s'.conns| && s'.conns[j].addr == c.addr
            && (s'.conns[j].request.Some? ==>
                  s'.conns[j].request.value.offset == 0
                  && s'.conns[j].retry == Retry.Counters(c.retry.timeout, 3, 1))
  {
    RunInv(t, run, i);
    assert NodeInv(t, Remote(run[i].nodes), run[i].nodes[n]);
    count, j := ThreeExpiriesEnd(t, run[i].nodes[n], k, wakeUps);
  }

  lemma RunGrows(t: Setup, run: seq<System>, i: nat)
    requires t.Proper() && IsRun(t, run) && i + 1 < |run|
    ensures Grows(run[i].nodes, run[i + 1].nodes)
  {
    RunInv(t, run, i);
    PathStep(t, run, i);
    NextInv(t, run[i], run[i + 1]);
  }

  /** Nodes only gain pieces, and a node that has reached the end-game threshold stays past it. */
  lemma {:induction false} PiecesOnlyGrow(t: Setup, run: seq<System>, i: nat, j: nat, n: nat)
    requires t.Proper() && IsRun(t, run) && i <= j < |run| && n < |run[i].nodes|
    ensures |run[j].nodes| == |run[i].nodes| && run[i].nodes[n].own <= run[j].nodes[n].own
    ensures IsEndgame(t, run[i].nodes[n].own) ==> IsEndgame(t, run[j].nodes[n].own)
    decreases j - i
  {
    if i < j {
      PiecesOnlyGrow(t, run, i, j - 1, n);
      RunGrows(t, run, j - 1);
      OwnGrows(t, run[i].nodes[n].own, run[j].nodes[n].own);
    }
  }

  /** Every complete piece of every node verifies. */
  lemma PiecesVerify(t: Setup, run: seq<System>, i: nat, n: nat)
    requires t.Proper() && IsRun(t, run) && i < |run| && n < |run[i].nodes|
    ensures Sound(t, run[i].nodes[n])
  {
    RunInv(t, run, i);
    assert NodeInv(t, Remote(run[i].nodes), run[i].nodes[n]);
  }
}
