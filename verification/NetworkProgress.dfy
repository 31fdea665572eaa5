/** Downloads can always go on: from every state in which some node could ask another one for a missing piece,
    there is a way for it to complete one. */
module NetworkProgress {
  import opened Bitset
  import opened Common
  import opened Network
  import opened NetworkData
  import opened PeerKnowledge
  import opened PeerRequests
  import opened PeerSafety
  import opened PeerSpec
  import opened Sha1

  // ------------------------------------------------------------------
  // What single handlers do

  lemma FindListed(conns: seq<Conn>, k: nat)
    requires DistinctAddresses(conns) && k < |conns|
    ensures Find(conns, conns[k].addr) == k
  {
  }

  /** A node accepts messages of this sender. */
  ghost predicate Welcome(s: Node, addr: Address) {
    ConnectWith(s, addr, Incoming).1.Some?
  }

  /** A node that has the piece answers a request for it, and goes on accepting the requester. */
  lemma ServesRequest(t: Setup, source: seq<byte>, s: Node, me: Address, m: Message<set<nat>>) returns (data: seq<byte>)
    requires Inv(t, source, s) && t.maxData > 0 && Welcome(s, me) && !me.linkLocal
    requires m.DataRequest? && m.header.infoHash == t.infoHash && m.index in s.own && m.start < t.info.Size(m.index)
    ensures var s' := Step(t, s, Receive(me, false, m, 1));
            && s'.own == s.own && Welcome(s', me) && data != []
            && Send(Unicast(me), DataReply(MakeHeader(t, s), m.index, m.start, data)) in s'.log
  {
    var (s2, k) := ConnectWith(s, me, Incoming);
    var s3 := UpdateHave(s2, k.value, m.header.have);
    var i: nat, start: nat := m.index, m.start;
    assert Agrees(t, source, s.file, i);
    var n := ReadLength(1, Min(t.maxData, t.info.Size(i) - start));
    ReplyMessageOk(t, source, s3, i, start, n);
    var reply := ReplyMessage(t, s3, i, start, n);
    var s' := SendTo(s3, Unicast(me), reply);
    assert HandleDataRequest(t, s3, me, i, start, 1) == s';
    assert Send(Unicast(me), reply) in s'.log;
    assert s'.conns[k.value].addr == me;
    StaysWelcome(s', k.value, me);
    data := reply.data;
    assert i % 0x100 == i && start % 0x1_0000 == start;
  }

  lemma StaysWelcome(s: Node, k: nat, me: Address)
    requires k < |s.conns| && s.conns[k].addr == me
    ensures Welcome(s, me)
  {
  }

  /** After the reply the piece is complete, or the rest is requested. */
  ghost predicate Taken(t: Setup, s: Node, k: nat, m: Message<set<nat>>)
    requires t.Proper() && t.info.fileSize <= |s.file| && k < |s.conns| && m.DataReply?
  {
    var a := s.conns[k].addr;
    var s' := Step(t, s, Receive(a, false, m, 0));
    m.index in s'.own || Asked(t, s', k, a, Request(m.index, m.start + |m.data|))
  }

  /** A node takes the data it has asked for: the piece is complete, or the rest is requested. */
  lemma TakesReply(t: Setup, source: seq<byte>, s: Node, k: nat, m: Message<set<nat>>)
    requires Inv(t, source, s) && DistinctAddresses(s.conns) && k < |s.conns|
    requires m.DataReply? && m.header.infoHash == t.infoHash && MessageOk(t, source, m)
    requires s.conns[k].request == Some(Request(m.index, m.start)) && m.index !in s.own
    ensures Taken(t, s, k, m)
  {
    var a := s.conns[k].addr;
    FindListed(s.conns, k);
    assert Requests(s.conns[k], m.index);
    PendingListed(s.conns, k);
    assert DataReceiver(s, a, m.index, m.start, |m.data|) == (s, Some(k));
    AcceptedReplyAdvances(t, source, s, a, m.index, m.start, m.data);
    var s1 := HandleDataReply(t, s, a, m.index, m.start, m.data);
    if m.start + |m.data| == t.info.Size(m.index) {
      AcceptKeepsOwn(t, s1, a, m, 0);
    } else {
      AsksForRest(t, source, s, k, m);
      KeepsAsking(t, s1, k, a, Request(m.index, m.start + |m.data|), m);
    }
  }

  lemma AsksForRest(t: Setup, source: seq<byte>, s: Node, k: nat, m: Message<set<nat>>)
    requires Inv(t, source, s) && DistinctAddresses(s.conns) && k < |s.conns| && m.DataReply? && MessageOk(t, source, m)
    requires DataReceiver(s, s.conns[k].addr, m.index, m.start, |m.data|) == (s, Some(k))
    requires m.start + |m.data| < t.info.Size(m.index)
    ensures var s1 := HandleDataReply(t, s, s.conns[k].addr, m.index, m.start, m.data);
            && Asked(t, s1, k, s.conns[k].addr, Request(m.index, m.start + |m.data|))
            && Find(s1.conns, s.conns[k].addr) == k
  {
    var a := s.conns[k].addr;
    StoredInv(t, source, s, a, m.index, m.start, m.data);
    var s0 := Stored(t, s, a, m.index, m.start, m.data);
    ReceiveMore(t, s0, k, m.index, m.start, |m.data|);
    StartAsks(t, s0, k, Request(m.index, m.start + |m.data|));
    SameAddresses(s.conns, HandleDataReply(t, s, a, m.index, m.start, m.data).conns, k);
  }

  /** The rest of the handler changes nothing of a request that has just been sent. */
  lemma KeepsAsking(t: Setup, s: Node, k: nat, a: Address, r: Request, m: Message<set<nat>>)
    requires t.Proper() && t.info.fileSize <= |s.file| && m.DataReply? && Asked(t, s, k, a, r) && Find(s.conns, a) == k
    ensures var (s2, k2) := ConnectWith(s, a, Incoming);
            k2.Some? && Asked(t, Respond(t, UpdateHave(s2, k2.value, m.header.have), k2.value, a, m, 0), k, a, r)
  {
    assert ConnectWith(s, a, Incoming) == (s, Some(k));
    assert RequestNext(t, UpdateHave(s, k, m.header.have), k) == UpdateHave(s, k, m.header.have);
  }

  lemma PendingListed(conns: seq<Conn>, k: nat)
    requires k < |conns| && conns[k].request.Some?
    ensures conns[k].request.value.index in Pending(conns)
  {
  }

  lemma SameAddresses(conns: seq<Conn>, conns': seq<Conn>, k: nat)
    requires DistinctAddresses(conns) && k < |conns| == |conns'|
    requires forall j :: 0 <= j < |conns| ==> conns'[j].addr == conns[j].addr
    ensures Find(conns', conns[k].addr) == k
  {
    FindListed(conns', k);
  }

  /** Connection k has an outstanding request and the node has just sent it. */
  ghost predicate Asked(t: Setup, s: Node, k: nat, a: Address, r: Request) {
    && k < |s.conns| && s.conns[k].addr == a && s.conns[k].request == Some(r)
    && Send(Unicast(a), DataRequest(MakeHeader(t, s), r.index % 0x100, r.offset % 0x1_0000)) in s.log
  }

  lemma StartAsks(t: Setup, s: Node, k: nat, r: Request)
    requires k < |s.conns|
    ensures Asked(t, RequestStart(t, s, k, r), k, s.conns[k].addr, r)
    ensures var s' := RequestStart(t, s, k, r);
            s'.own == s.own && |s'.conns| == |s.conns|
            && forall j :: 0 <= j < |s.conns| ==> s'.conns[j].addr == s.conns[j].addr
  {
  }

  /** An idle connection is asked for a missing piece once its remote claims one that nobody requests. */
  lemma AsksNext(t: Setup, s: Node, k: nat, have: set<nat>, piece: nat) returns (r: Request)
    requires t.Proper() && t.info.fileSize <= |s.file| && DistinctAddresses(s.conns)
    requires k < |s.conns| && s.conns[k].request.None?
    requires t.info.IsValid(piece) && piece in have && piece !in s.own && piece !in Pending(s.conns)
    ensures var a := s.conns[k].addr;
            var s' := Step(t, s, Receive(a, true, Have(Header(t.infoHash, have)), 0));
            r.offset == 0 && s'.own == s.own && Asked(t, s', k, a, r)
  {
    FindListed(s.conns, k);
    var s1 := UpdateHave(s, k, have);
    PendingSame(s, k, s1.conns[k]);
    assert piece in Interesting(s1, k);
    assert piece in Below(t.info.NumPieces());
    r := Request(Rarest(s1.conns, Candidates(t, s1, k), t.info.NumPieces()), 0);
    StartAsks(t, s1, k, r);
  }

  lemma PendingSame(s: Node, k: nat, c: Conn)
    requires k < |s.conns| && s.conns[k].request.None? && c.request.None?
    ensures Pending(SetConn(s, k, c).conns) == Pending(s.conns)
  {
    var conns := SetConn(s, k, c).conns;
    assert forall j :: 0 <= j < |conns| ==> conns[j].request == s.conns[j].request;
  }

  /** A node for which all its connections have fallen silent drops them and tells everybody what it has. */
  lemma StartsOver(t: Setup, s: Node)
    ensures var s' := Step(t, s, WakeUp(Timers(Addresses(s.conns), {}, true)));
            && s'.conns == [] && s'.own == s.own
            && Send(AllNodes, Have(MakeHeader(t, s))) in s'.log
    requires t.Proper() && t.info.fileSize <= |s.file|
  {
    DropsAll(t, s, Timers(Addresses(s.conns), {}, true));
  }

  ghost function Addresses(conns: seq<Conn>): set<Address> {
    set k: nat | 0 <= k < |conns| :: conns[k].addr
  }

  lemma {:induction false} DropsAll(t: Setup, s: Node, timers: Timers)
    requires Addresses(s.conns) <= timers.silent
    ensures var s' := PollFrom(t, s, 0, timers);
            s'.conns == [] && s'.own == s.own && s'.file == s.file
    decreases |s.conns|
  {
    if s.conns != [] {
      assert s.conns[0].addr in Addresses(s.conns);
      var s1 := PollConn(t, s, 0, timers);
      assert s1.conns == s.conns[1..];
      forall k: nat | k < |s1.conns| ensures s1.conns[k].addr in timers.silent {
        assert s.conns[k + 1].addr in Addresses(s.conns);
      }
      DropsAll(t, s1, timers);
    }
  }

  // ------------------------------------------------------------------
  // Paths of the system

  /** A state of an honest run. */
  ghost predicate Honest(t: Setup, source: seq<byte>, sys: System) {
    DataInv(t, source, sys) && SystemInv(t, sys)
  }

  /** Node n steps, and one of the messages it sends is now in flight. */
  ghost function After(t: Setup, sys: System, n: nat, e: Event, p: Packet): System
    requires t.Proper() && n < |sys.nodes| && t.info.fileSize <= |sys.nodes[n].file|
  {
    System(sys.nodes[n := Step(t, sys.nodes[n].(log := []), e)], sys.net + {p})
  }

  lemma AfterIsNext(t: Setup, source: seq<byte>, sys: System, n: nat, e: Event, p: Packet)
    requires Honest(t, source, sys) && n < |sys.nodes| && Possible(sys, n, e) && t.info.fileSize <= |sys.nodes[n].file|
    requires p in sys.net || EmittedBy(n, Step(t, sys.nodes[n].(log := []), e).log, p)
    ensures Next(t, sys, After(t, sys, n, e, p)) && Honest(t, source, After(t, sys, n, e, p))
    ensures Grows(sys.nodes, After(t, sys, n, e, p).nodes)
  {
    var sys' := After(t, sys, n, e, p);
    assert NodeStep(t, sys, sys', n, e);
    NextInv(t, sys, sys');
    NextDataInv(t, source, sys, sys');
  }

  /** The requester's packets carry this address. */
  function Me(n: nat): Address {
    Address(n, false)
  }

  /** Node n has asked the node behind its connection k for a piece it has, and the request is in flight. */
  ghost predicate Asking(t: Setup, sys: System, n: nat, k: nat, r: Request) {
    && n < |sys.nodes| && k < |sys.nodes[n].conns|
    && sys.nodes[n].conns[k].request == Some(r)
    && var a := sys.nodes[n].conns[k].addr;
       && a.node < |sys.nodes| && a.node != n && Welcome(sys.nodes[a.node], Me(n))
       && exists h: Header<set<nat>> :: h.infoHash == t.infoHash
            && Packet(Me(n), Unicast(a), DataRequest(h, r.index % 0x100, r.offset % 0x1_0000)) in sys.net
  }

  /** What the invariants say of an outstanding request. */
  lemma AskingFacts(t: Setup, source: seq<byte>, sys: System, n: nat, k: nat, r: Request)
    requires Honest(t, source, sys) && n < |sys.nodes| && k < |sys.nodes[n].conns|
    requires sys.nodes[n].conns[k].request == Some(r)
    ensures t.Proper() && t.info.IsValid(r.index) && r.offset < t.info.Size(r.index) <= 0x100
    ensures r.index !in sys.nodes[n].own && r.index in OwnAt(sys.nodes, sys.nodes[n].conns[k].addr)
    ensures DistinctAddresses(sys.nodes[n].conns)
    ensures r.index % 0x100 == r.index && r.offset % 0x1_0000 == r.offset
  {
    var s := sys.nodes[n];
    assert NodeInv(t, Remote(sys.nodes), s);
    HeldByRemote(t, Remote(sys.nodes), s, k, r);
    assert Inv(t, source, s);
    InsidePiece(t, source, s, k, r);
  }

  lemma HeldByRemote(t: Setup, remote: Address -> set<nat>, s: Node, k: nat, r: Request)
    requires Knows(t, remote, CLAIMED, s) && k < |s.conns| && s.conns[k].request == Some(r)
    ensures t.info.IsValid(r.index) && r.index !in s.own && r.index in remote(s.conns[k].addr)
    ensures DistinctAddresses(s.conns) && r.index % 0x100 == r.index
  {
    assert ConnTidy(t, CLAIMED, s.own, s.conns[k]);
    assert s.conns[k].have <= remote(s.conns[k].addr);
  }

  lemma InsidePiece(t: Setup, source: seq<byte>, s: Node, k: nat, r: Request)
    requires Inv(t, source, s) && k < |s.conns| && s.conns[k].request == Some(r) && t.info.IsValid(r.index)
    ensures r.offset < t.info.Size(r.index) <= 0x100 && r.offset % 0x1_0000 == r.offset
  {
    assert ConnOk(t, source, s.file, s.conns[k]);
  }

  /** The asked node replies. */
  lemma ReplyStep(t: Setup, source: seq<byte>, sys: System, n: nat, k: nat, r: Request)
      returns (sys': System, m: Message<set<nat>>)
    requires Honest(t, source, sys) && t.maxData > 0 && Asking(t, sys, n, k, r)
    ensures Honest(t, source, sys') && Next(t, sys, sys')
    ensures |sys'.nodes| == |sys.nodes| && Answered(sys', n, k, r, m)
  {
    AskingFacts(t, source, sys, n, k, r);
    var a := sys.nodes[n].conns[k].addr;
    var h: Header<set<nat>> :| h.infoHash == t.infoHash
      && Packet(Me(n), Unicast(a), DataRequest(h, r.index % 0x100, r.offset % 0x1_0000)) in sys.net;
    var request: Message<set<nat>> := DataRequest(h, r.index % 0x100, r.offset % 0x1_0000);
    var server := sys.nodes[a.node].(log := []);
    var e := Receive(Me(n), false, request, 1);
    assert Inv(t, source, sys.nodes[a.node]);
    assert Inv(t, source, server);
    assert ConnectWith(server, Me(n), Incoming).1 == ConnectWith(sys.nodes[a.node], Me(n), Incoming).1;
    var data := ServesRequest(t, source, server, Me(n), request);
    m := DataReply(MakeHeader(t, server), request.index, request.start, data);
    var p := Packet(a, Unicast(Me(n)), m);
    assert Possible(sys, a.node, e);
    AfterIsNext(t, source, sys, a.node, e, p);
    sys' := After(t, sys, a.node, e, p);
  }

  /** A reply to what node n asks for has reached its network. */
  ghost predicate Answered(sys: System, n: nat, k: nat, r: Request, m: Message<set<nat>>) {
    && n < |sys.nodes| && k < |sys.nodes[n].conns| && sys.nodes[n].conns[k].request == Some(r)
    && m.DataReply? && m.index == r.index && m.start == r.offset && m.data != []
    && var a := sys.nodes[n].conns[k].addr;
       && a.node < |sys.nodes| && a.node != n && Welcome(sys.nodes[a.node], Me(n))
       && Packet(a, Unicast(Me(n)), m) in sys.net
  }

  ghost predicate Takeable(t: Setup, sys: System, n: nat, k: nat, m: Message<set<nat>>) {
    && t.Proper() && n < |sys.nodes| && k < |sys.nodes[n].conns| && t.info.fileSize <= |sys.nodes[n].file|
    && m.DataReply? && Possible(sys, n, Receive(sys.nodes[n].conns[k].addr, false, m, 0))
  }

  /** The requester once it has taken the reply. */
  ghost function Took(t: Setup, sys: System, n: nat, k: nat, m: Message<set<nat>>): Node
    requires Takeable(t, sys, n, k, m)
  {
    Step(t, sys.nodes[n].(log := []), Receive(sys.nodes[n].conns[k].addr, false, m, 0))
  }

  ghost predicate Finishes(t: Setup, sys: System, n: nat, k: nat, m: Message<set<nat>>) {
    Takeable(t, sys, n, k, m) && m.index in Took(t, sys, n, k, m).own
  }

  ghost predicate Continues(t: Setup, sys: System, n: nat, k: nat, m: Message<set<nat>>, r: Request) {
    Takeable(t, sys, n, k, m) && Asked(t, Took(t, sys, n, k, m), k, sys.nodes[n].conns[k].addr, r)
  }

  /** What the invariants say of a reply that is about to be taken. */
  lemma AnswerFacts(t: Setup, source: seq<byte>, sys: System, n: nat, k: nat, r: Request, m: Message<set<nat>>)
    requires Honest(t, source, sys) && Answered(sys, n, k, r, m)
    ensures m.header.infoHash == t.infoHash && MessageOk(t, source, m)
    ensures Inv(t, source, sys.nodes[n].(log := [])) && Takeable(t, sys, n, k, m)
  {
    var reply := Packet(sys.nodes[n].conns[k].addr, Unicast(Me(n)), m);
    assert PacketTrue(t, sys.nodes, reply) && MessageOk(t, source, reply.message);
    assert Inv(t, source, sys.nodes[n]);
  }

  /** What the requester does with the reply. */
  lemma TakeNode(t: Setup, source: seq<byte>, sys: System, n: nat, k: nat, m: Message<set<nat>>, s: Node)
    requires Takeable(t, sys, n, k, m) && s == sys.nodes[n].(log := [])
    requires Inv(t, source, s) && DistinctAddresses(s.conns)
    requires m.header.infoHash == t.infoHash && MessageOk(t, source, m)
    requires s.conns[k].request == Some(Request(m.index, m.start)) && m.index !in s.own
    ensures Finishes(t, sys, n, k, m) || Continues(t, sys, n, k, m, Request(m.index, m.start + |m.data|))
  {
    TakesReply(t, source, s, k, m);
    TakenCases(t, sys, n, k, m, s);
  }

  lemma TakenCases(t: Setup, sys: System, n: nat, k: nat, m: Message<set<nat>>, s: Node)
    requires Takeable(t, sys, n, k, m) && s == sys.nodes[n].(log := []) && Taken(t, s, k, m)
    ensures Finishes(t, sys, n, k, m) || Continues(t, sys, n, k, m, Request(m.index, m.start + |m.data|))
  {
    assert s.conns[k].addr == sys.nodes[n].conns[k].addr;
  }

  lemma TakeCases(t: Setup, source: seq<byte>, sys: System, n: nat, k: nat, r: Request, m: Message<set<nat>>)
    requires Honest(t, source, sys) && Answered(sys, n, k, r, m)
    ensures m.DataReply?
    ensures Finishes(t, sys, n, k, m) || Continues(t, sys, n, k, m, Request(m.index, m.start + |m.data|))
  {
    AskingFacts(t, source, sys, n, k, r);
    AnswerFacts(t, source, sys, n, k, r, m);
    TakeNode(t, source, sys, n, k, m, sys.nodes[n].(log := []));
  }

  /** The requester takes the reply: the piece is complete, or the rest is asked for. */
  lemma TakeStep(t: Setup, source: seq<byte>, sys: System, n: nat, k: nat, r: Request, m: Message<set<nat>>)
      returns (sys': System, r': Request)
    requires Honest(t, source, sys) && Answered(sys, n, k, r, m)
    ensures Honest(t, source, sys') && Next(t, sys, sys') && Grows(sys.nodes, sys'.nodes)
    ensures r.index in sys'.nodes[n].own
            || (Asking(t, sys', n, k, r') && r'.index == r.index && r'.offset > r.offset)
  {
    r' := Request(m.index, m.start + |m.data|);
    TakeCases(t, source, sys, n, k, r, m);
    if Finishes(t, sys, n, k, m) {
      sys' := TakeLast(t, source, sys, n, k, r, m);
    } else {
      sys' := TakeMore(t, source, sys, n, k, r, m, r');
    }
  }

  lemma TakeLast(t: Setup, source: seq<byte>, sys: System, n: nat, k: nat, r: Request, m: Message<set<nat>>)
      returns (sys': System)
    requires Honest(t, source, sys) && Answered(sys, n, k, r, m) && Finishes(t, sys, n, k, m)
    ensures Honest(t, source, sys') && Next(t, sys, sys') && Grows(sys.nodes, sys'.nodes)
    ensures r.index in sys'.nodes[n].own
  {
    var a := sys.nodes[n].conns[k].addr;
    var e, p := Receive(a, false, m, 0), Packet(a, Unicast(Me(n)), m);
    AfterIsNext(t, source, sys, n, e, p);
    sys' := After(t, sys, n, e, p);
  }

  lemma TakeMore(
    t: Setup, source: seq<byte>, sys: System, n: nat, k: nat, r: Request, m: Message<set<nat>>, r': Request)
      returns (sys': System)
    requires Honest(t, source, sys) && Answered(sys, n, k, r, m) && Continues(t, sys, n, k, m, r')
    ensures Honest(t, source, sys') && Next(t, sys, sys') && Grows(sys.nodes, sys'.nodes)
    ensures Asking(t, sys', n, k, r')
  {
    var a, s' := sys.nodes[n].conns[k].addr, Took(t, sys, n, k, m);
    var e, p := Receive(a, false, m, 0), RequestPacket(t, s', n, a, r');
    assert EmittedBy(n, s'.log, p);
    AfterIsNext(t, source, sys, n, e, p);
    sys' := After(t, sys, n, e, p);
    assert sys'.nodes[n] == s' && sys'.nodes[a.node] == sys.nodes[a.node];
    IsAsking(t, sys', n, k, s', r');
  }

  ghost function RequestPacket(t: Setup, s: Node, n: nat, a: Address, r: Request): Packet {
    Packet(Me(n), Unicast(a), DataRequest(MakeHeader(t, s), r.index % 0x100, r.offset % 0x1_0000))
  }

  lemma IsAsking(t: Setup, sys: System, n: nat, k: nat, s: Node, r: Request)
    requires n < |sys.nodes| && sys.nodes[n] == s && k < |s.conns| && s.conns[k].request == Some(r)
    requires var a := s.conns[k].addr;
             && a.node < |sys.nodes| && a.node != n && Welcome(sys.nodes[a.node], Me(n))
             && RequestPacket(t, s, n, a, r) in sys.net
    ensures Asking(t, sys, n, k, r)
  {
    assert MakeHeader(t, s).infoHash == t.infoHash;
  }

  /** A request in flight can be answered until its piece is complete. */
  lemma {:induction false} Download(t: Setup, source: seq<byte>, sys: System, n: nat, k: nat, r: Request)
      returns (path: seq<System>)
    requires Honest(t, source, sys) && t.maxData > 0 && Asking(t, sys, n, k, r)
    requires t.info.IsValid(r.index) && r.offset <= t.info.Size(r.index)
    ensures IsPath(t, path) && path[0] == sys && n < |path[|path| - 1].nodes|
    ensures r.index in path[|path| - 1].nodes[n].own
    decreases t.info.Size(r.index) - r.offset, 1
  {
    AskingFacts(t, source, sys, n, k, r);
    var sys1, m := ReplyStep(t, source, sys, n, k, r);
    var sys2, r2 := TakeStep(t, source, sys1, n, k, r, m);
    var rest := DownloadRest(t, source, sys2, n, k, r, r2);
    path := [sys, sys1] + rest;
    PathOf(t, sys, sys1, rest);
  }

  lemma {:induction false} DownloadRest(
    t: Setup, source: seq<byte>, sys: System, n: nat, k: nat, r: Request, r': Request) returns (path: seq<System>)
    requires Honest(t, source, sys) && t.maxData > 0 && n < |sys.nodes| && t.info.IsValid(r.index)
    requires r.index in sys.nodes[n].own || (Asking(t, sys, n, k, r') && r'.index == r.index && r'.offset > r.offset)
    ensures IsPath(t, path) && path[0] == sys && n < |path[|path| - 1].nodes|
    ensures r.index in path[|path| - 1].nodes[n].own
    decreases t.info.Size(r.index) - r.offset, 0
  {
    if r.index in sys.nodes[n].own {
      path := [sys];
    } else {
      AskingFacts(t, source, sys, n, k, r');
      path := Download(t, source, sys, n, k, r');
    }
  }

  lemma PathOf(t: Setup, sys: System, sys1: System, rest: seq<System>)
    requires t.Proper() && IsPath(t, rest) && Next(t, sys, sys1) && Next(t, sys1, rest[0])
    ensures var path := [sys, sys1] + rest;
            IsPath(t, path) && path[0] == sys && path[|path| - 1] == rest[|rest| - 1]
  {
    var path := [sys, sys1] + rest;
    forall i | 0 <= i < |path| - 1 ensures Next(t, path[i], path[i + 1]) {
      if i >= 2 {
        assert path[i] == rest[i - 2] && path[i + 1] == rest[i - 1];
        PathStep(t, rest, i - 2);
      }
    }
  }

  /** A node drops all its connections and tells everybody what it has. */
  lemma TellStep(t: Setup, source: seq<byte>, sys: System, a: Address) returns (sys': System)
    requires Honest(t, source, sys) && a.node < |sys.nodes|
    ensures Next(t, sys, sys') && Honest(t, source, sys') && |sys'.nodes| == |sys.nodes|
    ensures forall n :: 0 <= n < |sys.nodes| && n != a.node ==> sys'.nodes[n] == sys.nodes[n]
    ensures sys'.nodes[a.node].conns == []
    ensures Packet(a, AllNodes, Have(MakeHeader(t, sys.nodes[a.node].(log := [])))) in sys'.net
  {
    var s := sys.nodes[a.node].(log := []);
    var e := WakeUp(Timers(Addresses(s.conns), {}, true));
    assert Inv(t, source, sys.nodes[a.node]);
    StartsOver(t, s);
    var p := Packet(a, AllNodes, Have(MakeHeader(t, s)));
    AfterIsNext(t, source, sys, a.node, e, p);
    sys' := After(t, sys, a.node, e, p);
  }

  /** The remote tells what it has, and the idle connection is asked for a piece. */
  lemma AskStep(t: Setup, source: seq<byte>, sys: System, n: nat, k: nat, piece: nat)
      returns (sys1: System, sys2: System, r: Request)
    requires Honest(t, source, sys) && CanAsk(sys, n, k, piece)
    ensures Next(t, sys, sys1) && Next(t, sys1, sys2) && Honest(t, source, sys2)
    ensures Asking(t, sys2, n, k, r) && sys2.nodes[n].own == sys.nodes[n].own
  {
    var a := sys.nodes[n].conns[k].addr;
    var remote := sys.nodes[a.node].(log := []);
    assert Inv(t, source, sys.nodes[n]);
    assert NodeInv(t, Remote(sys.nodes), sys.nodes[n]);
    sys1 := TellStep(t, source, sys, a);
    var have: Message<set<nat>> := Have(MakeHeader(t, remote));
    var s := sys1.nodes[n].(log := []);
    r := AsksNext(t, s, k, remote.own, piece);
    var e1 := Receive(a, true, have, 0);
    assert Possible(sys1, n, e1);
    var s' := Step(t, s, e1);
    var p1 := RequestPacket(t, s', n, a, r);
    AfterIsNext(t, source, sys1, n, e1, p1);
    sys2 := After(t, sys1, n, e1, p1);
    assert sys2.nodes[a.node].conns == [];
    IsAsking(t, sys2, n, k, s', r);
  }

  /** The idle connection k of node n leads to a node with a piece that n misses and nobody is asked for. */
  ghost predicate CanAsk(sys: System, n: nat, k: nat, piece: nat) {
    && n < |sys.nodes| && k < |sys.nodes[n].conns| && sys.nodes[n].conns[k].request.None?
    && piece in OwnAt(sys.nodes, sys.nodes[n].conns[k].addr)
    && piece !in sys.nodes[n].own && piece !in Pending(sys.nodes[n].conns)
  }

  /** From every state of an honest run in which a node could ask for a missing piece,
      some continuation of the run completes a missing piece of that node. */
  lemma SomeContinuationCompletes(
    t: Setup, source: seq<byte>, run: seq<System>, i: nat, n: nat, k: nat, piece: nat)
      returns (path: seq<System>, completed: nat)
    requires Genuine(t, source) && IsHonestRun(t, source, run) && i < |run| && t.maxData > 0
    requires CanAsk(run[i], n, k, piece)
    ensures |path| > 0 && path[0] == run[i] && IsHonestRun(t, source, run[..i] + path)
    ensures n < |path[|path| - 1].nodes|
    ensures completed !in run[i].nodes[n].own && completed in path[|path| - 1].nodes[n].own
  {
    RunInv(t, run, i);
    RunDataInv(t, source, run, i);
    var sys1, sys2, r := AskStep(t, source, run[i], n, k, piece);
    AskingFacts(t, source, sys2, n, k, r);
    var rest := Download(t, source, sys2, n, k, r);
    path := [run[i], sys1] + rest;
    PathOf(t, run[i], sys1, rest);
    GoesOn(t, run, i, path);
    completed := r.index;
  }

  lemma GoesOn(t: Setup, run: seq<System>, i: nat, path: seq<System>)
    requires t.Proper() && IsRun(t, run) && i < |run| && IsPath(t, path) && path[0] == run[i]
    ensures IsRun(t, run[..i] + path) && (run[..i] + path)[0] == run[0]
  {
    var whole := run[..i] + path;
    forall j | 0 <= j < |whole| - 1 ensures Next(t, whole[j], whole[j + 1]) {
      if j < i {
        assert whole[j] == run[j] && whole[j + 1] == run[j + 1];
        PathStep(t, run, j);
      } else {
        assert whole[j] == path[j - i] && whole[j + 1] == path[j - i + 1];
        PathStep(t, path, j - i);
      }
    }
  }
}
