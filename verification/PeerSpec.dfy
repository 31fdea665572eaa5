/** What one node does, without its caches (peer/peer.c, peer/piece-select.c).
    A node's pending pieces and piece counts are derived here from its list of connections;
    the class in module Peer keeps them in a bitset and an array and is proved to agree. */
module PeerSpec {
  import opened Common
  import opened Words
  import opened Bitset
  import opened Sha1
  import opened Torrent
  import opened PieceStore
  import Retry

  const MAX_IN_PEERS: nat := 5
  const MAX_OUT_PEERS: nat := 5
  const MAX_PEER_RETRIES: uint8 := 3

  /** A node has a global address and a link-local one; the two count as different peers. */
  datatype Address = Address(node: nat, linkLocal: bool)

  datatype Destination = Unicast(to: Address) | AllNodes

  /** The message header; H is a word on the wire and a set of piece indices in this module. */
  datatype Header<H> = Header(infoHash: Sha1Digest, have: H)

  datatype Message<H> =
    | Close(header: Header<H>)
    | Have(header: Header<H>)
    | DataRequest(header: Header<H>, index: uint8, start: uint16)
    | DataReply(header: Header<H>, index: uint8, start: uint16, data: seq<byte>)
    | Unknown(header: Header<H>, kind: uint8)

  /** What a node lets others see: the messages it sends and the outcome of completing a piece. */
  datatype Effect<H> =
    | Send(to: Destination, message: Message<H>)
    | Completed(piece: nat)
    | Corrupted(piece: nat)

  datatype Pool = Incoming | Outgoing

  datatype Request = Request(index: nat, offset: nat)

  datatype Conn = Conn(addr: Address, pool: Pool, have: set<nat>, request: Option<Request>, retry: Retry.Counters)

  /** digest is the piece digest, maxData the room for data in one reply. */
  datatype Setup = Setup(info: Info, infoHash: Sha1Digest, digest: seq<byte> -> Sha1Digest, maxData: nat)
  {
    ghost predicate Proper() {
      info.Proper()
    }
  }

  datatype Node = Node(conns: seq<Conn>, own: set<nat>, file: seq<byte>, log: seq<Effect<set<nat>>>)

  // ------------------------------------------------------------------
  // Looking at the connection list

  predicate Requests(c: Conn, i: nat) {
    c.request.Some? && c.request.value.index == i
  }

  ghost predicate DistinctAddresses(conns: seq<Conn>) {
    forall j, k :: 0 <= j < k < |conns| ==> conns[j].addr != conns[k].addr
  }

  /** The pieces some listed connection is requesting. */
  ghost function Pending(conns: seq<Conn>): set<nat> {
    set k: nat | 0 <= k < |conns| && conns[k].request.Some? :: conns[k].request.value.index
  }

  /** How many listed connections have piece i. */
  ghost function Rarity(conns: seq<Conn>, i: nat): nat {
    if conns == [] then 0 else (if i in conns[0].have then 1 else 0) + Rarity(conns[1..], i)
  }

  /** How many listed connections come from a pool. */
  ghost function Used(conns: seq<Conn>, pool: Pool): nat {
    if conns == [] then 0 else (if conns[0].pool == pool then 1 else 0) + Used(conns[1..], pool)
  }

  function Capacity(pool: Pool): nat {
    match pool
    case Incoming => MAX_IN_PEERS
    case Outgoing => MAX_OUT_PEERS
  }

  /** The position of the connection with this address, or the length of the list. */
  ghost function Find(conns: seq<Conn>, addr: Address): (k: nat)
    ensures k <= |conns|
    ensures k < |conns| ==> conns[k].addr == addr
    ensures forall j :: 0 <= j < k ==> conns[j].addr != addr
  {
    if conns == [] || conns[0].addr == addr then 0 else 1 + Find(conns[1..], addr)
  }

  /** The position of the first connection requesting piece i, or the length of the list. */
  ghost function FindFirst(conns: seq<Conn>, i: nat): (k: nat)
    ensures k <= |conns|
    ensures k < |conns| ==> Requests(conns[k], i)
    ensures forall j :: 0 <= j < k ==> !Requests(conns[j], i)
  {
    if conns == [] || Requests(conns[0], i) then 0 else 1 + FindFirst(conns[1..], i)
  }

  /** Among the connections requesting piece i, the one with this address if there is one, else the first. */
  ghost function FindRequest(conns: seq<Conn>, addr: Address, i: nat): (k: nat)
    ensures k <= |conns|
    ensures k < |conns| ==> Requests(conns[k], i)
    ensures k < |conns| <==> i in Pending(conns)
  {
    var exact := Find(conns, addr);
    var k := if exact < |conns| && Requests(conns[exact], i) then exact else FindFirst(conns, i);
    assert i in Pending(conns) <==> exists j :: 0 <= j < |conns| && Requests(conns[j], i);
    k
  }

  ghost predicate IsSeed(t: Setup, own: set<nat>) {
    Below(t.info.NumPieces()) <= own
  }

  /** At least 0.8 of the pieces are complete. */
  ghost predicate IsEndgame(t: Setup, own: set<nat>) {
    5 * |own| >= 4 * t.info.NumPieces()
  }

  /** Once reached, the end-game threshold stays reached. */
  lemma OwnGrows(t: Setup, own: set<nat>, own': set<nat>)
    requires own <= own'
    ensures |own| <= |own'| && (IsEndgame(t, own) ==> IsEndgame(t, own'))
  {
    assert own' == own + (own' - own);
  }

  ghost predicate SameRequest(c: Conn, d: Conn) {
    c.request.Some? && d.request.Some? && c.request.value.index == d.request.value.index
  }

  /** Two connections request the same piece only near the end. */
  ghost predicate Exclusive(t: Setup, s: Node) {
    forall j, k :: 0 <= j < k < |s.conns| && SameRequest(s.conns[j], s.conns[k]) ==> IsEndgame(t, s.own)
  }

  // ------------------------------------------------------------------
  // Piece selection

  ghost function Interesting(s: Node, k: nat): set<nat>
    requires k < |s.conns|
  {
    s.conns[k].have - s.own - Pending(s.conns)
  }

  ghost function InterestingEndgame(s: Node, k: nat): set<nat>
    requires k < |s.conns|
  {
    s.conns[k].have - s.own
  }

  /** The pieces piece selection chooses from. */
  ghost function Candidates(t: Setup, s: Node, k: nat): set<nat>
    requires k < |s.conns|
  {
    if Interesting(s, k) != {} then Interesting(s, k)
    else if IsEndgame(t, s.own) then InterestingEndgame(s, k)
    else {}
  }

  /** i is the rarest of the candidates below n, and the first of those equally rare. */
  ghost predicate IsRarest(conns: seq<Conn>, candidates: set<nat>, n: nat, i: nat) {
    && i in candidates && i < n
    && (forall j :: j in candidates && j < n ==> Rarity(conns, i) <= Rarity(conns, j))
    && (forall j :: j in candidates && j < i ==> Rarity(conns, i) < Rarity(conns, j))
  }

  lemma RarestUnique(conns: seq<Conn>, candidates: set<nat>, n: nat, i: nat, j: nat)
    requires IsRarest(conns, candidates, n, i) && IsRarest(conns, candidates, n, j)
    ensures i == j
  {
  }

  lemma {:induction false} RarestExists(conns: seq<Conn>, candidates: set<nat>, n: nat)
    requires exists j :: j in candidates && j < n
    ensures exists i: nat :: IsRarest(conns, candidates, n, i)
  {
    var some :| some in candidates && some < n;
    var last: nat := n - 1;
    if exists j :: j in candidates && j < last {
      RarestExists(conns, candidates, last);
      var i: nat :| IsRarest(conns, candidates, last, i);
      if last in candidates && Rarity(conns, last) < Rarity(conns, i) {
        assert IsRarest(conns, candidates, n, last);
      } else {
        assert IsRarest(conns, candidates, n, i);
      }
    } else {
      assert IsRarest(conns, candidates, n, last);
    }
  }

  /** The rarest valid candidate; piece 0 if no candidate is valid. */
  ghost function Rarest(conns: seq<Conn>, candidates: set<nat>, n: nat): (i: nat)
    ensures if exists j :: j in candidates && j < n then IsRarest(conns, candidates, n, i) else i == 0
  {
    if exists j :: j in candidates && j < n then
      RarestExists(conns, candidates, n);
      var i: nat :| IsRarest(conns, candidates, n, i);
      i
    else 0
  }

  // ------------------------------------------------------------------
  // Changes to a node

  ghost function MakeHeader(t: Setup, s: Node): Header<set<nat>> {
    Header(t.infoHash, s.own)
  }

  ghost function SendTo(s: Node, to: Destination, message: Message<set<nat>>): Node {
    s.(log := s.log + [Send(to, message)])
  }

  ghost function SetConn(s: Node, k: nat, c: Conn): Node
    requires k < |s.conns|
  {
    s.(conns := s.conns[k := c])
  }

  ghost function SendRequest(t: Setup, s: Node, to: Address, r: Request): Node {
    SendTo(s, Unicast(to), DataRequest(MakeHeader(t, s), r.index % 0x100, r.offset % 0x1_0000))
  }

  /** Requests a piece from connection k and sends the first data request. */
  ghost function RequestStart(t: Setup, s: Node, k: nat, r: Request): Node
    requires k < |s.conns|
  {
    var c := s.conns[k];
    var c' := c.(request := Some(r), retry := Retry.Start(c.retry, MAX_PEER_RETRIES).0);
    SendRequest(t, SetConn(s, k, c'), c.addr, r)
  }

  ghost function RequestStop(s: Node, k: nat): Node
    requires k < |s.conns|
  {
    SetConn(s, k, s.conns[k].(request := None))
  }

  ghost function Released(c: Conn, i: nat): Conn {
    if Requests(c, i) then c.(request := None) else c
  }

  /** Stops all requests for piece i. */
  ghost function RequestStopAll(s: Node, i: nat): Node {
    s.(conns := seq(|s.conns|, k requires 0 <= k < |s.conns| => Released(s.conns[k], i)))
  }

  ghost function RequestNext(t: Setup, s: Node, k: nat): (r: Node)
    requires k < |s.conns|
    ensures |r.conns| == |s.conns|
  {
    if s.conns[k].request.Some? || IsSeed(t, s.own) || Candidates(t, s, k) == {} then s
    else RequestStart(t, s, k, Request(Rarest(s.conns, Candidates(t, s, k), t.info.NumPieces()), 0))
  }

  ghost function NewConn(addr: Address, pool: Pool, timeout: nat): Conn {
    Conn(addr, pool, {}, None, Retry.Init(timeout))
  }

  const RETRY_TIMEOUT: nat := 1

  /** The connection with this address, made if there is room in the pool. */
  ghost function ConnectWith(s: Node, addr: Address, pool: Pool): (r: (Node, Option<nat>))
    ensures r.1.Some? ==> r.1.value < |r.0.conns| && r.0.conns[r.1.value].addr == addr
    ensures r.1.None? ==> r.0 == s
    ensures r.0 == s.(conns := r.0.conns)
  {
    var k := Find(s.conns, addr);
    if k < |s.conns| then (s, Some(k))
    else if Used(s.conns, pool) >= Capacity(pool) then (s, None)
    else (s.(conns := [NewConn(addr, pool, RETRY_TIMEOUT)] + s.conns), Some(0))
  }

  lemma ConnectPending(s: Node, addr: Address, pool: Pool)
    ensures Pending(ConnectWith(s, addr, pool).0.conns) == Pending(s.conns)
  {
    var conns := ConnectWith(s, addr, pool).0.conns;
    if conns != s.conns {
      assert forall k :: 0 <= k < |s.conns| ==> conns[k + 1] == s.conns[k];
    }
  }

  ghost function Remove(s: Node, k: nat): Node
    requires k < |s.conns|
  {
    s.(conns := s.conns[..k] + s.conns[k + 1..])
  }

  ghost function ForceDisconnect(s: Node, addr: Address): Node {
    var k := Find(s.conns, addr);
    if k < |s.conns| then Remove(s, k) else s
  }

  /** Drops connection k and tells the remote. */
  ghost function DisconnectConn(t: Setup, s: Node, k: nat): Node
    requires k < |s.conns|
  {
    SendTo(Remove(s, k), Unicast(s.conns[k].addr), Close(MakeHeader(t, s)))
  }

  ghost function UpdateHave(s: Node, k: nat, have: set<nat>): Node
    requires k < |s.conns|
  {
    SetConn(s, k, s.conns[k].(have := s.conns[k].have + have))
  }

  // ------------------------------------------------------------------
  // Handling messages

  /** The connection that takes the data, which is a new request if the data starts a piece nobody requests. */
  ghost function DataReceiver(s: Node, src: Address, i: nat, start: nat, length: nat): (r: (Node, Option<nat>))
    ensures r.1.Some? ==> r.1.value < |r.0.conns| && Requests(r.0.conns[r.1.value], i) && i !in s.own
    ensures r.1.None? ==> r.0 == s
    ensures r.0 == s.(conns := r.0.conns)
  {
    if i in s.own then (s, None)
    else if i in Pending(s.conns) then
      var k := FindRequest(s.conns, src, i);
      var offset := s.conns[k].request.value.offset;
      if start <= offset < start + length then (s, Some(k)) else (s, None)
    else if start == 0 then
      var (s1, k) := ConnectWith(s, src, Outgoing);
      if k.None? || s1.conns[k.value].request.Some? then (s, None)
      else (SetConn(s1, k.value, s1.conns[k.value].(request := Some(Request(i, start)))), k)
    else (s, None)
  }

  /** Asks for what follows the data, or verifies the piece if the data ends it. */
  ghost function ReceiveData(t: Setup, s: Node, k: nat, i: nat, start: nat, length: nat): Node
    requires t.Proper() && t.info.IsValid(i) && t.info.fileSize <= |s.file|
    requires k < |s.conns| && s.conns[k].request.Some?
  {
    var next := (start + length) % 0x1_0000;
    if next < t.info.Size(i) then
      RequestStart(t, s, k, s.conns[k].request.value.(offset := next))
    else
      var s1 := RequestStop(s, k);
      if Verified(t.info, t.digest, s.file, i) then
        var s2 := RequestStopAll(s1.(own := s1.own + {i}), i);
        s2.(log := s2.log + [Completed(i)])
      else
        s1.(own := s1.own - {i}, log := s1.log + [Corrupted(i)])
  }

  /** Data short of the end of a piece. */
  lemma ReceiveMore(t: Setup, s: Node, k: nat, i: nat, start: nat, length: nat)
    requires t.Proper() && t.info.fileSize <= |s.file| && t.info.IsValid(i)
    requires k < |s.conns| && Requests(s.conns[k], i) && start + length < t.info.Size(i)
    ensures ReceiveData(t, s, k, i, start, length) == RequestStart(t, s, k, Request(i, start + length))
  {
    var next := (start + length) % 0x1_0000;
    assert next == start + length;
    assert s.conns[k].request.value.(offset := next) == Request(i, next);
  }

  ghost function HandleDataReply(t: Setup, s: Node, src: Address, i: nat, start: nat, data: seq<byte>): (r: Node)
    requires t.Proper() && t.info.fileSize <= |s.file|
    ensures |r.file| == |s.file|
  {
    if !t.info.IsValid(i) then s
    else
      var (s1, k) := DataReceiver(s, src, i, start, |data|);
      if k.None? then s1
      else
        var written := WriteResult(t.info, i, start, |data|);
        var s2 := s1.(file := AfterWrite(t.info, s1.file, i, start, data));
        if written <= 0 then s2 else ReceiveData(t, s2, k.value, i, start, written)
  }

  /** The length of a read: any positive number up to the limit. */
  function ReadLength(wanted: nat, limit: nat): nat {
    if 0 < wanted <= limit then wanted else limit
  }

  /** The reply with n bytes of a piece. */
  ghost function ReplyMessage(t: Setup, s: Node, i: nat, start: nat, n: nat): (m: Message<set<nat>>)
    requires t.Proper() && t.info.fileSize <= |s.file| && t.info.IsValid(i)
    requires Narrow(start) + n <= t.info.Size(i)
    ensures m.DataReply? && m.header == MakeHeader(t, s) && m.index == i && |m.data| == n
  {
    DataReply(MakeHeader(t, s), i % 0x100, start % 0x1_0000, Piece(t.info, s.file, i)[Narrow(start)..Narrow(start) + n])
  }

  /** Sends n bytes of a piece; a reply to a link-local peer goes to all nodes on the link. */
  ghost function SendReply(t: Setup, s: Node, src: Address, i: nat, start: nat, n: nat): Node
    requires t.Proper() && t.info.fileSize <= |s.file| && t.info.IsValid(i)
    requires Narrow(start) + n <= t.info.Size(i)
  {
    SendTo(s, if src.linkLocal then AllNodes else Unicast(src), ReplyMessage(t, s, i, start, n))
  }

  /** Answers with data of a completed piece. */
  ghost function HandleDataRequest(t: Setup, s: Node, src: Address, i: nat, start: nat, read: nat): Node
    requires t.Proper() && t.info.fileSize <= |s.file|
  {
    var offset := Narrow(start);
    if !t.info.IsValid(i) || i !in s.own || offset >= t.info.Size(i) then s
    else
      var n := ReadLength(read, Min(t.maxData, t.info.Size(i) - offset));
      if n == 0 then s else SendReply(t, s, src, i, start, n)
  }

  /** One received datagram. */
  ghost function HandleMessage(t: Setup, s: Node, src: Address, toAll: bool, m: Message<set<nat>>, read: nat): Node
    requires t.Proper() && t.info.fileSize <= |s.file|
  {
    if m.header.infoHash != t.infoHash then s
    else if m.Close? then ForceDisconnect(s, src)
    else
      var s1 := if m.DataReply? then HandleDataReply(t, s, src, m.index, m.start, m.data) else s;
      var (s2, k) := ConnectWith(s1, src, Incoming);
      if k.None? then if toAll then s2 else SendTo(s2, Unicast(src), Close(MakeHeader(t, s2)))
      else Respond(t, UpdateHave(s2, k.value, m.header.have), k.value, src, m, read)
  }

  /** The answer to a message once its sender is connected and its pieces are known. */
  ghost function Respond(t: Setup, s: Node, k: nat, src: Address, m: Message<set<nat>>, read: nat): Node
    requires t.Proper() && t.info.fileSize <= |s.file| && k < |s.conns|
  {
    match m
    case Have(_) => RequestNext(t, s, k)
    case DataReply(_, _, _, _) => RequestNext(t, s, k)
    case DataRequest(_, i, start) => HandleDataRequest(t, s, src, i, start, read)
    case _ => s
  }

  // ------------------------------------------------------------------
  // Timers

  /** The retry timer of connection k is checked. */
  ghost function RetryProcess(t: Setup, s: Node, k: nat, expired: bool): (r: Node)
    requires k < |s.conns|
    ensures |r.conns| == |s.conns|
  {
    var c := s.conns[k];
    var (retry, action) := Retry.Process(c.retry, expired);
    var s1 := SetConn(s, k, c.(retry := retry));
    match action
    case Again(_) => if c.request.None? then s1 else SendRequest(t, s1, c.addr, c.request.value)
    case Stop => if c.request.None? then s1 else RequestNext(t, RequestStop(s1, k), k)
    case Nothing => s1
  }

  /** Which timers have expired when the process wakes up. */
  datatype Timers = Timers(silent: set<Address>, retries: set<Address>, heartbeat: bool)

  /** One connection's share of a wake-up: it is dropped or its request is retried, and a heartbeat goes out. */
  ghost function PollConn(t: Setup, s: Node, k: nat, timers: Timers): (r: Node)
    requires k < |s.conns|
    ensures |r.conns| == if s.conns[k].addr in timers.silent then |s.conns| - 1 else |s.conns|
  {
    var addr := s.conns[k].addr;
    var s1 := if addr in timers.silent then DisconnectConn(t, s, k)
              else if s.conns[k].request.Some? then RetryProcess(t, s, k, addr in timers.retries)
              else s;
    if timers.heartbeat && !addr.linkLocal then SendTo(s1, Unicast(addr), Have(MakeHeader(t, s1))) else s1
  }

  ghost function PollFrom(t: Setup, s: Node, k: nat, timers: Timers): Node
    requires k <= |s.conns|
    decreases |s.conns| - k
  {
    if k == |s.conns| then s
    else PollFrom(t, PollConn(t, s, k, timers), if s.conns[k].addr in timers.silent then k else k + 1, timers)
  }

  /** The process wakes up. */
  ghost function Poll(t: Setup, s: Node, timers: Timers): Node {
    var s1 := PollFrom(t, s, 0, timers);
    if timers.heartbeat then SendTo(s1, AllNodes, Have(MakeHeader(t, s1))) else s1
  }

  // ------------------------------------------------------------------
  // Steps

  /** What can happen to a node: a datagram, a wake-up, or an address learnt from the tracker. */
  datatype Event =
    | Receive(src: Address, toAll: bool, message: Message<set<nat>>, read: nat)
    | WakeUp(timers: Timers)
    | Join(peer: Address)

  ghost function Step(t: Setup, s: Node, e: Event): Node
    requires t.Proper() && t.info.fileSize <= |s.file|
  {
    match e
    case Receive(src, toAll, m, read) => HandleMessage(t, s, src, toAll, m, read)
    case WakeUp(timers) => Poll(t, s, timers)
    case Join(peer) => ConnectWith(s, peer, Outgoing).0
  }
}
