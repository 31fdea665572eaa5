/** How the storage of a node, its pools of connection blocks, its list and its caches stand for
    the connections of module PeerSpec. */
module PeerView {
  import opened Common
  import opened Words
  import opened Bitset
  import opened Torrent
  import opened PieceStore
  import opened PeerSpec
  import opened PieceSelect
  import Retry

  const POOL_BLOCKS: nat := MAX_IN_PEERS + MAX_OUT_PEERS

  /** One block of a connection pool. Blocks 0 to 4 are for incoming connections, 5 to 9 for outgoing ones.
      The request fields mean something only while hasRequest is set. */
  datatype Block = Block(addr: Address, have: uint32, hasRequest: bool, requestIndex: uint8, requestOffset: uint16,
                         retry: Retry.Counters)

  function PoolOf(block: nat): Pool {
    if block < MAX_IN_PEERS then Incoming else Outgoing
  }

  function ReleasedBlock(b: Block, index: nat): Block {
    if b.hasRequest && b.requestIndex == index then b.(hasRequest := false) else b
  }

  ghost function ConnOf(slot: nat, b: Block): Conn {
    Conn(b.addr, PoolOf(slot), Bits(b.have),
         if b.hasRequest then Some(Request(b.requestIndex, b.requestOffset)) else None,
         b.retry)
  }

  /** The list holds distinct blocks of the two pools. */
  ghost predicate Linked(peers: seq<nat>, slots: seq<Block>) {
    && |slots| == POOL_BLOCKS
    && (forall k :: 0 <= k < |peers| ==> peers[k] < POOL_BLOCKS)
    && (forall j, k :: 0 <= j < k < |peers| ==> peers[j] != peers[k])
  }

  /** The listed connections, in order. */
  ghost function ConnsOf(peers: seq<nat>, slots: seq<Block>): (r: seq<Conn>)
    requires Linked(peers, slots)
    ensures |r| == |peers|
    ensures forall k :: 0 <= k < |peers| ==> r[k] == ConnOf(peers[k], slots[peers[k]])
  {
    seq(|peers|, k requires 0 <= k < |peers| => ConnOf(peers[k], slots[peers[k]]))
  }

  ghost function MessageOf(m: Message<uint32>): Message<set<nat>> {
    var header := Header(m.header.infoHash, Bits(m.header.have));
    match m
    case Close(_) => Close(header)
    case Have(_) => Have(header)
    case DataRequest(_, index, start) => DataRequest(header, index, start)
    case DataReply(_, index, start, data) => DataReply(header, index, start, data)
    case Unknown(_, kind) => Unknown(header, kind)
  }

  /** The data request as it is sent. */
  lemma RequestMessage(t: Setup, s: Node, header: Header<uint32>, index: uint8, start: uint16)
    requires header.infoHash == t.infoHash && Bits(header.have) == s.own
    ensures MessageOf(DataRequest(header, index, start))
         == DataRequest(MakeHeader(t, s), index % 0x100, start % 0x1_0000)
  {
  }

  ghost function EffectOf(e: Effect<uint32>): Effect<set<nat>> {
    match e
    case Send(to, m) => Send(to, MessageOf(m))
    case Completed(i) => Completed(i)
    case Corrupted(i) => Corrupted(i)
  }

  ghost function LogOf(log: seq<Effect<uint32>>): (r: seq<Effect<set<nat>>>)
    ensures |r| == |log|
    ensures forall k :: 0 <= k < |log| ==> r[k] == EffectOf(log[k])
  {
    seq(|log|, k requires 0 <= k < |log| => EffectOf(log[k]))
  }

  lemma LogAppend(log: seq<Effect<uint32>>, e: Effect<uint32>)
    ensures LogOf(log + [e]) == LogOf(log) + [EffectOf(e)]
  {
  }

  /** The caches agree with their definitions: a piece is marked pending exactly if some listed connection
      requests it, and its count is the number of listed connections that have it. */
  ghost predicate CachesAgree(conns: seq<Conn>, pending: uint32, counts: seq<nat>, n: nat) {
    && Bits(pending) == Pending(conns)
    && n <= |counts| && (forall i: nat :: i < n ==> counts[i] == Rarity(conns, i))
  }

  /** No two connections to one address, and only existing pieces are requested. */
  ghost predicate WellFormed(conns: seq<Conn>, n: nat) {
    && DistinctAddresses(conns)
    && (forall k :: 0 <= k < |conns| && conns[k].request.Some? ==> conns[k].request.value.index < n)
  }

  lemma WellFormedSet(conns: seq<Conn>, n: nat, k: nat, c: Conn)
    requires WellFormed(conns, n) && k < |conns| && c.addr == conns[k].addr
    requires c.request.Some? ==> c.request.value.index < n
    ensures WellFormed(conns[k := c], n)
  {
  }

  lemma WellFormedRemove(conns: seq<Conn>, n: nat, k: nat)
    requires WellFormed(conns, n) && k < |conns|
    ensures WellFormed(conns[..k] + conns[k + 1..], n)
  {
    var rest := conns[..k] + conns[k + 1..];
    assert forall j :: 0 <= j < |rest| ==> rest[j] == conns[if j < k then j else j + 1];
  }

  lemma WellFormedPush(conns: seq<Conn>, n: nat, c: Conn)
    requires WellFormed(conns, n) && c.request.None? && Find(conns, c.addr) == |conns|
    ensures WellFormed([c] + conns, n)
  {
  }

  // ------------------------------------------------------------------
  // Storing into a block

  lemma StoreListed(peers: seq<nat>, slots: seq<Block>, k: nat, b: Block)
    requires Linked(peers, slots) && k < |peers|
    ensures Linked(peers, slots[peers[k] := b])
    ensures ConnsOf(peers, slots[peers[k] := b]) == ConnsOf(peers, slots)[k := ConnOf(peers[k], b)]
  {
  }

  lemma StoreUnlisted(peers: seq<nat>, slots: seq<Block>, slot: nat, b: Block)
    requires Linked(peers, slots) && slot < POOL_BLOCKS && slot !in peers
    ensures Linked(peers, slots[slot := b])
    ensures ConnsOf(peers, slots[slot := b]) == ConnsOf(peers, slots)
  {
  }

  lemma Push(peers: seq<nat>, slots: seq<Block>, slot: nat)
    requires Linked(peers, slots) && slot < POOL_BLOCKS && slot !in peers
    ensures Linked([slot] + peers, slots)
    ensures ConnsOf([slot] + peers, slots) == [ConnOf(slot, slots[slot])] + ConnsOf(peers, slots)
  {
  }

  lemma Unlink(peers: seq<nat>, slots: seq<Block>, k: nat)
    requires Linked(peers, slots) && k < |peers|
    ensures var rest := peers[..k] + peers[k + 1..];
            Linked(rest, slots) && peers[k] !in rest
            && ConnsOf(rest, slots) == ConnsOf(peers, slots)[..k] + ConnsOf(peers, slots)[k + 1..]
  {
  }

  // ------------------------------------------------------------------
  // Pending pieces

  lemma PendingMember(conns: seq<Conn>, k: nat)
    requires k < |conns| && conns[k].request.Some?
    ensures conns[k].request.value.index in Pending(conns)
  {
  }

  /** A connection starts, or goes on, requesting a piece. */
  lemma PendingAdd(conns: seq<Conn>, k: nat, c: Conn)
    requires k < |conns| && c.request.Some?
    requires conns[k].request.Some? ==> conns[k].request.value.index == c.request.value.index
    ensures Pending(conns[k := c]) == Pending(conns) + {c.request.value.index}
  {
    var conns' := conns[k := c];
    forall i ensures i in Pending(conns') <==> i in Pending(conns) + {c.request.value.index} {
      if i in Pending(conns) {
        var j: nat :| j < |conns| && conns[j].request.Some? && conns[j].request.value.index == i;
        assert conns'[if j == k then k else j].request.value.index == i;
      }
      if i == c.request.value.index {
        assert conns'[k].request.value.index == i;
      }
    }
  }

  /** A connection stops requesting: its piece stays pending exactly if another connection requests it. */
  lemma PendingStop(conns: seq<Conn>, k: nat, c: Conn)
    requires k < |conns| && c.request.None?
    ensures conns[k].request.Some? ==>
              Pending(conns) == Pending(conns[k := c]) + {conns[k].request.value.index}
    ensures conns[k].request.None? ==> Pending(conns) == Pending(conns[k := c])
  {
    var conns' := conns[k := c];
    forall i | i in Pending(conns) && !Requests(conns[k], i) ensures i in Pending(conns') {
      var j: nat :| j < |conns| && conns[j].request.Some? && conns[j].request.value.index == i;
      assert conns'[j].request.value.index == i;
    }
    forall i | i in Pending(conns') ensures i in Pending(conns) {
      var j: nat :| j < |conns'| && conns'[j].request.Some? && conns'[j].request.value.index == i;
      assert conns[j].request.value.index == i;
    }
  }

  lemma PendingRemove(conns: seq<Conn>, k: nat)
    requires k < |conns|
    ensures var rest := conns[..k] + conns[k + 1..];
            Pending(conns) == Pending(rest) + (if conns[k].request.Some? then {conns[k].request.value.index} else {})
  {
    var rest := conns[..k] + conns[k + 1..];
    forall i | i in Pending(conns) && !Requests(conns[k], i) ensures i in Pending(rest) {
      var j: nat :| j < |conns| && conns[j].request.Some? && conns[j].request.value.index == i;
      assert rest[if j < k then j else j - 1] == conns[j];
    }
    forall i | i in Pending(rest) ensures i in Pending(conns) {
      var j: nat :| j < |rest| && rest[j].request.Some? && rest[j].request.value.index == i;
      assert conns[if j < k then j else j + 1] == rest[j];
    }
  }

  lemma RemoveFacts(conns: seq<Conn>, n: nat, k: nat)
    requires WellFormed(conns, n) && k < |conns|
    ensures var rest := conns[..k] + conns[k + 1..];
            && WellFormed(rest, n)
            && Pending(conns) == Pending(rest) + (if conns[k].request.Some? then {conns[k].request.value.index} else {})
  {
    WellFormedRemove(conns, n, k);
    PendingRemove(conns, k);
  }

  lemma PendingPush(conns: seq<Conn>, c: Conn)
    requires c.request.None?
    ensures Pending([c] + conns) == Pending(conns)
  {
    var conns' := [c] + conns;
    forall i | i in Pending(conns) ensures i in Pending(conns') {
      var j: nat :| j < |conns| && conns[j].request.Some? && conns[j].request.value.index == i;
      assert conns'[j + 1] == conns[j];
    }
    forall i | i in Pending(conns') ensures i in Pending(conns) {
      var j: nat :| j < |conns'| && conns'[j].request.Some? && conns'[j].request.value.index == i;
      assert conns[j - 1] == conns'[j];
    }
  }

  // ------------------------------------------------------------------
  // Piece counts

  lemma {:induction false} RarityBound(conns: seq<Conn>, i: nat)
    ensures Rarity(conns, i) <= |conns|
  {
    if conns != [] {
      RarityBound(conns[1..], i);
    }
  }

  ghost function Has(c: Conn, i: nat): nat {
    if i in c.have then 1 else 0
  }

  lemma {:induction false} RaritySet(conns: seq<Conn>, k: nat, c: Conn, i: nat)
    requires k < |conns|
    ensures Rarity(conns[k := c], i) + Has(conns[k], i) == Rarity(conns, i) + Has(c, i)
  {
    if k > 0 {
      RaritySet(conns[1..], k - 1, c, i);
      assert conns[k := c][1..] == conns[1..][k - 1 := c];
    } else {
      assert conns[k := c][1..] == conns[1..];
    }
  }

  lemma {:induction false} RarityRemove(conns: seq<Conn>, k: nat, i: nat)
    requires k < |conns|
    ensures Rarity(conns[..k] + conns[k + 1..], i) + Has(conns[k], i) == Rarity(conns, i)
  {
    var rest := conns[..k] + conns[k + 1..];
    if k > 0 {
      RarityRemove(conns[1..], k - 1, i);
      assert rest[1..] == conns[1..][..k - 1] + conns[1..][k..];
      assert rest[0] == conns[0];
    } else {
      assert rest == conns[1..];
    }
  }

  lemma RarityPush(conns: seq<Conn>, c: Conn, i: nat)
    ensures Rarity([c] + conns, i) == Rarity(conns, i) + Has(c, i)
  {
    assert ([c] + conns)[1..] == conns;
  }

  // ------------------------------------------------------------------
  // Keeping the caches in step with one connection

  lemma CountsKeep(conns: seq<Conn>, k: nat, c: Conn, counts: seq<nat>, n: nat)
    requires k < |conns| && c.have == conns[k].have && n <= |counts|
    requires forall i: nat :: i < n ==> counts[i] == Rarity(conns, i)
    ensures forall i: nat :: i < n ==> counts[i] == Rarity(conns[k := c], i)
  {
    forall i: nat | i < n ensures counts[i] == Rarity(conns[k := c], i) {
      RaritySet(conns, k, c, i);
    }
  }

  lemma StartAgrees(conns: seq<Conn>, k: nat, c: Conn, pending: uint32, counts: seq<nat>, n: nat)
    requires CachesAgree(conns, pending, counts, n) && k < |conns| && c.have == conns[k].have
    requires c.request.Some? && c.request.value.index < 32
    requires conns[k].request.Some? ==> conns[k].request.value.index == c.request.value.index
    ensures CachesAgree(conns[k := c], Add(pending, c.request.value.index), counts, n)
  {
    PendingAdd(conns, k, c);
    CountsKeep(conns, k, c, counts, n);
  }

  lemma SameRequestAgrees(conns: seq<Conn>, k: nat, c: Conn, pending: uint32, counts: seq<nat>, n: nat)
    requires CachesAgree(conns, pending, counts, n) && k < |conns| && c.have == conns[k].have
    requires c.request.Some? <==> conns[k].request.Some?
    requires c.request.Some? ==> conns[k].request.value.index == c.request.value.index
    ensures CachesAgree(conns[k := c], pending, counts, n)
  {
    if c.request.Some? {
      PendingMember(conns, k);
      PendingAdd(conns, k, c);
      assert Pending(conns) + {c.request.value.index} == Pending(conns);
    } else {
      PendingStop(conns, k, c);
    }
    CountsKeep(conns, k, c, counts, n);
  }

  /** Counts adjusted for a connection's new piece set; no count comes near the eight-bit limit. */
  lemma HaveAgrees(conns: seq<Conn>, k: nat, c: Conn, pending: uint32, counts: seq<nat>, counts': seq<nat>, n: nat)
    requires CachesAgree(conns, pending, counts, n) && k < |conns| <= POOL_BLOCKS && c.request == conns[k].request
    requires n <= |counts'|
    requires forall i: nat :: i < n ==> counts'[i] == Adjust(counts[i], i in conns[k].have, i in c.have)
    ensures CachesAgree(conns[k := c], pending, counts', n)
  {
    SameRequestAgrees(conns, k, c.(have := conns[k].have), pending, counts, n);
    PendingIgnoresHave(conns, k, c);
    forall i: nat | i < n ensures counts'[i] == Rarity(conns[k := c], i) {
      RarityBound(conns, i);
      RaritySet(conns, k, c, i);
    }
  }

  lemma PendingIgnoresHave(conns: seq<Conn>, k: nat, c: Conn)
    requires k < |conns| && c.request == conns[k].request
    ensures Pending(conns[k := c]) == Pending(conns)
  {
    var conns' := conns[k := c];
    assert forall j :: 0 <= j < |conns| ==> conns'[j].request == conns[j].request;
  }

  /** Counts adjusted for a connection that leaves the list. */
  lemma LeaveAgrees(conns: seq<Conn>, k: nat, counts: seq<nat>, counts': seq<nat>, n: nat)
    requires k < |conns| <= POOL_BLOCKS && n <= |counts| && n <= |counts'|
    requires forall i: nat :: i < n ==> counts[i] == Rarity(conns, i)
    requires forall i: nat :: i < n ==> counts'[i] == Adjust(counts[i], i in conns[k].have, false)
    ensures forall i: nat :: i < n ==> counts'[i] == Rarity(conns[..k] + conns[k + 1..], i)
  {
    forall i: nat | i < n ensures counts'[i] == Rarity(conns[..k] + conns[k + 1..], i) {
      LeaveCount(conns, k, counts[i], i);
    }
  }

  lemma LeaveCount(conns: seq<Conn>, k: nat, count: nat, i: nat)
    requires k < |conns| <= POOL_BLOCKS && count == Rarity(conns, i)
    ensures Adjust(count, i in conns[k].have, false) == Rarity(conns[..k] + conns[k + 1..], i)
  {
    RarityBound(conns, i);
    RarityRemove(conns, k, i);
  }

  lemma PushAgrees(conns: seq<Conn>, c: Conn, pending: uint32, counts: seq<nat>, n: nat)
    requires CachesAgree(conns, pending, counts, n) && c.request.None? && c.have == {}
    ensures CachesAgree([c] + conns, pending, counts, n)
  {
    PendingPush(conns, c);
    forall i: nat | i < n ensures counts[i] == Rarity([c] + conns, i) {
      RarityPush(conns, c, i);
    }
  }

  /** Stopping all requests for a piece. */
  lemma PendingReleased(s: Node, i: nat)
    ensures Pending(RequestStopAll(s, i).conns) == Pending(s.conns) - {i}
  {
    var conns := RequestStopAll(s, i).conns;
    forall j | j in Pending(s.conns) && j != i ensures j in Pending(conns) {
      var k: nat :| k < |s.conns| && s.conns[k].request.Some? && s.conns[k].request.value.index == j;
      assert conns[k] == Released(s.conns[k], i);
    }
    forall j | j in Pending(conns) ensures j in Pending(s.conns) - {i} {
      var k: nat :| k < |conns| && conns[k].request.Some? && conns[k].request.value.index == j;
      assert conns[k] == Released(s.conns[k], i);
    }
  }

  lemma ReleasedWellFormed(s: Node, i: nat, n: nat)
    requires WellFormed(s.conns, n)
    ensures WellFormed(RequestStopAll(s, i).conns, n)
  {
    var conns := RequestStopAll(s, i).conns;
    assert forall k :: 0 <= k < |conns| ==> conns[k] == Released(s.conns[k], i);
  }

  lemma {:induction false} RaritySameHave(conns: seq<Conn>, conns': seq<Conn>, i: nat)
    requires |conns'| == |conns| && forall k :: 0 <= k < |conns| ==> conns'[k].have == conns[k].have
    ensures Rarity(conns', i) == Rarity(conns, i)
  {
    if conns != [] {
      RaritySameHave(conns[1..], conns'[1..], i);
    }
  }

  // ------------------------------------------------------------------
  // Replies

  /** A request that is answered, given what was read. */
  lemma ReplyIs(t: Setup, s: Node, src: Address, i: uint8, start: uint16, read: nat)
    requires t.Proper() && t.info.fileSize <= |s.file| && t.info.IsValid(i) && i as nat in s.own
    requires Narrow(start) < t.info.Size(i) && 0 < read <= Min(t.maxData, t.info.Size(i) - Narrow(start))
    ensures HandleDataRequest(t, s, src, i, start, read) == SendReply(t, s, src, i, start, read)
  {
  }

  /** The reply as the handler puts it together. */
  lemma SendReplyIs(t: Setup, s: Node, src: Address, i: uint8, start: uint16, n: nat)
    requires t.Proper() && t.info.fileSize <= |s.file| && t.info.IsValid(i) && Narrow(start) + n <= t.info.Size(i)
    ensures var data := Piece(t.info, s.file, i)[Narrow(start)..Narrow(start) + n];
            SendReply(t, s, src, i, start, n)
            == SendTo(s, if src.linkLocal then AllNodes else Unicast(src), DataReply(MakeHeader(t, s), i, start, data))
  {
  }

  // ------------------------------------------------------------------
  // Selection

  /** The least-counted interesting piece is the rarest one. */
  lemma LeastIsRarest(conns: seq<Conn>, counts: seq<nat>, pieces: set<nat>, n: nat, index: nat)
    requires n <= |counts| && |conns| <= POOL_BLOCKS && forall i: nat :: i < n ==> counts[i] == Rarity(conns, i)
    requires if exists i :: i in pieces && i < n && counts[i] < UINT8_MAX
             then IsFirstLeast(counts, pieces, n, index) else index == 0
    ensures index == PeerSpec.Rarest(conns, pieces, n)
  {
    forall i: nat | i < n ensures counts[i] < UINT8_MAX {
      RarityBound(conns, i);
    }
    if exists i :: i in pieces && i < n {
      assert IsRarest(conns, pieces, n, index);
      RarestUnique(conns, pieces, n, index, PeerSpec.Rarest(conns, pieces, n));
    }
  }

  // ------------------------------------------------------------------
  // The pools

  /** The listed blocks of one pool. */
  ghost function Blocks(peers: seq<nat>, pool: Pool): set<nat> {
    set slot | slot in peers && PoolOf(slot) == pool
  }

  lemma BlocksStep(peers: seq<nat>, pool: Pool)
    requires peers != [] && forall k :: 1 <= k < |peers| ==> peers[k] != peers[0]
    ensures |Blocks(peers, pool)| == |Blocks(peers[1..], pool)| + (if PoolOf(peers[0]) == pool then 1 else 0)
  {
    assert peers[0] !in Blocks(peers[1..], pool);
    assert peers == [peers[0]] + peers[1..];
    assert Blocks(peers, pool) == Blocks(peers[1..], pool) + (if PoolOf(peers[0]) == pool then {peers[0]} else {});
  }

  lemma {:induction false} UsedIsBlocks(peers: seq<nat>, slots: seq<Block>, pool: Pool)
    requires Linked(peers, slots)
    ensures Used(ConnsOf(peers, slots), pool) == |Blocks(peers, pool)|
  {
    if peers == [] {
      assert Blocks(peers, pool) == {};
    } else {
      UsedIsBlocks(peers[1..], slots, pool);
      BlocksStep(peers, pool);
      assert ConnsOf(peers, slots)[1..] == ConnsOf(peers[1..], slots);
    }
  }

  /** The blocks of a pool. */
  function FirstBlock(pool: Pool): nat {
    match pool
    case Incoming => 0
    case Outgoing => MAX_IN_PEERS
  }

  ghost function Span(first: nat, count: nat): (r: set<nat>)
    ensures forall slot :: slot in r <==> first <= slot < first + count
    ensures |r| == count
  {
    if count == 0 then {} else Span(first, count - 1) + {first + count - 1}
  }

  ghost predicate AllListed(peers: seq<nat>, pool: Pool) {
    forall slot :: FirstBlock(pool) <= slot < FirstBlock(pool) + Capacity(pool) ==> slot in peers
  }

  /** The pool is full exactly if all of its blocks are listed. */
  lemma PoolFull(peers: seq<nat>, slots: seq<Block>, pool: Pool)
    requires Linked(peers, slots)
    ensures Used(ConnsOf(peers, slots), pool) <= Capacity(pool)
    ensures Used(ConnsOf(peers, slots), pool) == Capacity(pool) <==> AllListed(peers, pool)
  {
    UsedIsBlocks(peers, slots, pool);
    BlocksFull(peers, pool, FirstBlock(pool), Capacity(pool));
  }

  lemma BlocksFull(peers: seq<nat>, pool: Pool, first: nat, count: nat)
    requires forall slot :: slot in Blocks(peers, pool) ==> first <= slot < first + count
    requires forall slot: nat :: first <= slot < first + count ==> PoolOf(slot) == pool
    ensures |Blocks(peers, pool)| <= count
    ensures |Blocks(peers, pool)| == count <==> forall slot :: first <= slot < first + count ==> slot in peers
  {
    var all, blocks := Span(first, count), Blocks(peers, pool);
    SubsetSize(blocks, all);
    if |blocks| == count {
      forall slot | first <= slot < first + count ensures slot in peers {
        assert slot in blocks;
      }
    }
    if forall slot :: first <= slot < first + count ==> slot in peers {
      assert all <= blocks;
    }
  }

  ghost function Listed(peers: seq<nat>): set<nat> {
    set slot | slot in peers
  }

  /** The two pools bound the list. */
  lemma ListBound(peers: seq<nat>, slots: seq<Block>)
    requires Linked(peers, slots)
    ensures |peers| <= POOL_BLOCKS
  {
    DistinctSize(peers);
    assert Listed(peers) <= Span(0, POOL_BLOCKS);
    SubsetSize(Listed(peers), Span(0, POOL_BLOCKS));
  }

  lemma {:induction false} DistinctSize(peers: seq<nat>)
    requires forall j, k :: 0 <= j < k < |peers| ==> peers[j] != peers[k]
    ensures |Listed(peers)| == |peers|
  {
    if peers == [] {
      assert Listed(peers) == {};
    } else {
      DistinctSize(peers[1..]);
      assert peers[0] !in Listed(peers[1..]);
      assert peers == [peers[0]] + peers[1..];
      assert Listed(peers) == Listed(peers[1..]) + {peers[0]};
    }
  }
}
