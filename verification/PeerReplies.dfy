/** What a node does with arriving data, told from its list of connections alone (peer/peer.c). */
module PeerReplies {
  import opened Common
  import opened Words
  import opened Sha1
  import opened Torrent
  import opened PieceStore
  import opened PeerSpec
  import opened PeerChoice
  import opened PeerRetry
  import Retry

  ghost predicate AsksFor(c: Conn, i: nat) {
    c.request.Some? && c.request.value.index == i
  }

  /** Connection k decides about data of piece i: it is the sender's own and requests the piece,
      or it is the first to request the piece and the sender's own does not. */
  ghost predicate Decides(conns: seq<Conn>, src: Address, i: nat, k: nat) {
    && k < |conns| && AsksFor(conns[k], i)
    && (conns[k].addr == src
        || forall j :: 0 <= j < |conns| && AsksFor(conns[j], i) ==> conns[j].addr != src && k <= j)
  }

  /** If the piece is requested at all, exactly one connection decides. */
  lemma OneDecides(conns: seq<Conn>, src: Address, i: nat)
    requires DistinctAddresses(conns)
    ensures NobodyAsks(conns, i) <==> forall k: nat :: !Decides(conns, src, i, k)
    ensures forall j: nat, k: nat :: Decides(conns, src, i, j) && Decides(conns, src, i, k) ==> j == k
  {
    if !NobodyAsks(conns, i) {
      var k := FindRequest(conns, src, i);
      PendingIs(conns, i);
      assert Decides(conns, src, i, k);
    }
  }

  lemma DeciderFound(conns: seq<Conn>, src: Address, i: nat, k: nat)
    requires DistinctAddresses(conns) && Decides(conns, src, i, k)
    ensures FindRequest(conns, src, i) == k && i in Pending(conns)
  {
    PendingIs(conns, i);
    assert Decides(conns, src, i, FindRequest(conns, src, i));
  }

  /** The data covers the offset this connection waits for. */
  ghost predicate InRange(c: Conn, start: nat, length: nat)
    requires c.request.Some?
  {
    start <= c.request.value.offset < start + length
  }

  /** Data of a requested piece is stored exactly if it covers the offset the deciding connection waits for,
      whoever sent it; otherwise nothing changes. */
  lemma StoredIff(t: Setup, s: Node, src: Address, i: nat, start: nat, data: seq<byte>, k: nat)
    requires t.Proper() && t.info.fileSize <= |s.file| && DistinctAddresses(s.conns)
    requires t.info.IsValid(i) && i !in s.own && Decides(s.conns, src, i, k)
    ensures var s' := HandleDataReply(t, s, src, i, start, data);
            if InRange(s.conns[k], start, |data|) then s'.file == AfterWrite(t.info, s.file, i, start, data)
            else s' == s
  {
    DeciderFound(s.conns, src, i, k);
  }

  ghost predicate OnlyRequester(conns: seq<Conn>, i: nat, k: nat) {
    k < |conns| && AsksFor(conns[k], i) && forall j :: 0 <= j < |conns| && j != k ==> !AsksFor(conns[j], i)
  }

  lemma OnlyOneDecides(conns: seq<Conn>, src: Address, i: nat, k: nat)
    requires OnlyRequester(conns, i, k)
    ensures Decides(conns, src, i, k)
  {
  }

  /** With one requester only, that one decides, whoever the sender is. */
  lemma OverheardIff(t: Setup, s: Node, src: Address, i: nat, start: nat, data: seq<byte>, k: nat)
    requires t.Proper() && t.info.fileSize <= |s.file| && DistinctAddresses(s.conns)
    requires t.info.IsValid(i) && i !in s.own && OnlyRequester(s.conns, i, k)
    ensures var s' := HandleDataReply(t, s, src, i, start, data);
            if InRange(s.conns[k], start, |data|) then s'.file == AfterWrite(t.info, s.file, i, start, data)
            else s' == s
  {
    OnlyOneDecides(s.conns, src, i, k);
    StoredIff(t, s, src, i, start, data, k);
  }

  /** Data of a complete piece, or of one that does not exist, changes nothing. */
  lemma NotWanted(t: Setup, s: Node, src: Address, i: nat, start: nat, data: seq<byte>)
    requires t.Proper() && t.info.fileSize <= |s.file| && (!t.info.IsValid(i) || i in s.own)
    ensures HandleDataReply(t, s, src, i, start, data) == s
  {
  }

  // ------------------------------------------------------------------
  // What follows stored data

  /** The new bytes of the piece have the digest the descriptor asks for. */
  ghost predicate Matches(t: Setup, file: seq<byte>, i: nat)
    requires t.Proper() && t.info.fileSize <= |file| && t.info.IsValid(i)
  {
    Abut(t.info, i);
    t.digest(file[t.info.Offset(i)..t.info.Offset(i) + t.info.Size(i)]) == t.info.hashes[i]
  }

  /** The rest of the piece is asked for. */
  ghost predicate GoesOn(t: Setup, s: Node, s': Node, k: nat, i: nat, next: nat, file: seq<byte>)
    requires k < |s.conns|
  {
    HasAsked(t, s.(file := file), s', k, i, next)
  }

  /** The piece is complete, and nobody is asked for it any more. */
  ghost predicate Completes(s: Node, s': Node, i: nat, file: seq<byte>) {
    && s'.own == s.own + {i} && s'.file == file && s'.log == s.log + [Completed(i)]
    && |s'.conns| == |s.conns|
    && forall j :: 0 <= j < |s.conns| ==>
         s'.conns[j] == if AsksFor(s.conns[j], i) then s.conns[j].(request := None) else s.conns[j]
  }

  /** The piece stays missing, and only connection k gives it up. */
  ghost predicate Fails(s: Node, s': Node, k: nat, i: nat, file: seq<byte>)
    requires k < |s.conns|
  {
    && s'.own == s.own && s'.file == file && s'.log == s.log + [Corrupted(i)]
    && s'.conns == s.conns[k := s.conns[k].(request := None)]
  }

  /** What follows data that is stored: the request goes on behind it, or the piece is verified if it ends there. */
  lemma StoredFollows(t: Setup, s: Node, src: Address, i: nat, start: nat, data: seq<byte>, k: nat)
    requires t.Proper() && t.info.fileSize <= |s.file| && DistinctAddresses(s.conns)
    requires t.info.IsValid(i) && i !in s.own && Decides(s.conns, src, i, k) && InRange(s.conns[k], start, |data|)
    ensures var s' := HandleDataReply(t, s, src, i, start, data);
            var file := AfterWrite(t.info, s.file, i, start, data);
            var written := Min(|data|, t.info.Size(i) - start % 0x100);
            var next := (start + written) % 0x1_0000;
            if written <= 0 then s' == s
            else if next < t.info.Size(i) then GoesOn(t, s, s', k, i, next, file)
            else if Matches(t, file, i) then Completes(s, s', i, file)
            else Fails(s, s', k, i, file)
  {
    DeciderFound(s.conns, src, i, k);
    var s1 := s.(file := AfterWrite(t.info, s.file, i, start, data));
    var written := WriteResult(t.info, i, start, |data|);
    if written > 0 {
      ReceiveFollows(t, s1, k, i, start, written);
    }
  }

  lemma ReceiveFollows(t: Setup, s: Node, k: nat, i: nat, start: nat, length: nat)
    requires t.Proper() && t.info.fileSize <= |s.file| && t.info.IsValid(i) && i !in s.own
    requires k < |s.conns| && AsksFor(s.conns[k], i)
    ensures var s' := ReceiveData(t, s, k, i, start, length);
            var next := (start + length) % 0x1_0000;
            if next < t.info.Size(i) then HasAsked(t, s, s', k, i, next)
            else if Matches(t, s.file, i) then Completes(s, s', i, s.file)
            else Fails(s, s', k, i, s.file)
  {
    var next := (start + length) % 0x1_0000;
    if next < t.info.Size(i) {
      StartHasAsked(t, s, k, Request(i, next));
    }
  }

  // ------------------------------------------------------------------
  // Data of a piece that nobody is asked for

  ghost predicate InPool(c: Conn, pool: Pool) {
    c.pool == pool
  }

  /** The connections of a pool. */
  ghost function OfPool(conns: seq<Conn>, pool: Pool): set<nat> {
    set k: nat | k < |conns| && InPool(conns[k], pool)
  }

  lemma {:induction false} UsedIsPool(conns: seq<Conn>, pool: Pool)
    ensures Used(conns, pool) == |OfPool(conns, pool)|
  {
    if conns == [] {
      assert OfPool(conns, pool) == {};
    } else {
      UsedIsPool(conns[1..], pool);
      OfPoolStep(conns, pool);
    }
  }

  lemma OfPoolStep(conns: seq<Conn>, pool: Pool)
    requires conns != []
    ensures |OfPool(conns, pool)| == |OfPool(conns[1..], pool)| + (if InPool(conns[0], pool) then 1 else 0)
  {
    var later := set k: nat | 0 < k < |conns| && InPool(conns[k], pool);
    ShiftSize(OfPool(conns[1..], pool), later);
    assert OfPool(conns, pool) == later + (if InPool(conns[0], pool) then {0} else {});
  }

  ghost predicate Listed(conns: seq<Conn>, addr: Address) {
    exists k :: 0 <= k < |conns| && conns[k].addr == addr
  }

  /** The sender is idle, or it is no neighbour yet and fewer than five connections are outgoing. */
  ghost predicate CanOpen(conns: seq<Conn>, src: Address) {
    if Listed(conns, src) then exists k :: 0 <= k < |conns| && conns[k].addr == src && conns[k].request.None?
    else |OfPool(conns, Outgoing)| < 5
  }

  /** Data of a missing piece that nobody is asked for is stored exactly if it starts the piece
      and its sender can be asked for the rest; otherwise nothing changes. */
  lemma OpenedIff(t: Setup, s: Node, src: Address, i: nat, start: nat, data: seq<byte>)
    requires t.Proper() && t.info.fileSize <= |s.file| && DistinctAddresses(s.conns)
    requires t.info.IsValid(i) && i !in s.own && NobodyAsks(s.conns, i)
    ensures var s' := HandleDataReply(t, s, src, i, start, data);
            if start == 0 && CanOpen(s.conns, src) then s'.file == AfterWrite(t.info, s.file, i, 0, data) && s' != s
            else s' == s
  {
    PendingIs(s.conns, i);
    UsedIsPool(s.conns, Outgoing);
    var (s1, k) := ConnectWith(s, src, Outgoing);
    assert Listed(s.conns, src) <==> Find(s.conns, src) < |s.conns|;
  }

  /** Such data opens a request on the sender's connection, made if needed, and is then handled
      like data of any requested piece; empty data leaves it at that. */
  lemma OpenedFollows(t: Setup, s: Node, src: Address, i: nat, data: seq<byte>) returns (s1: Node, k: nat)
    requires t.Proper() && t.info.fileSize <= |s.file| && DistinctAddresses(s.conns)
    requires t.info.IsValid(i) && i !in s.own && NobodyAsks(s.conns, i) && CanOpen(s.conns, src)
    ensures s1 == s.(conns := s1.conns) && DistinctAddresses(s1.conns) && Decides(s1.conns, src, i, k)
    ensures if Listed(s.conns, src) then
              && k < |s.conns| && s.conns[k].addr == src
              && s1.conns == s.conns[k := s.conns[k].(request := Some(Request(i, 0)))]
            else
              k == 0 && s1.conns == [Conn(src, Outgoing, {}, Some(Request(i, 0)), Retry.Counters(RETRY_TIMEOUT, 0, 0))]
                                    + s.conns
    ensures HandleDataReply(t, s, src, i, 0, data)
         == if data == [] then s1 else HandleDataReply(t, s1, src, i, 0, data)
  {
    PendingIs(s.conns, i);
    UsedIsPool(s.conns, Outgoing);
    assert Listed(s.conns, src) <==> Find(s.conns, src) < |s.conns|;
    var (s2, at) := ConnectWith(s, src, Outgoing);
    k := at.value;
    s1 := SetConn(s2, k, s2.conns[k].(request := Some(Request(i, 0))));
    assert Decides(s1.conns, src, i, k);
    DeciderFound(s1.conns, src, i, k);
    EmptyWrite(t.info, s.file, i, data);
  }

  lemma EmptyWrite(info: Info, file: seq<byte>, i: nat, data: seq<byte>)
    requires info.Proper() && info.fileSize <= |file| && info.IsValid(i)
    ensures data == [] ==> WriteResult(info, i, 0, |data|) <= 0 && AfterWrite(info, file, i, 0, data) == file
  {
    if data == [] {
      NothingWritten(info, file, i, data);
    }
  }
}
