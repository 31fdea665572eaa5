/** What every step of an honest node keeps of the data, given that the data it receives is right: the stored bytes
    of complete pieces, the right prefix of every request, and the data of every reply. */
module PeerSafety {
  import opened Bitset
  import opened Common
  import opened PeerSpec
  import opened PieceStore
  import Retry
  import opened Sha1
  import opened Torrent

  /** The torrent describes a nonempty source, and pieces fit the eight-bit offset of the storage calls. */
  ghost predicate Genuine(t: Setup, source: seq<byte>) {
    && t.Proper() && 0 < t.info.fileSize <= |source|
    && (forall i :: t.info.IsValid(i) ==> t.info.Size(i) <= 0x100)
    && (forall i :: t.info.IsValid(i) ==> Verified(t.info, t.digest, source, i))
  }

  /** The first offset bytes of piece i agree with the source. */
  ghost predicate AgreesUpTo(t: Setup, source: seq<byte>, file: seq<byte>, i: nat, offset: nat)
    requires t.Proper() && t.info.fileSize <= |source| && t.info.fileSize <= |file| && t.info.IsValid(i)
  {
    offset <= t.info.Size(i) && Piece(t.info, file, i)[..offset] == Piece(t.info, source, i)[..offset]
  }

  ghost predicate Agrees(t: Setup, source: seq<byte>, file: seq<byte>, i: nat)
    requires t.Proper() && t.info.fileSize <= |source| && t.info.fileSize <= |file| && t.info.IsValid(i)
  {
    Piece(t.info, file, i) == Piece(t.info, source, i)
  }

  /** A request is at an offset inside its piece up to which the data is right. */
  ghost predicate RequestOk(t: Setup, source: seq<byte>, file: seq<byte>, r: Request)
    requires t.Proper() && t.info.fileSize <= |source| && t.info.fileSize <= |file|
  {
    t.info.IsValid(r.index) && r.offset < t.info.Size(r.index) && AgreesUpTo(t, source, file, r.index, r.offset)
  }

  ghost predicate ConnOk(t: Setup, source: seq<byte>, file: seq<byte>, c: Conn)
    requires t.Proper() && t.info.fileSize <= |source| && t.info.fileSize <= |file|
  {
    c.request.Some? ==> RequestOk(t, source, file, c.request.value)
  }

  /** A reply carries at least one byte of a piece, as it is in the source. */
  ghost predicate ReplyOk(t: Setup, source: seq<byte>, i: nat, start: nat, data: seq<byte>)
    requires t.Proper() && t.info.fileSize <= |source|
  {
    && t.info.IsValid(i) && 0 < |data|
    && start + |data| <= t.info.Size(i)
    && data == Piece(t.info, source, i)[start..start + |data|]
  }

  /** Requests are inside their piece, and replies carry the right data. */
  ghost predicate MessageOk(t: Setup, source: seq<byte>, m: Message<set<nat>>)
    requires t.Proper() && t.info.fileSize <= |source|
  {
    && (m.DataRequest? && t.info.IsValid(m.index) ==> m.start < t.info.Size(m.index))
    && (m.DataReply? ==> ReplyOk(t, source, m.index, m.start, m.data))
  }

  /** A piece is never found corrupted. */
  ghost predicate EffectOk(t: Setup, source: seq<byte>, own: set<nat>, e: Effect<set<nat>>)
    requires t.Proper() && t.info.fileSize <= |source|
  {
    match e
    case Send(_, m) => MessageOk(t, source, m)
    case Completed(i) => i in own
    case Corrupted(_) => false
  }

  ghost predicate Inv(t: Setup, source: seq<byte>, s: Node) {
    && Genuine(t, source) && t.info.fileSize <= |s.file|
    && s.own <= Below(t.info.NumPieces())
    && (forall i :: i in s.own ==> Agrees(t, source, s.file, i))
    && (forall k :: 0 <= k < |s.conns| ==> ConnOk(t, source, s.file, s.conns[k]))
    && (forall e :: e in s.log ==> EffectOk(t, source, s.own, e))
  }

  // ------------------------------------------------------------------
  // Elementary changes

  lemma SendInv(t: Setup, source: seq<byte>, s: Node, to: Destination, m: Message<set<nat>>)
    requires Inv(t, source, s) && MessageOk(t, source, m)
    ensures Inv(t, source, SendTo(s, to, m))
  {
  }

  lemma SetInv(t: Setup, source: seq<byte>, s: Node, k: nat, c: Conn)
    requires Inv(t, source, s) && k < |s.conns| && ConnOk(t, source, s.file, c)
    ensures Inv(t, source, SetConn(s, k, c))
  {
  }

  lemma SendRequestInv(t: Setup, source: seq<byte>, s: Node, to: Address, r: Request)
    requires Inv(t, source, s) && RequestOk(t, source, s.file, r)
    ensures Inv(t, source, SendRequest(t, s, to, r))
  {
    RequestMessageOk(t, source, s.file, r, MakeHeader(t, s));
    SendInv(t, source, s, Unicast(to), DataRequest(MakeHeader(t, s), r.index % 0x100, r.offset % 0x1_0000));
  }

  lemma RequestMessageOk(t: Setup, source: seq<byte>, file: seq<byte>, r: Request, header: Header<set<nat>>)
    requires Genuine(t, source) && t.info.fileSize <= |file| && RequestOk(t, source, file, r)
    ensures MessageOk(t, source, DataRequest(header, r.index % 0x100, r.offset % 0x1_0000))
  {
    assert r.index < 0x100 && t.info.Size(r.index) <= 0x100;
  }

  lemma RequestStartInv(t: Setup, source: seq<byte>, s: Node, k: nat, r: Request)
    requires Inv(t, source, s) && k < |s.conns| && RequestOk(t, source, s.file, r)
    ensures Inv(t, source, RequestStart(t, s, k, r))
  {
    var c := s.conns[k];
    var c' := c.(request := Some(r), retry := Retry.Start(c.retry, MAX_PEER_RETRIES).0);
    SetInv(t, source, s, k, c');
    SendRequestInv(t, source, SetConn(s, k, c'), c.addr, r);
  }

  lemma RequestStopInv(t: Setup, source: seq<byte>, s: Node, k: nat)
    requires Inv(t, source, s) && k < |s.conns|
    ensures Inv(t, source, RequestStop(s, k))
  {
    SetInv(t, source, s, k, s.conns[k].(request := None));
  }

  /** Whatever piece is chosen, its request starts inside it. */
  lemma RequestNextInv(t: Setup, source: seq<byte>, s: Node, k: nat)
    requires Inv(t, source, s) && k < |s.conns|
    ensures Inv(t, source, RequestNext(t, s, k))
  {
    var candidates := Candidates(t, s, k);
    if s.conns[k].request.None? && !IsSeed(t, s.own) && candidates != {} {
      var i := Rarest(s.conns, candidates, t.info.NumPieces());
      assert t.info.IsValid(i);
      Abut(t.info, i);
      RequestStartInv(t, source, s, k, Request(i, 0));
    }
  }

  lemma ConnectInv(t: Setup, source: seq<byte>, s: Node, addr: Address, pool: Pool)
    requires Inv(t, source, s)
    ensures Inv(t, source, ConnectWith(s, addr, pool).0)
  {
  }

  lemma RemoveInv(t: Setup, source: seq<byte>, s: Node, k: nat)
    requires Inv(t, source, s) && k < |s.conns|
    ensures Inv(t, source, Remove(s, k))
  {
    var s' := Remove(s, k);
    assert forall j :: 0 <= j < |s'.conns| ==> s'.conns[j] == s.conns[if j < k then j else j + 1];
  }

  // ------------------------------------------------------------------
  // Receiving data

  /** Correct data written at or before a correct prefix extends it, and spoils nothing else. */
  lemma WriteInv(t: Setup, source: seq<byte>, s: Node, i: nat, start: nat, data: seq<byte>, offset: nat)
    requires Inv(t, source, s) && t.info.IsValid(i) && i !in s.own
    requires ReplyOk(t, source, i, start, data)
    requires AgreesUpTo(t, source, s.file, i, offset) && start <= offset
    ensures WriteResult(t.info, i, start, |data|) == |data|
    ensures var file := AfterWrite(t.info, s.file, i, start, data);
            Inv(t, source, s.(file := file)) && AgreesUpTo(t, source, file, i, start + |data|)
  {
    assert Narrow(start) == start;
    var file := AfterWrite(t.info, s.file, i, start, data);
    WritePrefix(t, source, s.file, i, start, data, offset);
    WriteKeepsOwn(t, source, s, i, start, data);
    forall k | 0 <= k < |s.conns| ensures ConnOk(t, source, file, s.conns[k]) {
      WriteKeepsConn(t, source, s.file, i, start, data, s.conns[k]);
    }
  }

  lemma WriteKeepsOwn(t: Setup, source: seq<byte>, s: Node, i: nat, start: nat, data: seq<byte>)
    requires Inv(t, source, s) && i !in s.own
    ensures forall j :: j in s.own ==> Agrees(t, source, AfterWrite(t.info, s.file, i, start, data), j)
  {
    forall j | j in s.own ensures Agrees(t, source, AfterWrite(t.info, s.file, i, start, data), j) {
      assert Agrees(t, source, s.file, j);
      WriteStaysInside(t.info, s.file, i, start, data, j);
    }
  }

  lemma WriteKeepsConn(
    t: Setup, source: seq<byte>, file: seq<byte>, i: nat, start: nat, data: seq<byte>, c: Conn)
    requires t.Proper() && t.info.fileSize <= |source| && t.info.fileSize <= |file|
    requires ReplyOk(t, source, i, start, data) && start < 0x100 && ConnOk(t, source, file, c)
    ensures ConnOk(t, source, AfterWrite(t.info, file, i, start, data), c)
  {
    if c.request.Some? {
      WriteKeepsRequest(t, source, file, i, start, data, c.request.value);
    }
  }

  lemma WriteKeepsRequest(
    t: Setup, source: seq<byte>, file: seq<byte>, i: nat, start: nat, data: seq<byte>, r: Request)
    requires t.Proper() && t.info.fileSize <= |source| && t.info.fileSize <= |file|
    requires ReplyOk(t, source, i, start, data) && start < 0x100 && RequestOk(t, source, file, r)
    ensures RequestOk(t, source, AfterWrite(t.info, file, i, start, data), r)
  {
    if r.index == i {
      WritePrefix(t, source, file, i, start, data, r.offset);
    } else {
      WriteStaysInside(t.info, file, i, start, data, r.index);
    }
  }

  lemma WritePrefix(
    t: Setup, source: seq<byte>, file: seq<byte>, i: nat, start: nat, data: seq<byte>, offset: nat)
    requires t.Proper() && t.info.fileSize <= |source| && t.info.fileSize <= |file|
    requires ReplyOk(t, source, i, start, data) && start < 0x100 && AgreesUpTo(t, source, file, i, offset)
    ensures AgreesUpTo(t, source, AfterWrite(t.info, file, i, start, data), i, offset)
    ensures start <= offset ==> AgreesUpTo(t, source, AfterWrite(t.info, file, i, start, data), i, start + |data|)
  {
    assert Narrow(start) == start && data[..|data|] == data;
    WriteLandsInside(t.info, file, i, start, data);
    OverwritePrefix(Piece(t.info, file, i), Piece(t.info, source, i), start, data, offset);
  }

  lemma OverwritePrefix(before: seq<byte>, right: seq<byte>, start: nat, data: seq<byte>, offset: nat)
    requires |before| == |right| && start + |data| <= |right| && data == right[start..start + |data|]
    requires offset <= |right| && before[..offset] == right[..offset]
    ensures Overwrite(before, start, data)[..offset] == right[..offset]
    ensures start <= offset ==> Overwrite(before, start, data)[..start + |data|] == right[..start + |data|]
  {
    var after := Overwrite(before, start, data);
    forall p | 0 <= p < |right| && (p < offset || start <= p < start + |data|) ensures after[p] == right[p] {
      if start <= p < start + |data| {
        assert after[p] == data[p - start];
      } else {
        assert before[p] == before[..offset][p];
      }
    }
  }

  /** A piece whose bytes are all right becomes complete. */
  lemma CompleteInv(t: Setup, source: seq<byte>, s: Node, i: nat)
    requires Inv(t, source, s) && t.info.IsValid(i) && Agrees(t, source, s.file, i)
    ensures var s' := RequestStopAll(s.(own := s.own + {i}), i);
            Inv(t, source, s'.(log := s'.log + [Completed(i)]))
  {
    var s' := RequestStopAll(s.(own := s.own + {i}), i);
    forall k | 0 <= k < |s'.conns| ensures ConnOk(t, source, s'.file, s'.conns[k]) {
      assert ConnOk(t, source, s.file, s.conns[k]);
    }
  }

  /** A piece that is right up to its end verifies. */
  lemma FullPiece(t: Setup, source: seq<byte>, file: seq<byte>, i: nat, offset: nat)
    requires Genuine(t, source) && t.info.fileSize <= |file| && t.info.IsValid(i)
    requires AgreesUpTo(t, source, file, i, offset) && offset >= t.info.Size(i)
    ensures Agrees(t, source, file, i) && Verified(t.info, t.digest, file, i)
  {
    assert Piece(t.info, file, i)[..offset] == Piece(t.info, file, i);
    assert Piece(t.info, source, i)[..offset] == Piece(t.info, source, i);
    assert Verified(t.info, t.digest, source, i);
  }

  lemma ReceiveDataInv(t: Setup, source: seq<byte>, s: Node, k: nat, i: nat, start: nat, length: nat)
    requires Inv(t, source, s) && k < |s.conns| && Requests(s.conns[k], i) && t.info.IsValid(i)
    requires start + length <= t.info.Size(i) && AgreesUpTo(t, source, s.file, i, start + length)
    ensures Inv(t, source, ReceiveData(t, s, k, i, start, length))
  {
    if start + length < t.info.Size(i) {
      RequestStartInv(t, source, s, k, Request(i, start + length));
      ReceiveMore(t, s, k, i, start, length);
    } else {
      FinishInv(t, source, s, k, i);
      ReceiveLast(t, s, k, i, start, length);
    }
  }

  /** The last data of a piece that then verifies. */
  lemma ReceiveLast(t: Setup, s: Node, k: nat, i: nat, start: nat, length: nat)
    requires t.Proper() && t.info.fileSize <= |s.file| && t.info.IsValid(i)
    requires k < |s.conns| && s.conns[k].request.Some?
    requires start + length == t.info.Size(i) && Verified(t.info, t.digest, s.file, i)
    ensures ReceiveData(t, s, k, i, start, length) == Finished(s, k, i)
  {
  }

  /** The node once piece i has been received through connection k and verifies. */
  ghost function Finished(s: Node, k: nat, i: nat): (r: Node)
    requires k < |s.conns|
    ensures i in r.own && r.file == s.file && Completed(i) in r.log && i !in Pending(r.conns)
  {
    var r := RequestStopAll(RequestStop(s, k).(own := s.own + {i}), i);
    assert forall j :: 0 <= j < |r.conns| ==> !Requests(r.conns[j], i);
    r.(log := r.log + [Completed(i)])
  }

  lemma FinishInv(t: Setup, source: seq<byte>, s: Node, k: nat, i: nat)
    requires Inv(t, source, s) && k < |s.conns| && t.info.IsValid(i)
    requires AgreesUpTo(t, source, s.file, i, t.info.Size(i))
    ensures Inv(t, source, Finished(s, k, i)) && Verified(t.info, t.digest, s.file, i)
  {
    FullPiece(t, source, s.file, i, t.info.Size(i));
    RequestStopInv(t, source, s, k);
    CompleteInv(t, source, RequestStop(s, k), i);
  }

  lemma DataReceiverInv(t: Setup, source: seq<byte>, s: Node, src: Address, i: nat, start: nat, data: seq<byte>)
    requires Inv(t, source, s) && ReplyOk(t, source, i, start, data)
    ensures Inv(t, source, DataReceiver(s, src, i, start, |data|).0)
  {
    if i !in s.own && i !in Pending(s.conns) && start == 0 {
      var (s1, k) := ConnectWith(s, src, Outgoing);
      ConnectInv(t, source, s, src, Outgoing);
      if k.Some? && s1.conns[k.value].request.None? {
        SetInv(t, source, s1, k.value, s1.conns[k.value].(request := Some(Request(i, start))));
      }
    }
  }

  /** The receiver's request starts inside the data. */
  lemma ReceiverInRange(s: Node, src: Address, i: nat, start: nat, length: nat)
    requires DataReceiver(s, src, i, start, length).1.Some?
    ensures var (s1, k) := DataReceiver(s, src, i, start, length);
            start <= s1.conns[k.value].request.value.offset
            && (length > 0 ==> s1.conns[k.value].request.value.offset < start + length)
  {
  }

  /** The node once the data has been stored, before it goes on. */
  ghost function Stored(t: Setup, s: Node, src: Address, i: nat, start: nat, data: seq<byte>): (r: Node)
    requires t.Proper() && t.info.fileSize <= |s.file|
    ensures |r.file| == |s.file|
  {
    var s1 := DataReceiver(s, src, i, start, |data|).0;
    s1.(file := AfterWrite(t.info, s1.file, i, start, data))
  }

  /** Right data that is taken extends the right prefix of its piece. */
  lemma StoredInv(t: Setup, source: seq<byte>, s: Node, src: Address, i: nat, start: nat, data: seq<byte>)
    requires Inv(t, source, s) && ReplyOk(t, source, i, start, data)
    requires DataReceiver(s, src, i, start, |data|).1.Some?
    ensures var (s1, k) := DataReceiver(s, src, i, start, |data|);
            var s2 := Stored(t, s, src, i, start, data);
            && Inv(t, source, s2) && AgreesUpTo(t, source, s2.file, i, start + |data|)
            && HandleDataReply(t, s, src, i, start, data) == ReceiveData(t, s2, k.value, i, start, |data|)
  {
    var (s1, k) := DataReceiver(s, src, i, start, |data|);
    DataReceiverInv(t, source, s, src, i, start, data);
    ReceiverInRange(s, src, i, start, |data|);
    assert ConnOk(t, source, s1.file, s1.conns[k.value]);
    WriteInv(t, source, s1, i, start, data, s1.conns[k.value].request.value.offset);
  }

  lemma HandleDataReplyInv(t: Setup, source: seq<byte>, s: Node, src: Address, i: nat, start: nat, data: seq<byte>)
    requires Inv(t, source, s) && ReplyOk(t, source, i, start, data)
    ensures Inv(t, source, HandleDataReply(t, s, src, i, start, data))
  {
    var (s1, k) := DataReceiver(s, src, i, start, |data|);
    DataReceiverInv(t, source, s, src, i, start, data);
    if k.Some? {
      StoredInv(t, source, s, src, i, start, data);
      ReceiveDataInv(t, source, Stored(t, s, src, i, start, data), k.value, i, start, |data|);
    }
  }

  // ------------------------------------------------------------------
  // Progress

  /** Every accepted reply completes the piece or moves the request strictly forward. */
  lemma AcceptedReplyAdvances(t: Setup, source: seq<byte>, s: Node, src: Address, i: nat, start: nat, data: seq<byte>)
    requires Inv(t, source, s) && ReplyOk(t, source, i, start, data)
    requires DataReceiver(s, src, i, start, |data|).1.Some?
    ensures var (s1, k) := DataReceiver(s, src, i, start, |data|);
            var after := HandleDataReply(t, s, src, i, start, data);
            if start + |data| == t.info.Size(i) then i in after.own
            else
              && |after.conns| == |s1.conns| && after.own == s1.own
              && after.conns[k.value].addr == s1.conns[k.value].addr
              && after.conns[k.value].request == Some(Request(i, start + |data|))
              && start + |data| > s1.conns[k.value].request.value.offset
  {
    var (s1, k) := DataReceiver(s, src, i, start, |data|);
    StoredInv(t, source, s, src, i, start, data);
    ReceiverInRange(s, src, i, start, |data|);
    var s2 := Stored(t, s, src, i, start, data);
    if start + |data| < t.info.Size(i) {
      ReceiveMore(t, s2, k.value, i, start, |data|);
    } else {
      FinishInv(t, source, s2, k.value, i);
      ReceiveLast(t, s2, k.value, i, start, |data|);
    }
  }

  /** The last data of a piece completes it with the source's bytes, and nobody requests it any more. */
  lemma LastReplyCompletes(t: Setup, source: seq<byte>, s: Node, src: Address, i: nat, start: nat, data: seq<byte>)
    requires Inv(t, source, s) && ReplyOk(t, source, i, start, data)
    requires DataReceiver(s, src, i, start, |data|).1.Some? && start + |data| == t.info.Size(i)
    ensures var after := HandleDataReply(t, s, src, i, start, data);
            && i in after.own && Completed(i) in after.log && i !in Pending(after.conns)
            && Piece(t.info, after.file, i) == Piece(t.info, source, i)
  {
    var k := DataReceiver(s, src, i, start, |data|).1;
    StoredInv(t, source, s, src, i, start, data);
    var s2 := Stored(t, s, src, i, start, data);
    FullPiece(t, source, s2.file, i, t.info.Size(i));
    ReceiveLast(t, s2, k.value, i, start, |data|);
  }

  /** Somewhere in the list is the request of connection c, at a later offset. */
  ghost predicate Advanced(s: Node, c: Conn)
    requires c.request.Some?
  {
    exists k :: 0 <= k < |s.conns| && s.conns[k].addr == c.addr && Requests(s.conns[k], c.request.value.index)
                && s.conns[k].request.value.offset > c.request.value.offset
  }

  /** Accepting the sender and asking it for more leaves all other requests as they are. */
  lemma AcceptKeepsRequest(t: Setup, s: Node, c: Conn, src: Address, m: Message<set<nat>>, read: nat)
    requires t.Proper() && t.info.fileSize <= |s.file| && c.request.Some? && Advanced(s, c) && m.DataReply?
    ensures var (s2, k) := ConnectWith(s, src, Incoming);
            Advanced(
                     if k.None? then s2
                     else Respond(t, UpdateHave(s2, k.value, m.header.have), k.value, src, m, read), c)
  {
    var j :| 0 <= j < |s.conns| && s.conns[j].addr == c.addr && Requests(s.conns[j], c.request.value.index)
             && s.conns[j].request.value.offset > c.request.value.offset;
    var (s2, k) := ConnectWith(s, src, Incoming);
    var j2 := if s2.conns == s.conns then j else j + 1;
    assert s2.conns[j2] == s.conns[j];
    if k.Some? {
      var s3 := UpdateHave(s2, k.value, m.header.have);
      assert s3.conns[j2].addr == c.addr && s3.conns[j2].request == s.conns[j].request;
      var s4 := RequestNext(t, s3, k.value);
      assert s4.conns[j2].addr == c.addr && s4.conns[j2].request == s.conns[j].request;
      assert Advanced(s4, c);
    } else {
      assert Advanced(s2, c);
    }
  }

  /** The whole handler: after an accepted honest reply the piece is complete, or the request that took the data
      has moved strictly forward. */
  lemma AcceptedMessageAdvances(
    t: Setup, source: seq<byte>, s: Node, src: Address, toAll: bool, m: Message<set<nat>>, read: nat)
    requires Inv(t, source, s) && MessageOk(t, source, m)
    requires m.header.infoHash == t.infoHash && m.DataReply?
    requires DataReceiver(s, src, m.index, m.start, |m.data|).1.Some?
    ensures var (s1, k) := DataReceiver(s, src, m.index, m.start, |m.data|);
            var after := HandleMessage(t, s, src, toAll, m, read);
            m.index in after.own || Advanced(after, s1.conns[k.value])
  {
    AcceptedReplyAdvances(t, source, s, src, m.index, m.start, m.data);
    var (s1, k) := DataReceiver(s, src, m.index, m.start, |m.data|);
    var c := s1.conns[k.value];
    var s2 := HandleDataReply(t, s, src, m.index, m.start, m.data);
    if m.index !in s2.own {
      assert Advanced(s2, c);
      AcceptKeepsRequest(t, s2, c, src, m, read);
    } else {
      AcceptKeepsOwn(t, s2, src, m, read);
    }
  }

  lemma AcceptKeepsOwn(t: Setup, s: Node, src: Address, m: Message<set<nat>>, read: nat)
    requires t.Proper() && t.info.fileSize <= |s.file| && m.DataReply?
    ensures var (s2, k) := ConnectWith(s, src, Incoming);
            (if k.None? then s2
             else Respond(t, UpdateHave(s2, k.value, m.header.have), k.value, src, m, read)).own == s.own
  {
  }

  // ------------------------------------------------------------------
  // Whole handlers

  /** Part of a piece a node has makes a good reply. */
  lemma ReplyMessageOk(t: Setup, source: seq<byte>, s: Node, i: nat, start: nat, n: nat)
    requires Genuine(t, source) && t.info.fileSize <= |s.file| && t.info.IsValid(i) && Agrees(t, source, s.file, i)
    requires 0 < n && start + n <= t.info.Size(i)
    ensures Narrow(start) == start && MessageOk(t, source, ReplyMessage(t, s, i, start, n))
  {
    assert start % 0x1_0000 == start;
  }

  lemma HandleDataRequestInv(t: Setup, source: seq<byte>, s: Node, src: Address, i: nat, start: nat, read: nat)
    requires Inv(t, source, s)
    requires t.info.IsValid(i) ==> start < t.info.Size(i)
    ensures Inv(t, source, HandleDataRequest(t, s, src, i, start, read))
  {
    if t.info.IsValid(i) && i in s.own {
      assert Narrow(start) == start;
      var n := ReadLength(read, Min(t.maxData, t.info.Size(i) - start));
      if n > 0 {
        ReplyMessageOk(t, source, s, i, start, n);
        SendInv(t, source, s, if src.linkLocal then AllNodes else Unicast(src), ReplyMessage(t, s, i, start, n));
      }
    }
  }

  lemma HandleMessageInv(
    t: Setup, source: seq<byte>, s: Node, src: Address, toAll: bool, m: Message<set<nat>>, read: nat)
    requires Inv(t, source, s) && MessageOk(t, source, m)
    ensures Inv(t, source, HandleMessage(t, s, src, toAll, m, read))
  {
    if m.header.infoHash == t.infoHash {
      if m.Close? {
        if Find(s.conns, src) < |s.conns| {
          RemoveInv(t, source, s, Find(s.conns, src));
        }
      } else {
        var s1 := if m.DataReply? then HandleDataReply(t, s, src, m.index, m.start, m.data) else s;
        if m.DataReply? {
          HandleDataReplyInv(t, source, s, src, m.index, m.start, m.data);
        }
        AcceptInv(t, source, s1, src, toAll, m, read);
      }
    }
  }

  lemma AcceptInv(t: Setup, source: seq<byte>, s: Node, src: Address, toAll: bool, m: Message<set<nat>>, read: nat)
    requires Inv(t, source, s) && MessageOk(t, source, m)
    ensures var (s2, k) := ConnectWith(s, src, Incoming);
            Inv(t, source,
                if k.Some? then Respond(t, UpdateHave(s2, k.value, m.header.have), k.value, src, m, read)
                else if toAll then s2 else SendTo(s2, Unicast(src), Close(MakeHeader(t, s2))))
  {
    var (s2, k) := ConnectWith(s, src, Incoming);
    ConnectInv(t, source, s, src, Incoming);
    if k.None? {
      SendInv(t, source, s2, Unicast(src), Close(MakeHeader(t, s2)));
    } else {
      var c := s2.conns[k.value];
      assert ConnOk(t, source, s2.file, c);
      SetInv(t, source, s2, k.value, c.(have := c.have + m.header.have));
      var s3 := UpdateHave(s2, k.value, m.header.have);
      if m.Have? || m.DataReply? {
        RequestNextInv(t, source, s3, k.value);
      } else if m.DataRequest? {
        HandleDataRequestInv(t, source, s3, src, m.index, m.start, read);
      }
    }
  }

  lemma RetryProcessInv(t: Setup, source: seq<byte>, s: Node, k: nat, expired: bool)
    requires Inv(t, source, s) && k < |s.conns|
    ensures Inv(t, source, RetryProcess(t, s, k, expired))
  {
    var c := s.conns[k];
    var (retry, action) := Retry.Process(c.retry, expired);
    var s1 := SetConn(s, k, c.(retry := retry));
    assert ConnOk(t, source, s.file, c);
    SetInv(t, source, s, k, c.(retry := retry));
    if c.request.Some? {
      if action.Again? {
        SendRequestInv(t, source, s1, c.addr, c.request.value);
      } else if action.Stop? {
        RequestStopInv(t, source, s1, k);
        RequestNextInv(t, source, RequestStop(s1, k), k);
      }
    }
  }

  lemma PollConnInv(t: Setup, source: seq<byte>, s: Node, k: nat, timers: Timers)
    requires Inv(t, source, s) && k < |s.conns|
    ensures Inv(t, source, PollConn(t, s, k, timers))
  {
    var addr := s.conns[k].addr;
    if addr in timers.silent {
      RemoveInv(t, source, s, k);
      SendInv(t, source, Remove(s, k), Unicast(addr), Close(MakeHeader(t, s)));
    } else if s.conns[k].request.Some? {
      RetryProcessInv(t, source, s, k, addr in timers.retries);
    }
    var s1 := if addr in timers.silent then DisconnectConn(t, s, k)
              else if s.conns[k].request.Some? then RetryProcess(t, s, k, addr in timers.retries)
              else s;
    SendInv(t, source, s1, Unicast(addr), Have(MakeHeader(t, s1)));
  }

  lemma {:induction false} PollFromInv(t: Setup, source: seq<byte>, s: Node, k: nat, timers: Timers)
    requires Inv(t, source, s) && k <= |s.conns|
    ensures Inv(t, source, PollFrom(t, s, k, timers))
    decreases |s.conns| - k
  {
    if k < |s.conns| {
      PollConnInv(t, source, s, k, timers);
      PollFromInv(t, source, PollConn(t, s, k, timers), if s.conns[k].addr in timers.silent then k else k + 1, timers);
    }
  }

  /** Every step keeps the data of a node right, given right data. */
  lemma StepInv(t: Setup, source: seq<byte>, s: Node, e: Event)
    requires Inv(t, source, s) && (e.Receive? ==> MessageOk(t, source, e.message))
    ensures Inv(t, source, Step(t, s, e))
  {
    match e {
      case Receive(src, toAll, m, read) => HandleMessageInv(t, source, s, src, toAll, m, read);
      case WakeUp(timers) =>
        PollFromInv(t, source, s, 0, timers);
        var s1 := PollFrom(t, s, 0, timers);
        SendInv(t, source, s1, AllNodes, Have(MakeHeader(t, s1)));
      case Join(peer) => ConnectInv(t, source, s, peer, Outgoing);
    }
  }
}
