/** What a node does at each event, told from its list of connections and the messages it sends (peer/peer.c). */
module PeerEvents {
  import opened Common
  import opened Words
  import opened Sha1
  import opened Torrent
  import opened PieceStore
  import opened PeerSpec
  import opened PeerChoice
  import opened PeerReplies
  import Retry

  // ------------------------------------------------------------------
  // Addresses learnt, foreign datagrams, and CLOSE

  ghost function Fresh(addr: Address, pool: Pool): Conn {
    Conn(addr, pool, {}, None, Retry.Counters(RETRY_TIMEOUT, 0, 0))
  }

  ghost predicate HasRoom(conns: seq<Conn>, pool: Pool) {
    |OfPool(conns, pool)| < 5
  }

  /** An address from the tracker becomes a new outgoing connection at the head of the list exactly if it is not listed
      yet and fewer than five connections are outgoing; otherwise nothing changes. */
  lemma JoinIff(t: Setup, s: Node, addr: Address)
    requires t.Proper() && t.info.fileSize <= |s.file|
    ensures Step(t, s, Join(addr))
         == if !Listed(s.conns, addr) && HasRoom(s.conns, Outgoing) then s.(conns := [Fresh(addr, Outgoing)] + s.conns)
            else s
  {
    ConnectIs(s, addr, Outgoing);
  }

  /** A datagram about another torrent changes nothing. */
  lemma ForeignIgnored(t: Setup, s: Node, src: Address, toAll: bool, m: Message<set<nat>>, read: nat)
    requires t.Proper() && t.info.fileSize <= |s.file| && m.header.infoHash != t.infoHash
    ensures Step(t, s, Receive(src, toAll, m, read)) == s
  {
  }

  /** A CLOSE takes the connection to its sender out of the list, with its request, and changes nothing else. */
  lemma CloseDrops(t: Setup, s: Node, src: Address, toAll: bool, have: set<nat>, read: nat)
    requires t.Proper() && t.info.fileSize <= |s.file| && DistinctAddresses(s.conns)
    ensures var s' := Step(t, s, Receive(src, toAll, Close(Header(t.infoHash, have)), read));
            && !Listed(s'.conns, src)
            && (forall k :: 0 <= k < |s.conns| && s.conns[k].addr == src ==>
                  s' == s.(conns := s.conns[..k] + s.conns[k + 1..]))
            && (!Listed(s.conns, src) ==> s' == s)
  {
    var k := Find(s.conns, src);
    if k < |s.conns| {
      var rest := s.conns[..k] + s.conns[k + 1..];
      assert forall j :: 0 <= j < |rest| ==> rest[j] == s.conns[if j < k then j else j + 1];
    }
  }

  // ------------------------------------------------------------------
  // Other messages

  /** Node s once connection k, which is the one to the sender, has recorded what the sender claims. */
  ghost predicate Accepted(s: Node, src: Address, have: set<nat>, s1: Node, k: nat) {
    && s1 == s.(conns := s1.conns) && k < |s1.conns|
    && if Listed(s.conns, src) then
         && k < |s.conns| && s.conns[k].addr == src
         && s1.conns == s.conns[k := s.conns[k].(have := s.conns[k].have + have)]
       else
         k == 0 && s1.conns == [Fresh(src, Incoming).(have := have)] + s.conns
  }

  /** What a message is answered with once its sender is accepted. */
  ghost function Answered(t: Setup, s: Node, k: nat, src: Address, m: Message<set<nat>>, read: nat): Node
    requires t.Proper() && t.info.fileSize <= |s.file| && k < |s.conns|
  {
    if m.Have? || m.DataReply? then RequestNext(t, s, k)
    else if m.DataRequest? then HandleDataRequest(t, s, src, m.index, m.start, read)
    else s
  }

  /** The node after the data of a message, before its sender is looked at. */
  ghost function AfterData(t: Setup, s: Node, src: Address, m: Message<set<nat>>): (r: Node)
    requires t.Proper() && t.info.fileSize <= |s.file|
    ensures |r.file| == |s.file|
  {
    if m.DataReply? then HandleDataReply(t, s, src, m.index, m.start, m.data) else s
  }

  /** A message that is no CLOSE: its data is handled first. Its sender is then accepted exactly if it is listed or
      fewer than five connections are incoming; if it is not, a CLOSE goes back unless the message was for everybody. */
  lemma AcceptedIff(t: Setup, s: Node, src: Address, toAll: bool, m: Message<set<nat>>, read: nat)
      returns (s1: Node, k: nat)
    requires t.Proper() && t.info.fileSize <= |s.file| && m.header.infoHash == t.infoHash && !m.Close?
    ensures var s0, s' := AfterData(t, s, src, m), Step(t, s, Receive(src, toAll, m, read));
            if Listed(s0.conns, src) || HasRoom(s0.conns, Incoming) then
              Accepted(s0, src, m.header.have, s1, k) && s' == Answered(t, s1, k, src, m, read)
            else
              s' == s0.(log := s0.log + if toAll then [] else [Send(Unicast(src), Close(Header(t.infoHash, s0.own)))])
  {
    var s0 := AfterData(t, s, src, m);
    var (s2, at) := ConnectWith(s0, src, Incoming);
    ConnectIs(s0, src, Incoming);
    if at.Some? {
      k := at.value;
      s1 := UpdateHave(s2, k, m.header.have);
      RecordIs(s0, src, m.header.have);
    } else {
      s1, k := s0, 0;
      assert s0.log + [] == s0.log;
    }
  }

  lemma ConnectIs(s: Node, addr: Address, pool: Pool)
    ensures var (s', at) := ConnectWith(s, addr, pool);
            && (at.Some? <==> Listed(s.conns, addr) || HasRoom(s.conns, pool))
            && (if Listed(s.conns, addr) then s' == s && at == Some(Find(s.conns, addr))
                else if HasRoom(s.conns, pool) then s' == s.(conns := [Fresh(addr, pool)] + s.conns) && at == Some(0)
                else s' == s)
  {
    UsedIsPool(s.conns, pool);
    assert Listed(s.conns, addr) <==> Find(s.conns, addr) < |s.conns|;
  }

  lemma RecordIs(s: Node, src: Address, have: set<nat>)
    requires ConnectWith(s, src, Incoming).1.Some?
    ensures var (s2, at) := ConnectWith(s, src, Incoming);
            Accepted(s, src, have, UpdateHave(s2, at.value, have), at.value)
  {
    ConnectIs(s, src, Incoming);
    assert {} + have == have;
  }

  /** A data request is answered exactly if the piece is complete, the offset narrowed to eight bits lies in it and
      datagrams have room for data: with some of the bytes from that offset on, to all nodes on the link if the
      requester is link-local. Nothing else changes. */
  lemma AnswersIff(t: Setup, s: Node, src: Address, i: uint8, start: uint16, read: nat)
    requires t.Proper() && t.info.fileSize <= |s.file|
    ensures var s', offset := HandleDataRequest(t, s, src, i, start, read), start % 0x100;
            if i < |t.info.hashes| && i in s.own && offset < t.info.Size(i) && t.maxData > 0 then
              exists data: seq<byte> :: SomeBytes(t, s, i, offset, data) && AnswersWith(t, s, s', src, i, start, data)
            else s' == s
  {
    var offset: nat := start % 0x100;
    if t.info.IsValid(i) && i in s.own && offset < t.info.Size(i) && t.maxData > 0 {
      var n := ReadLength(read, Min(t.maxData, t.info.Size(i) - offset));
      var data := ReplyMessage(t, s, i, start, n).data;
      ReplyBytes(t, s, i, start, n);
      assert SomeBytes(t, s, i, offset, data);
      assert AnswersWith(t, s, SendReply(t, s, src, i, start, n), src, i, start, data);
    }
  }

  lemma ReplyBytes(t: Setup, s: Node, i: uint8, start: uint16, n: nat)
    requires t.Proper() && t.info.fileSize <= |s.file| && t.info.IsValid(i)
    requires 0 < n <= Min(t.maxData, t.info.Size(i) - start % 0x100)
    ensures SomeBytes(t, s, i, start % 0x100, ReplyMessage(t, s, i, start, n).data)
    ensures ReplyMessage(t, s, i, start, n)
         == DataReply(Header(t.infoHash, s.own), i, start, ReplyMessage(t, s, i, start, n).data)
  {
    Abut(t.info, i);
    SliceOfSlice(s.file, t.info.Offset(i), t.info.Size(i), start % 0x100, n);
  }

  ghost predicate SomeBytes(t: Setup, s: Node, i: nat, offset: nat, data: seq<byte>)
    requires t.Proper() && t.info.fileSize <= |s.file| && t.info.IsValid(i)
  {
    && 0 < |data| <= Min(t.maxData, t.info.Size(i) - offset)
    && t.info.Offset(i) + offset + |data| <= |s.file|
    && data == s.file[t.info.Offset(i) + offset..t.info.Offset(i) + offset + |data|]
  }

  ghost predicate AnswersWith(t: Setup, s: Node, s': Node, src: Address, i: uint8, start: uint16, data: seq<byte>) {
    s' == s.(log := s.log + [Send(if src.linkLocal then AllNodes else Unicast(src),
                                  DataReply(Header(t.infoHash, s.own), i, start, data))])
  }

  /** Data that covers the offset the only requester of its piece waits for is stored, whoever sent it
      and whether or not the sender is accepted; any other data of that piece leaves file and pieces as they are. */
  lemma OverheardIsStored(t: Setup, s: Node, src: Address, toAll: bool, m: Message<set<nat>>, read: nat, k: nat)
    requires t.Proper() && t.info.fileSize <= |s.file| && DistinctAddresses(s.conns)
    requires m.DataReply? && m.header.infoHash == t.infoHash && t.info.IsValid(m.index) && m.index !in s.own
    requires OnlyRequester(s.conns, m.index, k)
    ensures var s' := Step(t, s, Receive(src, toAll, m, read));
            if InRange(s.conns[k], m.start, |m.data|) then
              s'.file == AfterWrite(t.info, s.file, m.index, m.start, m.data)
            else s'.file == s.file && s'.own == s.own
  {
    var s1, at := AcceptedIff(t, s, src, toAll, m, read);
    OverheardIff(t, s, src, m.index, m.start, m.data, k);
  }
}
