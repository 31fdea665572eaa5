/** The data in the network, for a genuine torrent whose pieces fit the eight-bit offset of the storage calls:
    what nodes store, request and send is right, and downloads move forward. */
module NetworkData {
  import opened Network
  import opened PeerSafety
  import opened PeerSpec
  import opened Sha1
  import opened Torrent

  /** What verifies at the start is right: the stored files hold no digest collision. */
  ghost predicate HonestStart(t: Setup, source: seq<byte>, sys: System)
    requires Genuine(t, source)
  {
    && Init(t, sys)
    && forall n, i :: 0 <= n < |sys.nodes| && i in sys.nodes[n].own ==>
         t.info.IsValid(i) && t.info.fileSize <= |sys.nodes[n].file| && Agrees(t, source, sys.nodes[n].file, i)
  }

  ghost predicate IsHonestRun(t: Setup, source: seq<byte>, run: seq<System>)
    requires Genuine(t, source)
  {
    IsRun(t, run) && HonestStart(t, source, run[0])
  }

  ghost predicate DataInv(t: Setup, source: seq<byte>, sys: System) {
    && Genuine(t, source)
    && (forall n :: 0 <= n < |sys.nodes| ==> Inv(t, source, sys.nodes[n]))
    && (forall p :: p in sys.net ==> MessageOk(t, source, p.message))
  }

  lemma StartInv(t: Setup, source: seq<byte>, sys: System)
    requires Genuine(t, source) && HonestStart(t, source, sys)
    ensures DataInv(t, source, sys)
  {
    forall n | 0 <= n < |sys.nodes| ensures Inv(t, source, sys.nodes[n]) {
      assert FreshNode(t, sys.nodes[n]);
    }
  }

  /** One step of the system keeps the data right. */
  lemma NextDataInv(t: Setup, source: seq<byte>, sys: System, sys': System)
    requires DataInv(t, source, sys) && Next(t, sys, sys')
    ensures DataInv(t, source, sys')
  {
    var n: nat, e :| NodeStep(t, sys, sys', n, e);
    var s := sys.nodes[n].(log := []);
    assert Inv(t, source, sys.nodes[n]);
    assert Inv(t, source, s);
    StepInv(t, source, s, e);
    forall m | 0 <= m < |sys'.nodes| ensures Inv(t, source, sys'.nodes[m]) {
      assert m != n ==> sys'.nodes[m] == sys.nodes[m];
    }
    forall p | p in sys'.net ensures MessageOk(t, source, p.message) {
      if p !in sys.net {
        assert EffectOk(t, source, sys'.nodes[n].own, Send(p.to, p.message));
      }
    }
  }

  lemma {:induction false} RunDataInv(t: Setup, source: seq<byte>, run: seq<System>, i: nat)
    requires Genuine(t, source) && IsHonestRun(t, source, run) && i < |run|
    ensures DataInv(t, source, run[i])
  {
    if i == 0 {
      StartInv(t, source, run[0]);
    } else {
      RunDataInv(t, source, run, i - 1);
      PathStep(t, run, i - 1);
      NextDataInv(t, source, run[i - 1], run[i]);
    }
  }

  /** No node ever finds a piece corrupted, and every piece it holds is the source's. */
  lemma NothingIsCorrupted(t: Setup, source: seq<byte>, run: seq<System>, i: nat, n: nat)
    requires Genuine(t, source) && IsHonestRun(t, source, run) && i < |run| && n < |run[i].nodes|
    ensures forall e :: e in run[i].nodes[n].log ==> !e.Corrupted?
    ensures t.info.fileSize <= |run[i].nodes[n].file|
    ensures forall j :: j in run[i].nodes[n].own ==>
              t.info.IsValid(j) && Piece(t.info, run[i].nodes[n].file, j) == Piece(t.info, source, j)
  {
    RunDataInv(t, source, run, i);
    var s := run[i].nodes[n];
    assert Inv(t, source, s);
    forall e | e in s.log ensures !e.Corrupted? {
      assert EffectOk(t, source, s.own, e);
    }
    forall j | j in s.own ensures t.info.IsValid(j) && Piece(t.info, s.file, j) == Piece(t.info, source, j) {
      assert Agrees(t, source, s.file, j);
    }
  }

  /** An outstanding request is at an offset inside its piece, and the bytes before it are the source's. */
  lemma PrefixesAreRight(t: Setup, source: seq<byte>, run: seq<System>, i: nat, n: nat, k: nat)
    requires Genuine(t, source) && IsHonestRun(t, source, run) && i < |run| && n < |run[i].nodes|
    requires k < |run[i].nodes[n].conns| && run[i].nodes[n].conns[k].request.Some?
    ensures var s := run[i].nodes[n];
            var r := s.conns[k].request.value;
            && t.info.IsValid(r.index) && t.info.fileSize <= |s.file|
            && r.offset < t.info.Size(r.index)
            && Piece(t.info, s.file, r.index)[..r.offset] == Piece(t.info, source, r.index)[..r.offset]
  {
    RunDataInv(t, source, run, i);
    var s := run[i].nodes[n];
    assert Inv(t, source, s);
    assert ConnOk(t, source, s.file, s.conns[k]);
  }

  /** Whenever a data reply in flight reaches a node that takes it, the piece is complete afterwards, or the request
      that took it has moved strictly forward. */
  lemma RepliesAdvance(t: Setup, source: seq<byte>, run: seq<System>, i: nat, n: nat, p: Packet, read: nat)
    requires Genuine(t, source) && IsHonestRun(t, source, run) && i < |run| && n < |run[i].nodes|
    requires p in run[i].net && p.message.DataReply? && Reaches(p.to, n)
    requires DataReceiver(run[i].nodes[n], p.src, p.message.index, p.message.start, |p.message.data|).1.Some?
    ensures t.info.fileSize <= |run[i].nodes[n].file|
    ensures var s, m := run[i].nodes[n].(log := []), p.message;
            var (s1, k) := DataReceiver(s, p.src, m.index, m.start, |m.data|);
            var after := Step(t, s, Receive(p.src, p.to == AllNodes, m, read));
            m.index in after.own || Advanced(after, s1.conns[k.value])
  {
    RunDataInv(t, source, run, i);
    RunInv(t, run, i);
    var s := run[i].nodes[n].(log := []);
    assert Inv(t, source, run[i].nodes[n]);
    assert Inv(t, source, s);
    assert PacketTrue(t, run[i].nodes, p);
    AcceptedMessageAdvances(t, source, s, p.src, p.to == AllNodes, p.message, read);
  }
}
