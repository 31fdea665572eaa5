/** Exactly how far the node's properties reach: each limit is an equivalence, with an input beyond it. */
module Limits {
  import opened Common
  import opened Bitset
  import opened Sha1
  import opened Torrent
  import opened PieceStore
  import opened PeerSafety
  import opened PeerSpec

  /** Whether data written at start is found there afterwards, whatever was stored and whatever the data. */
  ghost predicate StoredWhereAsked(info: Info, i: nat, start: nat, n: nat)
    requires info.Proper() && info.IsValid(i) && start + n <= info.Size(i)
  {
    forall file: seq<byte>, data: seq<byte> :: info.fileSize <= |file| && |data| == n ==>
      Piece(info, AfterWrite(info, file, i, start, data), i)[start..start + n] == data
  }

  lemma LandsBelow(info: Info, i: nat, start: nat, n: nat, file: seq<byte>, data: seq<byte>)
    requires info.Proper() && info.IsValid(i) && start + n <= info.Size(i)
    requires n > 0 && start < 0x100 && info.fileSize <= |file| && |data| == n
    ensures Piece(info, AfterWrite(info, file, i, start, data), i)[start..start + n] == data
  {
    NarrowCases(start);
    WriteLandsInside(info, file, i, start, data);
    assert WriteResult(info, i, start, n) == n && data[..n] == data;
    OverwriteHolds(Piece(info, file, i), start, data);
  }

  lemma OverwriteHolds(before: seq<byte>, start: nat, data: seq<byte>)
    requires start + |data| <= |before|
    ensures Overwrite(before, start, data)[start..start + |data|] == data
  {
  }

  /** The last byte of a write that wraps stays as it was. */
  lemma MissesAbove(info: Info, i: nat, start: nat, n: nat, file: seq<byte>, data: seq<byte>)
    requires info.Proper() && info.IsValid(i) && start + n <= info.Size(i)
    requires n > 0 && start >= 0x100 && info.fileSize <= |file| && |data| == n
    ensures var last := start + n - 1;
            Piece(info, AfterWrite(info, file, i, start, data), i)[last] == Piece(info, file, i)[last]
  {
    WriteLandsInside(info, file, i, start, data);
    assert WriteResult(info, i, start, n) == n && data[..n] == data;
    var before, after := Piece(info, file, i), Piece(info, AfterWrite(info, file, i, start, data), i);
    assert after == Overwrite(before, Narrow(start), data);
  }

  /** The storage calls take an eight-bit offset, so data lands where it was asked for exactly below offset 256. */
  lemma StoredWhereAskedIff(info: Info, i: nat, start: nat, n: nat)
    requires info.Proper() && info.IsValid(i) && n > 0 && start + n <= info.Size(i)
    ensures StoredWhereAsked(info, i, start, n) <==> start < 0x100
  {
    if start < 0x100 {
      forall file: seq<byte>, data: seq<byte> | info.fileSize <= |file| && |data| == n
        ensures Piece(info, AfterWrite(info, file, i, start, data), i)[start..start + n] == data
      {
        LandsBelow(info, i, start, n, file, data);
      }
    } else {
      var zero: byte, one: byte := 0, 1;
      var file, data := seq(info.fileSize, _ => zero), seq(n, _ => one);
      MissesAbove(info, i, start, n, file, data);
      Abut(info, i);
      var last := start + n - 1;
      assert Piece(info, file, i)[last] == zero;
      assert Piece(info, AfterWrite(info, file, i, start, data), i)[start..start + n][n - 1] != data[n - 1];
    }
  }

  // ------------------------------------------------------------------
  // Downloads past offset 256

  /** Node s takes the data for a request at this offset. */
  ghost predicate Takes(t: Setup, s: Node, src: Address, i: nat, start: nat, n: nat, offset: nat) {
    && t.Proper() && t.info.fileSize <= |s.file|
    && DataReceiver(s, src, i, start, n).1.Some?
    && var (s1, k) := DataReceiver(s, src, i, start, n);
       s1.conns[k.value].request.value.offset == offset
  }

  /** Where the data ends, or the piece if that comes first. */
  function EndOf(info: Info, i: nat, start: nat, length: nat): int
    requires info.NumPieces() > 1 ==> info.pieceSize > 0
  {
    Min(start + length, info.Size(i))
  }

  /** Whichever node takes the data, with a file that is right up to its request, has it right up to this end. */
  ghost predicate ExtendsTo(
    t: Setup, source: seq<byte>, i: nat, start: nat, data: seq<byte>, offset: nat, end: nat)
    requires t.Proper() && t.info.fileSize <= |source| && t.info.IsValid(i)
  {
    forall s: Node, src: Address ::
      Takes(t, s, src, i, start, |data|, offset) && AgreesUpTo(t, source, s.file, i, offset) ==>
        AgreesUpTo(t, source, HandleDataReply(t, s, src, i, start, data).file, i, end)
  }

  lemma TakenFile(t: Setup, s: Node, src: Address, i: nat, start: nat, data: seq<byte>, offset: nat)
    requires Takes(t, s, src, i, start, |data|, offset) && t.info.IsValid(i)
    ensures HandleDataReply(t, s, src, i, start, data).file == AfterWrite(t.info, s.file, i, start, data)
  {
  }

  /** Data of the source from the narrowed offset on is right wherever it lands. */
  lemma NarrowExtends(t: Setup, source: seq<byte>, i: nat, start: nat, low: nat, data: seq<byte>, offset: nat)
    requires t.Proper() && t.info.fileSize <= |source| && low < 0x100 && Narrow(low) == Narrow(start)
    requires ReplyOk(t, source, i, low, data) && low <= offset
    ensures ExtendsTo(t, source, i, start, data, offset, low + |data|)
  {
    forall s: Node, src: Address
      | Takes(t, s, src, i, start, |data|, offset) && AgreesUpTo(t, source, s.file, i, offset)
      ensures AgreesUpTo(t, source, HandleDataReply(t, s, src, i, start, data).file, i, low + |data|)
    {
      NarrowTaken(t, source, s, src, i, start, low, data, offset);
    }
  }

  lemma NarrowTaken(t: Setup, source: seq<byte>, s: Node, src: Address, i: nat, start: nat, low: nat,
                    data: seq<byte>, offset: nat)
    requires t.Proper() && t.info.fileSize <= |source| && low < 0x100 && Narrow(low) == Narrow(start)
    requires ReplyOk(t, source, i, low, data) && low <= offset
    requires Takes(t, s, src, i, start, |data|, offset) && AgreesUpTo(t, source, s.file, i, offset)
    ensures AgreesUpTo(t, source, HandleDataReply(t, s, src, i, start, data).file, i, low + |data|)
  {
    TakenFile(t, s, src, i, start, data, offset);
    NarrowWrite(t, source, s.file, i, start, low, data, offset);
  }

  lemma NarrowWrite(
    t: Setup, source: seq<byte>, file: seq<byte>, i: nat, start: nat, low: nat, data: seq<byte>, offset: nat)
    requires t.Proper() && t.info.fileSize <= |source| && t.info.fileSize <= |file|
    requires low < 0x100 && Narrow(low) == Narrow(start) && low <= offset
    requires ReplyOk(t, source, i, low, data) && AgreesUpTo(t, source, file, i, offset)
    ensures AgreesUpTo(t, source, AfterWrite(t.info, file, i, start, data), i, low + |data|)
  {
    SameNarrow(t.info, file, i, start, low, data);
    WritePrefix(t, source, file, i, low, data, offset);
  }

  /** A node whose file is wrong at one byte of the piece only, and that requests the piece at this offset. */
  ghost function WrongAt(t: Setup, source: seq<byte>, src: Address, i: nat, offset: nat, position: nat): Node
    requires t.Proper() && t.info.fileSize <= |source| && t.info.IsValid(i) && position < t.info.Size(i)
  {
    Abut(t.info, i);
    var p := t.info.Offset(i) + position;
    var c := NewConn(src, Outgoing, RETRY_TIMEOUT).(request := Some(Request(i, offset)));
    Node([c], {}, source[p := source[p] ^ 1], [])
  }

  /** Data that lands before a byte it claims to bring leaves that byte wrong. */
  lemma MissedExtendsNot(
    t: Setup, source: seq<byte>, i: nat, start: nat, data: seq<byte>, offset: nat, position: nat, end: nat)
    requires t.Proper() && t.info.fileSize <= |source| && t.info.IsValid(i) && start <= offset < start + |data|
    requires Narrow(start) + |data| <= position && offset <= position < end <= t.info.Size(i)
    ensures !ExtendsTo(t, source, i, start, data, offset, end)
  {
    var src := Address(0, false);
    var s := WrongAt(t, source, src, i, offset, position);
    WrongTakes(t, source, src, i, start, |data|, offset, position);
    TakenFile(t, s, src, i, start, data, offset);
    MissedByte(t.info, s.file, i, start, data, position);
    var after := HandleDataReply(t, s, src, i, start, data).file;
    assert Piece(t.info, after, i)[..end][position] != Piece(t.info, source, i)[..end][position];
  }

  lemma WrongTakes(t: Setup, source: seq<byte>, src: Address, i: nat, start: nat, n: nat, offset: nat, position: nat)
    requires t.Proper() && t.info.fileSize <= |source| && t.info.IsValid(i) && start <= offset < start + n
    requires offset <= position < t.info.Size(i)
    ensures var s := WrongAt(t, source, src, i, offset, position);
            && Takes(t, s, src, i, start, n, offset) && AgreesUpTo(t, source, s.file, i, offset)
            && Piece(t.info, s.file, i)[position] != Piece(t.info, source, i)[position]
  {
    Abut(t.info, i);
    var s := WrongAt(t, source, src, i, offset, position);
    assert Requests(s.conns[0], i);
    assert s.conns[0].request.value.index in Pending(s.conns);
    assert Find(s.conns, src) == 0 && FindRequest(s.conns, src, i) == 0;
    var b := source[t.info.Offset(i) + position];
    assert b ^ 1 != b;
  }

  lemma MissedByte(info: Info, file: seq<byte>, i: nat, start: nat, data: seq<byte>, position: nat)
    requires info.Proper() && info.fileSize <= |file| && info.IsValid(i)
    requires Narrow(start) + |data| <= position < info.Size(i)
    ensures Piece(info, AfterWrite(info, file, i, start, data), i)[position] == Piece(info, file, i)[position]
  {
    WriteLandsInside(info, file, i, start, data);
    assert data[..|data|] == data;
  }

  /** The right data extends the right prefix of a download exactly below offset 256. */
  lemma RightDataExtendsIff(t: Setup, source: seq<byte>, i: nat, start: nat, data: seq<byte>, offset: nat)
    requires t.Proper() && t.info.fileSize <= |source| && ReplyOk(t, source, i, start, data)
    requires start <= offset < start + |data|
    ensures ExtendsTo(t, source, i, start, data, offset, start + |data|) <==> start < 0x100
  {
    NarrowCases(start);
    if start < 0x100 {
      NarrowExtends(t, source, i, start, start, data, offset);
    } else {
      MissedExtendsNot(t, source, i, start, data, offset, start + |data| - 1, start + |data|);
    }
  }

  /** What a node that has the piece sends when asked for it at this offset: its read is narrowed as well. */
  lemma SentData(t: Setup, source: seq<byte>, sender: Node, i: nat, start: nat, n: nat)
    requires t.Proper() && t.info.fileSize <= |source| && t.info.fileSize <= |sender.file| && t.info.IsValid(i)
    requires Agrees(t, source, sender.file, i) && 0 < n && Narrow(start) + n <= t.info.Size(i)
    ensures var m := ReplyMessage(t, sender, i, start, n);
            ReplyOk(t, source, i, Narrow(start), m.data) && |m.data| == n
  {
  }

  /** What an honest node sends extends the right prefix of a download exactly if it is asked below offset 256,
      or if the narrowed read reaches the end of the piece. */
  lemma SentDataExtendsIff(t: Setup, source: seq<byte>, sender: Node, i: nat, start: nat, n: nat, offset: nat)
    requires t.Proper() && t.info.fileSize <= |source| && t.info.fileSize <= |sender.file| && t.info.IsValid(i)
    requires Agrees(t, source, sender.file, i) && 0 < n && Narrow(start) + n <= t.info.Size(i)
    requires start <= offset < start + n && offset < t.info.Size(i)
    ensures ExtendsTo(t, source, i, start, ReplyMessage(t, sender, i, start, n).data, offset,
                      EndOf(t.info, i, start, n))
            <==> start < 0x100 || Narrow(start) + n == t.info.Size(i)
  {
    var data := ReplyMessage(t, sender, i, start, n).data;
    SentData(t, source, sender, i, start, n);
    NarrowCases(start);
    if start < 0x100 || Narrow(start) + n == t.info.Size(i) {
      NarrowExtends(t, source, i, start, Narrow(start), data, offset);
    } else {
      var end := EndOf(t.info, i, start, n);
      MissedExtendsNot(t, source, i, start, data, offset, end - 1, end);
    }
  }

  /** A torrent of one piece of 257 bytes, with a hash that only the source has. */
  ghost function Wide(source: seq<byte>): Setup {
    Setup(Info(257, 257, [[1]]), [], m => if m == source then [1] else [0], 1)
  }

  /** The node asks for the last byte and has all the others; an honest reply makes it find the piece corrupted. */
  lemma WideDownloadFails(source: seq<byte>, src: Address)
    requires |source| == 257
    ensures var t := Wide(source);
            var data := ReplyMessage(t, Node([], {0}, source, []), 0, 256, 1).data;
            && t.Proper() && Verified(t.info, t.digest, source, 0)
            && AgreesUpTo(t, source, WrongAt(t, source, src, 0, 256, 256).file, 0, 256)
            && HandleDataReply(t, WrongAt(t, source, src, 0, 256, 256), src, 0, 256, data).log == [Corrupted(0)]
  {
    var t := Wide(source);
    WideIsProper(source);
    var s := WrongAt(t, source, src, 0, 256, 256);
    var data := ReplyMessage(t, Node([], {0}, source, []), 0, 256, 1).data;
    WrongTakes(t, source, src, 0, 256, 1, 256, 256);
    TakenFile(t, s, src, 0, 256, data, 256);
    MissedByte(t.info, s.file, 0, 256, data, 256);
    var file := AfterWrite(t.info, s.file, 0, 256, data);
    assert Piece(t.info, source, 0) == source;
    assert Piece(t.info, file, 0)[256] != source[256];
    assert !Verified(t.info, t.digest, file, 0);
    var (s1, k) := DataReceiver(s, src, 0, 256, 1);
    EndsCorrupted(t, s1.(file := file), k.value, 0, 256, 1);
  }

  lemma WideIsProper(source: seq<byte>)
    requires |source| == 257
    ensures var t := Wide(source);
            t.Proper() && t.info.IsValid(0) && t.info.Size(0) == 257 && Piece(t.info, source, 0) == source
  {
    var info := Wide(source).info;
    assert info.NumPieces() == 1 && PieceCount(257, 257) == 1;
  }

  lemma EndsCorrupted(t: Setup, s: Node, k: nat, i: nat, start: nat, length: nat)
    requires t.Proper() && t.info.fileSize <= |s.file| && t.info.IsValid(i)
    requires k < |s.conns| && s.conns[k].request.Some? && !Verified(t.info, t.digest, s.file, i)
    requires t.info.Size(i) <= start + length < 0x1_0000
    ensures ReceiveData(t, s, k, i, start, length).log == s.log + [Corrupted(i)]
  {
  }

  // ------------------------------------------------------------------
  // Claims of invalid pieces

  /** Piece selection looks for candidates among all 32 bits and then chooses among the valid ones only:
      it picks a candidate exactly if some candidate is a valid piece, and piece 0 otherwise. */
  lemma ChoiceIsCandidateIff(t: Setup, s: Node, k: nat)
    requires t.Proper() && k < |s.conns| && s.conns[k].request.None?
    requires !IsSeed(t, s.own) && Candidates(t, s, k) != {}
    ensures RequestNext(t, s, k).conns[k].request.Some?
    ensures var i := RequestNext(t, s, k).conns[k].request.value.index;
            if exists j :: j in Candidates(t, s, k) && t.info.IsValid(j)
            then t.info.IsValid(i) && i in s.conns[k].have - s.own && i in Candidates(t, s, k)
            else i == 0 && 0 !in Candidates(t, s, k)
  {
    var candidates := Candidates(t, s, k);
    var i := Rarest(s.conns, candidates, t.info.NumPieces());
    assert RequestNext(t, s, k).conns[k].request == Some(Request(i, 0));
    if exists j :: j in candidates && t.info.IsValid(j) {
      assert IsRarest(s.conns, candidates, t.info.NumPieces(), i);
    } else {
      assert !t.info.IsValid(0) || 0 !in candidates;
    }
  }

  /** A header that claims only bit 31 makes a new node ask its sender for piece 0, which the sender never claimed. */
  lemma StrayBitAsksForZero(t: Setup, file: seq<byte>, src: Address)
    requires t.Proper() && t.info.fileSize <= |file|
    ensures var s := Step(t, Node([], {}, file, []), Receive(src, false, Have(Header(t.infoHash, {31})), 1));
            && |s.conns| == 1 && s.conns[0].addr == src && s.conns[0].have == {31}
            && s.conns[0].request == Some(Request(0, 0))
            && s.log == [Send(Unicast(src), DataRequest(Header(t.infoHash, {}), 0, 0))]
  {
    var s0 := Node([], {}, file, []);
    var (s1, k) := ConnectWith(s0, src, Incoming);
    assert s1.conns == [NewConn(src, Incoming, RETRY_TIMEOUT)] && k == Some(0);
    var s2 := UpdateHave(s1, 0, {31});
    var c := NewConn(src, Incoming, RETRY_TIMEOUT).(have := {31});
    assert {} + {31} == {31 as nat};
    assert s2 == Node([c], {}, file, []);
    StrayCandidate(t, file, c);
  }

  lemma StrayCandidate(t: Setup, file: seq<byte>, c: Conn)
    requires t.Proper() && c.have == {31} && c.request.None?
    ensures var s := RequestNext(t, Node([c], {}, file, []), 0);
            && |s.conns| == 1 && s.conns[0] == c.(request := Some(Request(0, 0)), retry := s.conns[0].retry)
            && s.log == [Send(Unicast(c.addr), DataRequest(Header(t.infoHash, {}), 0, 0))]
  {
    var s := Node([c], {}, file, []);
    assert Pending(s.conns) == {};
    assert Interesting(s, 0) == {31};
    assert 0 in Below(t.info.NumPieces());
    ChoiceIsCandidateIff(t, s, 0);
    var r := Request(0, 0);
    assert Candidates(t, s, 0) == {31};
    assert RequestNext(t, s, 0) == RequestStart(t, s, 0, r);
  }
}
