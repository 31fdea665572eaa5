/** What every step of a node keeps whatever it receives: complete pieces verify and stay as they are. */
module PeerIntegrity {
  import opened Bitset
  import opened Sha1
  import opened Torrent
  import opened PieceStore
  import opened PeerSpec

  /** Every complete piece is valid and its stored bytes have the expected digest. */
  ghost predicate Sound(t: Setup, s: Node) {
    && t.Proper() && t.info.fileSize <= |s.file|
    && s.own <= Below(t.info.NumPieces())
    && (forall i :: i in s.own ==> Verified(t.info, t.digest, s.file, i))
  }

  /** No complete piece is lost or overwritten. */
  ghost predicate Keeps(t: Setup, s: Node, s': Node)
    requires Sound(t, s)
  {
    && s.own <= s'.own && |s'.file| == |s.file|
    && (forall i :: i in s.own ==> Piece(t.info, s'.file, i) == Piece(t.info, s.file, i))
  }

  ghost predicate SameStore(s: Node, s': Node) {
    s'.own == s.own && s'.file == s.file
  }

  /** Data from anyone, for any piece, at any offset. */
  lemma HandleDataReplyKeeps(t: Setup, s: Node, src: Address, i: nat, start: nat, data: seq<byte>)
    requires Sound(t, s)
    ensures var s' := HandleDataReply(t, s, src, i, start, data); Sound(t, s') && Keeps(t, s, s')
  {
    if t.info.IsValid(i) {
      var (s1, k) := DataReceiver(s, src, i, start, |data|);
      if k.Some? {
        var s2 := s1.(file := AfterWrite(t.info, s1.file, i, start, data));
        forall j | j in s.own ensures Piece(t.info, s2.file, j) == Piece(t.info, s.file, j) {
          WriteStaysInside(t.info, s.file, i, start, data, j);
        }
        var written := WriteResult(t.info, i, start, |data|);
        if written > 0 {
          ReceiveDataKeeps(t, s2, k.value, i, start, written);
        }
      }
    }
  }

  lemma ReceiveDataKeeps(t: Setup, s: Node, k: nat, i: nat, start: nat, length: nat)
    requires Sound(t, s) && t.info.IsValid(i) && i !in s.own
    requires k < |s.conns| && s.conns[k].request.Some?
    ensures var s' := ReceiveData(t, s, k, i, start, length);
            Sound(t, s') && s'.file == s.file && s.own <= s'.own <= s.own + {i}
  {
  }

  lemma RespondStore(t: Setup, s: Node, k: nat, src: Address, m: Message<set<nat>>, read: nat)
    requires t.Proper() && t.info.fileSize <= |s.file| && k < |s.conns|
    ensures SameStore(s, Respond(t, s, k, src, m, read))
  {
  }

  lemma PollConnStore(t: Setup, s: Node, k: nat, timers: Timers)
    requires k < |s.conns|
    ensures SameStore(s, PollConn(t, s, k, timers))
  {
  }

  lemma {:induction false} PollFromStore(t: Setup, s: Node, k: nat, timers: Timers)
    requires k <= |s.conns|
    ensures SameStore(s, PollFrom(t, s, k, timers))
    decreases |s.conns| - k
  {
    if k < |s.conns| {
      PollConnStore(t, s, k, timers);
      PollFromStore(t, PollConn(t, s, k, timers), if s.conns[k].addr in timers.silent then k else k + 1, timers);
    }
  }

  /** One step, on any event at all. */
  lemma StepKeeps(t: Setup, s: Node, e: Event)
    requires Sound(t, s)
    ensures Sound(t, Step(t, s, e)) && Keeps(t, s, Step(t, s, e))
  {
    match e {
      case Receive(src, toAll, m, read) =>
        if m.header.infoHash == t.infoHash && !m.Close? {
          var s1 := if m.DataReply? then HandleDataReply(t, s, src, m.index, m.start, m.data) else s;
          if m.DataReply? {
            HandleDataReplyKeeps(t, s, src, m.index, m.start, m.data);
          }
          var (s2, k) := ConnectWith(s1, src, Incoming);
          if k.Some? {
            RespondStore(t, UpdateHave(s2, k.value, m.header.have), k.value, src, m, read);
          }
        }
      case WakeUp(timers) => PollFromStore(t, s, 0, timers);
      case Join(_) =>
    }
  }

  /** The state after a sequence of events. */
  ghost function Steps(t: Setup, s: Node, events: seq<Event>): (r: Node)
    requires t.Proper() && t.info.fileSize <= |s.file| && Sound(t, s)
    ensures |r.file| == |s.file| && Sound(t, r)
    decreases |events|
  {
    if events == [] then s
    else
      StepKeeps(t, s, events[0]);
      Steps(t, Step(t, s, events[0]), events[1..])
  }

  /** Over any run, whatever arrives: complete pieces verify, none is lost, none is overwritten. */
  lemma {:induction false} RunKeeps(t: Setup, s: Node, events: seq<Event>)
    requires Sound(t, s)
    ensures Sound(t, Steps(t, s, events)) && Keeps(t, s, Steps(t, s, events))
    decreases |events|
  {
    if events != [] {
      StepKeeps(t, s, events[0]);
      RunKeeps(t, Step(t, s, events[0]), events[1..]);
    }
  }

  /** A node starts sound, since its first piece set is the set of pieces that verify. */
  lemma StartsSound(t: Setup, s: Node)
    requires t.Proper() && t.info.fileSize <= |s.file|
    requires VerifiedBelow(t.info, t.digest, s.file, t.info.NumPieces(), s.own)
    ensures Sound(t, s)
  {
  }
}
