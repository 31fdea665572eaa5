/** A node from its first start through any run: the handlers of module Peer on whatever arrives. */
module PeerRun {
  import opened Words
  import opened Sha1
  import opened Torrent
  import opened Storage
  import opened PieceStore
  import opened PeerSpec
  import opened PeerView
  import opened PeerIntegrity
  import opened PeerRequests
  import opened PeerRetry
  import opened PeerLog
  import opened Peer

  datatype Input =
    | Datagram(src: Address, toAll: bool, message: Message<uint32>)
    | Timer(timers: Timers)
    | Found(peer: Address)

  /** The step an input causes; read is what a short read of the file yields on the way. */
  ghost function EventOf(input: Input, read: nat): Event {
    match input
    case Datagram(src, toAll, message) => Receive(src, toAll, MessageOf(message), read)
    case Timer(timers) => WakeUp(timers)
    case Found(peer) => Join(peer)
  }

  /** One handler runs to its end. It is one step of the node, whatever has been sent before,
      and it spoils no complete piece. */
  method Handle(node: Peer, input: Input) returns (ghost read: nat)
    requires node.Valid() && Sound(node.SetupOf(), node.View())
    modifies node, node.slots, node.used, node.selector.counts, node.store, node.store.file`pos, node.store.file.data
    ensures node.Valid() && node.View() == Step(node.SetupOf(), old(node.View()), EventOf(input, read))
    ensures node.View() == Before(old(node.View()).log,
                                  Step(node.SetupOf(), old(node.View()).(log := []), EventOf(input, read)))
    ensures Sound(node.SetupOf(), node.View()) && Keeps(node.SetupOf(), old(node.View()), node.View())
  {
    ghost var before := node.View();
    read := 0;
    match input {
      case Datagram(src, toAll, message) => read := node.OnMessage(src, toAll, message);
      case Timer(timers) => node.OnWakeUp(timers);
      case Found(peer) => node.OnJoin(peer);
    }
    StepKeeps(node.SetupOf(), before, EventOf(input, read));
    StepFromEmptyLog(node.SetupOf(), before, EventOf(input, read));
  }

  /** Only valid pieces are claimed. */
  ghost predicate AllClaimsValid(t: Setup, inputs: seq<Input>) {
    forall x :: x in inputs ==> ClaimsOnlyValid(t, EventOf(x, 0))
  }

  /** Replies carry data of claimed pieces. */
  ghost predicate AllRepliesClaimed(t: Setup, inputs: seq<Input>) {
    forall x :: x in inputs ==> RepliesClaimed(t, EventOf(x, 0))
  }

  ghost predicate AllCarryData(inputs: seq<Input>) {
    forall x :: x in inputs ==> CarriesData(EventOf(x, 0))
  }

  /** What is kept of the outstanding requests, given what the inputs keep to. */
  ghost predicate RequestsKept(t: Setup, s: Node, inputs: seq<Input>) {
    && (AllClaimsValid(t, inputs) ==> Tidy(t, Anything(t), s))
    && (AllClaimsValid(t, inputs) && AllRepliesClaimed(t, inputs) ==> Tidy(t, CLAIMED, s))
    && (AllCarryData(inputs) && t.info.fileSize > 0 ==> AllRetrying(s))
  }

  lemma StepKeepsRequests(t: Setup, s: Node, inputs: seq<Input>, x: Input, read: nat)
    requires t.Proper() && t.info.fileSize <= |s.file| && RequestsKept(t, s, inputs) && x in inputs
    ensures RequestsKept(t, Step(t, s, EventOf(x, read)), inputs)
  {
    var e := EventOf(x, read);
    if AllClaimsValid(t, inputs) {
      assert ClaimsOnlyValid(t, EventOf(x, 0));
      StepTidy(t, Anything(t), s, e);
      if AllRepliesClaimed(t, inputs) {
        assert RepliesClaimed(t, EventOf(x, 0));
        StepTidy(t, CLAIMED, s, e);
      }
    }
    if AllCarryData(inputs) && t.info.fileSize > 0 {
      assert CarriesData(EventOf(x, 0));
      StepRetrying(t, s, e);
    }
  }

  lemma RequestsAre(t: Setup, s: Node, inputs: seq<Input>)
    requires RequestsKept(t, s, inputs)
    ensures AllClaimsValid(t, inputs) ==> RequestsSound(t, s)
    ensures AllClaimsValid(t, inputs) && AllRepliesClaimed(t, inputs) ==> RequestsClaimed(s)
    ensures AllCarryData(inputs) && t.info.fileSize > 0 ==> AllRetrying(s)
  {
    if AllClaimsValid(t, inputs) {
      assert forall k :: 0 <= k < |s.conns| ==> ConnTidy(t, Anything(t), s.own, s.conns[k]);
      if AllRepliesClaimed(t, inputs) {
        assert forall k :: 0 <= k < |s.conns| ==> ConnTidy(t, CLAIMED, s.own, s.conns[k]);
      }
    }
  }

  /** A node that starts on a file and then handles any inputs. At the end its complete pieces verify, and the pieces
      that verified at the start are complete and unchanged. Its requests are for valid missing pieces, two for one
      piece only in the end-game, if only valid pieces have been claimed; they are for claimed pieces if replies carry
      data of claimed pieces; and they are being retried if replies carry data and the file is not empty. */
  method Run(info: Info, file: File, infoHash: Sha1Digest, maxData: nat, inputs: seq<Input>) returns (node: Peer)
    requires info.Proper() && info.fileSize <= file.data.Length
    modifies file`pos, file.data
    ensures node.Valid() && node.store.file == file && node.SetupOf() == Setup(info, infoHash, SHA1, maxData)
    ensures forall i :: i in node.store.Own() ==> info.IsValid(i) && Verified(info, SHA1, file.data[..], i)
    ensures forall i :: info.IsValid(i) && Verified(info, SHA1, old(file.data[..]), i) ==>
              i in node.store.Own() && Piece(info, file.data[..], i) == Piece(info, old(file.data[..]), i)
    ensures AllClaimsValid(node.SetupOf(), inputs) ==> RequestsSound(node.SetupOf(), node.View())
    ensures AllClaimsValid(node.SetupOf(), inputs) && AllRepliesClaimed(node.SetupOf(), inputs) ==>
              RequestsClaimed(node.View())
    ensures AllCarryData(inputs) && info.fileSize > 0 ==> AllRetrying(node.View())
  {
    var store := new Store(info, file);
    node := new Peer(store, infoHash, maxData);
    ghost var start := node.View();
    StartsSound(node.SetupOf(), start);
    for k := 0 to |inputs|
      invariant node.store == store && fresh(store) && fresh(node)
      invariant fresh(node.slots) && fresh(node.used) && fresh(node.selector) && fresh(node.selector.counts)
      invariant node.Valid() && Sound(node.SetupOf(), node.View()) && Keeps(node.SetupOf(), start, node.View())
      invariant RequestsKept(node.SetupOf(), node.View(), inputs)
    {
      ghost var before := node.View();
      ghost var read := Handle(node, inputs[k]);
      StepKeepsRequests(node.SetupOf(), before, inputs, inputs[k], read);
    }
    RequestsAre(node.SetupOf(), node.View(), inputs);
  }
}
