/** The tracker's swarms and replies (tracker/src/nanotracker/Tracker.java, TrackedTorrent.java, TrackedPeer.java). */
module Tracker {
  import opened Common

  type InfoHash = seq<nat>
  type PeerInfo = nat

  datatype PeerState = Unknown | Started | Stopped | Completed

  datatype AnnounceEvent = Refresh | Start | Stop | Complete

  /** A tracked peer as a value. */
  datatype Entry = Entry(state: PeerState, lastAnnounce: int)

  type Swarm = map<PeerInfo, Entry>
  type Swarms = map<InfoHash, Swarm>

  class TrackedPeer {
    const torrent: TrackedTorrent
    const peerInfo: PeerInfo
    var state: PeerState
    var lastAnnounceTime: int

    constructor (torrent: TrackedTorrent, peerInfo: PeerInfo, joinTime: int)
      ensures this.torrent == torrent && this.peerInfo == peerInfo
      ensures state == Unknown && lastAnnounceTime == joinTime
    {
      this.torrent, this.peerInfo, state, lastAnnounceTime := torrent, peerInfo, Unknown, joinTime;
    }

    method UpdateState(event: AnnounceEvent)
      modifies this`state
      ensures state == StateAfter(old(state), event)
    {
      match event {
        case Refresh =>
        case Start => state := Started;
        case Stop => state := Stopped;
        case Complete => state := Completed;
      }
    }
  }

  function StateAfter(state: PeerState, event: AnnounceEvent): PeerState {
    match event
    case Refresh => state
    case Start => Started
    case Stop => Stopped
    case Complete => Completed
  }

  class TrackedTorrent {
    const infoHash: InfoHash
    var peers: map<PeerInfo, TrackedPeer>

    /** Each key matches its entry, and the entries know this torrent. */
    ghost predicate Valid()
      reads this
    {
      forall p :: p in peers ==> peers[p].peerInfo == p && peers[p].torrent == this
    }

    ghost function View(): Swarm
      reads this, peers.Values
    {
      map p | p in peers :: Entry(peers[p].state, peers[p].lastAnnounceTime)
    }

    twostate lemma Unchanged()
      requires old(Valid()) && unchanged(this) && forall q: TrackedPeer :: q in old(peers.Values) ==> unchanged(q)
      ensures Valid() && peers == old(peers) && View() == old(View())
    {
      assert forall p :: p in peers ==> peers[p] in old(peers.Values);
    }

    constructor (infoHash: InfoHash)
      ensures this.infoHash == infoHash && peers == map[] && Valid()
    {
      this.infoHash, peers := infoHash, map[];
    }

    method AddPeer(peerInfo: PeerInfo, joinTime: int) returns (peer: TrackedPeer)
      requires Valid()
      modifies this
      ensures Valid() && fresh(peer) && peers == old(peers)[peerInfo := peer]
      ensures peer.torrent == this && peer.peerInfo == peerInfo
      ensures peer.state == Unknown && peer.lastAnnounceTime == joinTime
    {
      peer := new TrackedPeer(this, peerInfo, joinTime);
      peers := peers[peerInfo := peer];
    }

    method RemovePeer(peerInfo: PeerInfo)
      requires Valid()
      modifies this
      ensures Valid() && peers == old(peers) - {peerInfo}
    {
      peers := peers - {peerInfo};
    }

    /** Forgets a peer that stops; the object itself keeps its last state. */
    method Leave(peerInfo: PeerInfo, now: int)
      requires Valid()
      modifies this, peers.Values
      ensures Valid() && View() == old(View()) - {peerInfo}
      ensures peers.Values <= old(peers.Values)
    {
      if peerInfo in peers {
        var peer := peers[peerInfo];
        peer.lastAnnounceTime := now;
        peer.UpdateState(Stop);
      }
      RemovePeer(peerInfo);
      assert forall q :: q in peers ==> peers[q] == old(peers)[q];
    }

    /** Starts tracking the peer if needed and records its announce. */
    method Touch(event: AnnounceEvent, peerInfo: PeerInfo, now: int) returns (peer: TrackedPeer)
      requires Valid()
      modifies this, peers.Values
      ensures Valid() && peerInfo in peers && peers[peerInfo] == peer
      ensures View() == Touched(old(View()), event, peerInfo, now)
      ensures peers.Values <= old(peers.Values) + {peer} && (peer in old(peers.Values) || fresh(peer))
    {
      if peerInfo in peers {
        peer := peers[peerInfo];
      } else {
        peer := AddPeer(peerInfo, now);
      }
      peer.lastAnnounceTime := now;
      peer.UpdateState(event);
      assert forall q :: q in peers && q != peerInfo ==> q in old(peers) && peers[q] == old(peers)[q];
    }

    /** Drops every peer last heard of before minTime. */
    method Purge(minTime: int)
      requires Valid()
      modifies this
      ensures Valid() && View() == Purged(old(View()), minTime)
      ensures peers.Values <= old(peers.Values)
    {
      var all := peers;
      var rest := peers.Keys;
      while rest != {}
        invariant Valid() && rest <= all.Keys
        invariant forall p :: p in peers ==> p in all && peers[p] == all[p]
        invariant forall p :: p in all ==> (p in peers <==> p in rest || all[p].lastAnnounceTime >= minTime)
        decreases |rest|
      {
        var p :| p in rest;
        if all[p].lastAnnounceTime < minTime {
          RemovePeer(p);
        }
        rest := rest - {p};
      }
      forall q | q in peers.Values ensures q in old(peers.Values) {
        var p :| p in peers && peers[p] == q;
        assert all[p] == q;
      }
    }
  }

  ghost function StateOf(swarm: Swarm, peerInfo: PeerInfo): PeerState {
    if peerInfo in swarm then swarm[peerInfo].state else Unknown
  }

  /** The swarm after an announce that keeps the peer. */
  ghost function Touched(swarm: Swarm, event: AnnounceEvent, peerInfo: PeerInfo, now: int): Swarm {
    swarm[peerInfo := Entry(StateAfter(StateOf(swarm, peerInfo), event), now)]
  }

  ghost function Purged(swarm: Swarm, minTime: int): Swarm {
    map p | p in swarm && swarm[p].lastAnnounce >= minTime :: swarm[p]
  }

  /** A list of all entries in any order. */
  method Shuffled(peers: map<PeerInfo, TrackedPeer>) returns (candidates: seq<TrackedPeer>)
    requires forall p :: p in peers ==> peers[p].peerInfo == p
    ensures forall i :: 0 <= i < |candidates| ==>
              candidates[i].peerInfo in peers && candidates[i] == peers[candidates[i].peerInfo]
    ensures DistinctInfos(candidates)
    ensures |candidates| == |peers|
  {
    candidates := [];
    var rest := peers.Keys;
    while rest != {}
      invariant rest <= peers.Keys && |candidates| + |rest| == |peers|
      invariant forall i :: 0 <= i < |candidates| ==>
                  && candidates[i].peerInfo in peers && candidates[i].peerInfo !in rest
                  && candidates[i] == peers[candidates[i].peerInfo]
      invariant DistinctInfos(candidates)
      decreases |rest|
    {
      var p :| p in rest;
      candidates := candidates + [peers[p]];
      rest := rest - {p};
    }
  }

  /** The infos of the first n candidates that are not stopped and not the peer itself. */
  ghost function Eligible(candidates: seq<TrackedPeer>, n: nat, peer: PeerInfo): seq<PeerInfo>
    requires n <= |candidates|
    reads candidates
  {
    if n == 0 then []
    else
      var candidate := candidates[n - 1];
      Eligible(candidates, n - 1, peer)
      + if candidate.state == Stopped || candidate.peerInfo == peer then [] else [candidate.peerInfo]
  }

  lemma {:induction false} EligibleGrows(candidates: seq<TrackedPeer>, i: nat, n: nat, peer: PeerInfo)
    requires i <= n <= |candidates|
    ensures Eligible(candidates, i, peer) <= Eligible(candidates, n, peer)
    decreases n
  {
    if i < n {
      EligibleGrows(candidates, i, n - 1, peer);
    }
  }

  /** Distinct candidates of which none is stopped are all eligible, the peer itself aside. */
  lemma {:induction false} EligibleCount(candidates: seq<TrackedPeer>, n: nat, peer: PeerInfo)
    requires n <= |candidates| && DistinctInfos(candidates)
    requires forall i :: 0 <= i < |candidates| ==> candidates[i].state != Stopped
    ensures Distinct(Eligible(candidates, n, peer)) && peer !in Eligible(candidates, n, peer)
    ensures forall p :: p in Eligible(candidates, n, peer) ==> exists i :: 0 <= i < n && candidates[i].peerInfo == p
    ensures |Eligible(candidates, n, peer)| == if Lists(candidates, n, peer) then n - 1 else n
  {
    if n > 0 {
      EligibleCount(candidates, n - 1, peer);
      assert candidates[n - 1].peerInfo !in Eligible(candidates, n - 1, peer);
      assert Lists(candidates, n, peer) <==> Lists(candidates, n - 1, peer) || candidates[n - 1].peerInfo == peer;
    }
  }

  method CollectPeers(peer: PeerInfo, maxPeers: int, candidates: seq<TrackedPeer>) returns (others: seq<PeerInfo>)
    ensures others <= Eligible(candidates, |candidates|, peer)
    ensures |others| == if maxPeers <= 0 then 0 else Min(maxPeers, |Eligible(candidates, |candidates|, peer)|)
  {
    others := [];
    if maxPeers <= 0 {
      return;
    }
    for i := 0 to |candidates|
      invariant others == Eligible(candidates, i, peer) && |others| < maxPeers
    {
      var candidate := candidates[i];
      EligibleGrows(candidates, i + 1, |candidates|, peer);
      if candidate.state == Stopped || candidate.peerInfo == peer {
        continue;
      }
      others := others + [candidate.peerInfo];
      if |others| == maxPeers {
        break;
      }
    }
  }

  ghost predicate DistinctInfos(candidates: seq<TrackedPeer>) {
    forall i, j :: 0 <= i < j < |candidates| ==> candidates[i].peerInfo != candidates[j].peerInfo
  }

  ghost predicate Lists(candidates: seq<TrackedPeer>, n: nat, peer: PeerInfo)
    requires n <= |candidates|
  {
    exists i :: 0 <= i < n && candidates[i].peerInfo == peer
  }

  ghost predicate Distinct(s: seq<PeerInfo>) {
    forall i, j :: 0 <= i < j < |s| ==> s[i] != s[j]
  }

  class TrackerService {
    var torrents: map<InfoHash, TrackedTorrent>
    ghost var repr: set<object>

    ghost predicate Valid()
      reads this, repr
    {
      this !in repr
      && forall h :: h in torrents ==>
        torrents[h] in repr && torrents[h].infoHash == h && torrents[h].Valid() && torrents[h].peers.Values <= repr
    }

    ghost function View(): Swarms
      requires Valid()
      reads this, repr
    {
      map h | h in torrents :: torrents[h].View()
    }

    constructor ()
      ensures Valid() && View() == map[] && fresh(repr)
    {
      torrents, repr := map[], {};
    }

    /** The torrent with this hash, tracked from now on if it was not. */
    method GetOrTrack(infoHash: InfoHash) returns (torrent: TrackedTorrent)
      requires Valid()
      modifies this
      ensures Valid() && fresh(repr - old(repr))
      ensures infoHash in torrents && torrents[infoHash] == torrent
      ensures View() == old(View())[infoHash := SwarmOf(old(View()), infoHash)]
    {
      if infoHash in torrents {
        torrent := torrents[infoHash];
      } else {
        torrent := new TrackedTorrent(infoHash);
        torrents, repr := torrents[infoHash := torrent], repr + {torrent};
      }
    }

    /** Changing one torrent and its peers leaves the other torrents as they were. */
    twostate lemma OthersUnchanged(torrent: TrackedTorrent)
      requires old(Valid()) && torrents == old(torrents) && repr >= old(repr) && this !in repr
      requires torrent.infoHash in torrents && torrents[torrent.infoHash] == torrent
      requires forall o: object :: o in old(repr) && o != torrent && o !in old(torrent.peers.Values) ==> unchanged(o)
      requires torrent.Valid() && torrent.peers.Values <= repr
      ensures Valid() && View() == old(View())[torrent.infoHash := torrent.View()]
    {
      forall h | h in torrents && h != torrent.infoHash
        ensures torrents[h].Valid() && torrents[h].peers == old(torrents[h].peers)
                && torrents[h].View() == old(torrents[h].View())
      {
        torrents[h].Unchanged();
      }
    }

    method LeaveSwarm(torrent: TrackedTorrent, peerInfo: PeerInfo, now: int)
      requires Valid() && torrent.infoHash in torrents && torrents[torrent.infoHash] == torrent
      modifies torrent, torrent.peers.Values
      ensures Valid() && View() == old(View())[torrent.infoHash := old(View())[torrent.infoHash] - {peerInfo}]
    {
      torrent.Leave(peerInfo, now);
      OthersUnchanged(torrent);
    }

    method TouchSwarm(torrent: TrackedTorrent, event: AnnounceEvent, peerInfo: PeerInfo, now: int)
        returns (peer: TrackedPeer)
      requires Valid() && torrent.infoHash in torrents && torrents[torrent.infoHash] == torrent
      modifies this`repr, torrent, torrent.peers.Values
      ensures Valid() && fresh(repr - old(repr))
      ensures peer.torrent == torrent && peer.peerInfo == peerInfo && peerInfo in torrent.peers
      ensures View() == old(View())[torrent.infoHash := Touched(old(View())[torrent.infoHash], event, peerInfo, now)]
    {
      peer := torrent.Touch(event, peerInfo, now);
      repr := repr + {peer};
      OthersUnchanged(torrent);
    }

    /** Records an announce; peer is the sender's entry if it is still tracked. */
    method Record(infoHash: InfoHash, event: AnnounceEvent, peerInfo: PeerInfo, now: int) returns (peer: TrackedPeer?)
      requires Valid() && NoneStopped(View())
      modifies this, repr
      ensures Valid() && NoneStopped(View()) && fresh(repr - old(repr))
      ensures View() == Announced(old(View()), infoHash, event, peerInfo, now)
      ensures peer == null <==> event.Stop?
      ensures peer != null ==>
              infoHash in torrents && peer.torrent == torrents[infoHash]
              && peer.peerInfo == peerInfo && peerInfo in peer.torrent.peers
    {
      ghost var before := View();
      var torrent := GetOrTrack(infoHash);
      StaysUnstopped(before, View(), infoHash, event, peerInfo, now);
      if event.Stop? {
        LeaveSwarm(torrent, peerInfo, now);
        peer := null;
      } else {
        peer := TouchSwarm(torrent, event, peerInfo, now);
      }
    }

    /** Records an announce and answers with some other peers, or with none to a peer that stops. */
    method HandleAnnounce(infoHash: InfoHash, numWant: int, event: AnnounceEvent, peerInfo: PeerInfo, now: int)
        returns (reply: seq<PeerInfo>)
      requires Valid() && NoneStopped(View())
      modifies this, repr
      ensures Valid() && NoneStopped(View()) && fresh(repr - old(repr))
      ensures View() == Announced(old(View()), infoHash, event, peerInfo, now)
      ensures event.Stop? ==> reply == []
      ensures !event.Stop? ==> GoodReply(View()[infoHash], peerInfo, numWant, reply)
    {
      var peer := Record(infoHash, event, peerInfo, now);
      if peer == null {
        return [];
      }
      assert View()[infoHash] == peer.torrent.View();
      reply := OtherPeers(peer, numWant);
    }

    method OtherPeers(peer: TrackedPeer, maxPeers: int) returns (reply: seq<PeerInfo>)
      requires peer.torrent.Valid() && peer.peerInfo in peer.torrent.peers
      requires forall p :: p in peer.torrent.View() ==> peer.torrent.View()[p].state != Stopped
      ensures GoodReply(peer.torrent.View(), peer.peerInfo, maxPeers, reply)
    {
      if maxPeers <= 0 {
        return [];
      }
      var candidates := Shuffled(peer.torrent.peers);
      reply := CollectPeers(peer.peerInfo, maxPeers, candidates);
      ReplyIsGood(peer, maxPeers, candidates, reply);
    }

    method PurgeSwarm(infoHash: InfoHash, minTime: int)
      requires Valid() && infoHash in torrents
      modifies torrents[infoHash]
      ensures Valid() && View() == old(View())[infoHash := Purged(old(View())[infoHash], minTime)]
    {
      torrents[infoHash].Purge(minTime);
      OthersUnchanged(torrents[infoHash]);
    }

    /** Purges every torrent. */
    method PurgePeers(minTime: int)
      requires Valid() && NoneStopped(View())
      modifies repr
      ensures Valid() && NoneStopped(View())
      ensures View() == PurgedAll(old(View()), minTime)
    {
      ghost var before := View();
      var rest := torrents.Keys;
      while rest != {}
        invariant Valid() && torrents == old(torrents) && repr == old(repr) && rest <= torrents.Keys
        invariant PurgedBut(before, View(), rest, minTime)
        decreases |rest|
      {
        var h :| h in rest;
        ghost var current := View();
        PurgeSwarm(h, minTime);
        PurgedButFewer(before, current, rest, h, minTime);
        rest := rest - {h};
      }
      assert View() == PurgedAll(before, minTime);
    }
  }

  /** Every swarm but the rest has been purged. */
  ghost predicate PurgedBut(before: Swarms, current: Swarms, rest: set<InfoHash>, minTime: int) {
    && current.Keys == before.Keys
    && forall h :: h in before ==> current[h] == if h in rest then before[h] else Purged(before[h], minTime)
  }

  lemma PurgedButFewer(before: Swarms, current: Swarms, rest: set<InfoHash>, h: InfoHash, minTime: int)
    requires PurgedBut(before, current, rest, minTime) && h in rest && h in current
    ensures PurgedBut(before, current[h := Purged(current[h], minTime)], rest - {h}, minTime)
  {
  }

  /** The first eligible peers of any shuffle of the swarm make a good reply. */
  lemma ReplyIsGood(peer: TrackedPeer, maxPeers: int, candidates: seq<TrackedPeer>, reply: seq<PeerInfo>)
    requires peer.torrent.Valid() && peer.peerInfo in peer.torrent.peers
    requires forall p :: p in peer.torrent.View() ==> peer.torrent.View()[p].state != Stopped
    requires forall i :: 0 <= i < |candidates| ==>
               candidates[i].peerInfo in peer.torrent.peers
               && candidates[i] == peer.torrent.peers[candidates[i].peerInfo]
    requires DistinctInfos(candidates) && |candidates| == |peer.torrent.peers|
    requires reply <= Eligible(candidates, |candidates|, peer.peerInfo) && maxPeers > 0
    requires |reply| == Min(maxPeers, |Eligible(candidates, |candidates|, peer.peerInfo)|)
    ensures GoodReply(peer.torrent.View(), peer.peerInfo, maxPeers, reply)
  {
    var swarm := peer.torrent.View();
    var eligible := Eligible(candidates, |candidates|, peer.peerInfo);
    ListsAll(peer.torrent.peers, candidates, peer.peerInfo);
    assert forall i :: 0 <= i < |candidates| ==> candidates[i].peerInfo in swarm;
    EligibleCount(candidates, |candidates|, peer.peerInfo);
    assert swarm.Keys == peer.torrent.peers.Keys;
    assert forall p :: p in reply ==> p in eligible;
    assert Distinct(reply);
  }

  lemma ListsAll(peers: map<PeerInfo, TrackedPeer>, candidates: seq<TrackedPeer>, p: PeerInfo)
    requires forall q :: q in peers ==> peers[q].peerInfo == q
    requires forall i :: 0 <= i < |candidates| ==>
               candidates[i].peerInfo in peers && candidates[i] == peers[candidates[i].peerInfo]
    requires DistinctInfos(candidates)
    requires |candidates| == |peers| && p in peers
    ensures Lists(candidates, |candidates|, p)
  {
    var listed := set i | 0 <= i < |candidates| :: candidates[i].peerInfo;
    DistinctCount(candidates, |candidates|);
    assert listed <= peers.Keys;
    if p !in listed {
      assert listed <= peers.Keys - {p};
      SubsetSize(listed, peers.Keys - {p});
    }
  }

  lemma {:induction false} DistinctCount(candidates: seq<TrackedPeer>, n: nat)
    requires n <= |candidates|
    requires DistinctInfos(candidates)
    ensures |set i | 0 <= i < n :: candidates[i].peerInfo| == n
  {
    var listed := set i | 0 <= i < n :: candidates[i].peerInfo;
    if n > 0 {
      DistinctCount(candidates, n - 1);
      var fewer := set i | 0 <= i < n - 1 :: candidates[i].peerInfo;
      assert listed == fewer + {candidates[n - 1].peerInfo};
    }
  }

  /** No tracked peer is stopped. */
  ghost predicate NoneStopped(swarms: Swarms) {
    forall h, p :: h in swarms && p in swarms[h] ==> swarms[h][p].state != Stopped
  }

  ghost function SwarmOf(swarms: Swarms, infoHash: InfoHash): Swarm {
    if infoHash in swarms then swarms[infoHash] else map[]
  }

  /** The swarms after an announce. */
  ghost function Announced(swarms: Swarms, infoHash: InfoHash, event: AnnounceEvent, peerInfo: PeerInfo,
                          now: int): Swarms {
    var swarm := SwarmOf(swarms, infoHash);
    if event.Stop? then swarms[infoHash := swarm - {peerInfo}]
    else swarms[infoHash := Touched(swarm, event, peerInfo, now)]
  }

  /** Tracking the torrent and then updating its swarm is one announce, which leaves no peer stopped. */
  lemma StaysUnstopped(before: Swarms, tracked: Swarms, infoHash: InfoHash, event: AnnounceEvent, peerInfo: PeerInfo,
                       now: int)
    requires NoneStopped(before) && tracked == before[infoHash := SwarmOf(before, infoHash)]
    ensures NoneStopped(Announced(before, infoHash, event, peerInfo, now))
    ensures event.Stop? ==>
              tracked[infoHash := tracked[infoHash] - {peerInfo}]
              == Announced(before, infoHash, event, peerInfo, now)
    ensures !event.Stop? ==>
      tracked[infoHash := Touched(tracked[infoHash], event, peerInfo, now)]
        == Announced(before, infoHash, event, peerInfo, now)
  {
  }

  ghost function PurgedAll(swarms: Swarms, minTime: int): Swarms {
    map h | h in swarms :: Purged(swarms[h], minTime)
  }

  /** Distinct tracked peers without the requester, as many as wanted or as there are. */
  ghost predicate GoodReply(swarm: Swarm, peer: PeerInfo, numWant: int, reply: seq<PeerInfo>) {
    && Distinct(reply) && peer !in reply
    && (forall p :: p in reply ==> p in swarm)
    && |reply| == if numWant <= 0 then 0 else Min(numWant, |swarm| - 1)
  }

  // ---- Whole runs ----

  datatype Request =
    | Announce(infoHash: InfoHash, numWant: int, event: AnnounceEvent, peerInfo: PeerInfo, now: int)
    | Purge(minTime: int)

  ghost function After(requests: seq<Request>): Swarms {
    if requests == [] then map[]
    else
      var before := After(requests[..|requests| - 1]);
      match requests[|requests| - 1]
      case Announce(infoHash, _, event, peerInfo, now) => Announced(before, infoHash, event, peerInfo, now)
      case Purge(minTime) => PurgedAll(before, minTime)
  }

  /**
    * What one peer's own announces say of it: it is known from its first announce until it stops
    * or a purge finds it silent for too long, with the state of its last event that has one.
    */
  ghost function Known(requests: seq<Request>, infoHash: InfoHash, peerInfo: PeerInfo): Option<Entry> {
    if requests == [] then None
    else
      var before := Known(requests[..|requests| - 1], infoHash, peerInfo);
      match requests[|requests| - 1]
      case Announce(h, _, event, p, now) =>
        if h != infoHash || p != peerInfo then before
        else if event == Stop then None
        else if event == Start then Some(Entry(Started, now))
        else if event == Complete then Some(Entry(Completed, now))
        else Some(Entry(if before.Some? then before.value.state else Unknown, now))
      case Purge(minTime) => if before.Some? && before.value.lastAnnounce < minTime then None else before
  }

  /** The swarms hold exactly the known peers, whatever the other peers announced in between. */
  lemma {:induction false} SwarmsAreHistory(requests: seq<Request>, infoHash: InfoHash, peerInfo: PeerInfo)
    ensures var swarm := SwarmOf(After(requests), infoHash);
      Known(requests, infoHash, peerInfo) == if peerInfo in swarm then Some(swarm[peerInfo]) else None
  {
    if requests != [] {
      SwarmsAreHistory(requests[..|requests| - 1], infoHash, peerInfo);
    }
  }

  /** In every run no tracked peer is stopped. */
  lemma {:induction false} NeverStopped(requests: seq<Request>)
    ensures NoneStopped(After(requests))
  {
    if requests != [] {
      var before := requests[..|requests| - 1];
      NeverStopped(before);
      match requests[|requests| - 1] {
        case Announce(infoHash, _, event, peerInfo, now) =>
          var swarms := After(before);
          StaysUnstopped(swarms, swarms[infoHash := SwarmOf(swarms, infoHash)], infoHash, event, peerInfo, now);
        case Purge(minTime) =>
      }
    }
  }

  /** The reply to the last of these requests. */
  ghost predicate Answers(requests: seq<Request>, reply: seq<PeerInfo>)
    requires requests != []
  {
    match requests[|requests| - 1]
    case Announce(infoHash, numWant, event, peerInfo, _) =>
      if event == Stop then reply == [] else GoodReply(SwarmOf(After(requests), infoHash), peerInfo, numWant, reply)
    case Purge(_) => reply == []
  }

  ghost predicate AllAnswered(requests: seq<Request>, replies: seq<seq<PeerInfo>>)
    requires |replies| <= |requests|
  {
    forall i :: 0 <= i < |replies| ==> Answers(requests[..i + 1], replies[i])
  }

  lemma AnsweredNext(requests: seq<Request>, replies: seq<seq<PeerInfo>>, reply: seq<PeerInfo>)
    requires |replies| < |requests| && AllAnswered(requests, replies)
    requires Answers(requests[..|replies| + 1], reply)
    ensures AllAnswered(requests, replies + [reply])
  {
  }

  /** A tracker serves any sequence of announces and purges: it ends with the swarms that sequence leaves,
      and every announce has been answered with peers of its swarm at that moment. */
  method Serve(requests: seq<Request>) returns (service: TrackerService, replies: seq<seq<PeerInfo>>)
    ensures fresh(service) && service.Valid() && service.View() == After(requests)
    ensures |replies| == |requests| && AllAnswered(requests, replies)
  {
    service := new TrackerService();
    replies := [];
    for i := 0 to |requests|
      invariant fresh(service) && fresh(service.repr) && service.Valid() && |replies| == i
      invariant service.View() == After(requests[..i])
      invariant AllAnswered(requests, replies)
    {
      var reply := ServeOne(service, requests, i);
      AnsweredNext(requests, replies, reply);
      replies := replies + [reply];
    }
    assert requests[..|requests|] == requests;
  }

  method ServeOne(service: TrackerService, requests: seq<Request>, i: nat) returns (reply: seq<PeerInfo>)
    requires i < |requests|
    requires service.Valid() && service.View() == After(requests[..i])
    modifies service, service.repr
    ensures service.Valid() && fresh(service.repr - old(service.repr))
    ensures service.View() == After(requests[..i + 1])
    ensures Answers(requests[..i + 1], reply)
  {
    assert requests[..i + 1][..i] == requests[..i];
    NeverStopped(requests[..i]);
    reply := [];
    match requests[i] {
      case Announce(infoHash, numWant, event, peerInfo, now) =>
        reply := service.HandleAnnounce(infoHash, numWant, event, peerInfo, now);
      case Purge(minTime) => service.PurgePeers(minTime);
    }
  }
}
