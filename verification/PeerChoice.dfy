/** Which piece a node asks for next, told from its list of connections alone (peer/piece-select.c, peer/peer.c). */
module PeerChoice {
  import opened Bitset
  import opened Common
  import opened Sha1
  import opened Torrent
  import opened PeerSpec
  import Retry

  ghost predicate NobodyAsks(conns: seq<Conn>, i: nat) {
    forall k :: 0 <= k < |conns| && conns[k].request.Some? ==> conns[k].request.value.index != i
  }

  /** Piece i is missing, the remote has it, and nobody is asked for it or four fifths of the pieces are complete. */
  ghost predicate MayAsk(t: Setup, s: Node, k: nat, i: nat)
    requires k < |s.conns|
  {
    i in s.conns[k].have && i !in s.own
    && (NobodyAsks(s.conns, i) || 5 * |s.own| >= 4 * |t.info.hashes|)
  }

  /** The connections whose remotes have piece i. */
  ghost function Holders(conns: seq<Conn>, i: nat): set<nat> {
    set k: nat | k < |conns| && i in conns[k].have
  }

  lemma {:induction false} RarityIsHolders(conns: seq<Conn>, i: nat)
    ensures Rarity(conns, i) == |Holders(conns, i)|
  {
    if conns == [] {
      assert Holders(conns, i) == {};
    } else {
      RarityIsHolders(conns[1..], i);
      HoldersStep(conns, i);
    }
  }

  lemma HoldersStep(conns: seq<Conn>, i: nat)
    requires conns != []
    ensures |Holders(conns, i)| == |Holders(conns[1..], i)| + (if i in conns[0].have then 1 else 0)
  {
    var later := set k: nat | 0 < k < |conns| && i in conns[k].have;
    ShiftSize(Holders(conns[1..], i), later);
    assert Holders(conns, i) == later + (if i in conns[0].have then {0} else {});
  }

  /** Moving every position up by one keeps their number. */
  lemma {:induction false} ShiftSize(a: set<nat>, b: set<nat>)
    requires forall k: nat :: k in a <==> k + 1 in b
    requires 0 !in b
    ensures |a| == |b|
    decreases |a|
  {
    assert forall k: nat :: k in b ==> k > 0 && k - 1 in a;
    if a != {} {
      var k :| k in a;
      ShiftSize(a - {k}, b - {k + 1});
    }
  }

  lemma PendingIs(conns: seq<Conn>, i: nat)
    ensures i in Pending(conns) <==> !NobodyAsks(conns, i)
  {
  }

  /** A piece that nobody is asked for comes before one that somebody is asked for. */
  ghost predicate BestToAsk(t: Setup, s: Node, k: nat, i: nat)
    requires k < |s.conns|
  {
    MayAsk(t, s, k, i) && (NobodyAsks(s.conns, i) || forall j :: MayAsk(t, s, k, j) ==> !NobodyAsks(s.conns, j))
  }

  lemma CandidatesAre(t: Setup, s: Node, k: nat, i: nat)
    requires k < |s.conns|
    ensures i in Candidates(t, s, k) <==> BestToAsk(t, s, k, i)
  {
    assert forall j: nat :: j in Interesting(s, k) <==> MayAsk(t, s, k, j) && NobodyAsks(s.conns, j);
  }

  lemma SeedIs(t: Setup, s: Node)
    ensures IsSeed(t, s.own) <==> forall i: nat :: i < |t.info.hashes| ==> i in s.own
  {
    assert forall i: nat :: i in Below(t.info.NumPieces()) <==> i < |t.info.hashes|;
  }

  /** A connection is asked for a piece exactly if it is idle, some piece is missing, and there is a piece that it
      may be asked for; if only valid pieces are claimed, the last condition implies the one before. */
  lemma AsksIff(t: Setup, s: Node, k: nat)
    requires k < |s.conns|
    ensures RequestNext(t, s, k) != s
            <==> && s.conns[k].request.None? && (exists i: nat :: i < |t.info.hashes| && i !in s.own)
                 && exists i: nat :: MayAsk(t, s, k, i)
    ensures s.conns[k].have <= Below(|t.info.hashes|)
            ==> (RequestNext(t, s, k) != s <==> s.conns[k].request.None? && exists i: nat :: MayAsk(t, s, k, i))
  {
    SeedIs(t, s);
    BestExists(t, s, k);
    forall i: nat ensures i in Candidates(t, s, k) <==> BestToAsk(t, s, k, i) {
      CandidatesAre(t, s, k, i);
    }
    if s.conns[k].request.None? && !IsSeed(t, s.own) && Candidates(t, s, k) != {} {
      assert |RequestNext(t, s, k).log| == |s.log| + 1;
    }
  }

  lemma BestExists(t: Setup, s: Node, k: nat)
    requires k < |s.conns|
    ensures (exists i: nat :: BestToAsk(t, s, k, i)) <==> exists i: nat :: MayAsk(t, s, k, i)
  {
    if i: nat :| MayAsk(t, s, k, i) && NobodyAsks(s.conns, i) {
      assert BestToAsk(t, s, k, i);
    } else if i: nat :| MayAsk(t, s, k, i) {
      assert BestToAsk(t, s, k, i);
    }
  }

  /** The node with piece i requested from connection k: three retries from now on, the first of them sent. */
  ghost predicate HasAsked(t: Setup, s: Node, s': Node, k: nat, i: nat, offset: nat)
    requires k < |s.conns|
  {
    var c := s.conns[k];
    && s'.conns
       == s.conns[k := Conn(c.addr, c.pool, c.have, Some(Request(i, offset)), Retry.Counters(c.retry.timeout, 3, 1))]
    && s'.own == s.own && s'.file == s.file
    && s'.log == s.log + [Send(Unicast(c.addr), DataRequest(Header(t.infoHash, s.own), i % 0x100, offset % 0x1_0000))]
  }

  lemma StartHasAsked(t: Setup, s: Node, k: nat, r: Request)
    requires k < |s.conns|
    ensures HasAsked(t, s, RequestStart(t, s, k, r), k, r.index, r.offset)
  {
  }

  /** The piece asked for is one that nobody else is asked for if there is any, is held by the fewest remotes of those,
      and is the first of those held by equally few; it is asked for from its beginning, and nothing else changes. */
  lemma AsksForRarest(t: Setup, s: Node, k: nat) returns (i: nat)
    requires k < |s.conns| && s.conns[k].request.None? && s.conns[k].have <= Below(|t.info.hashes|)
    requires exists j: nat :: MayAsk(t, s, k, j)
    ensures BestToAsk(t, s, k, i) && HasAsked(t, s, RequestNext(t, s, k), k, i, 0)
    ensures forall j: nat :: BestToAsk(t, s, k, j) ==> |Holders(s.conns, i)| <= |Holders(s.conns, j)|
    ensures forall j: nat :: BestToAsk(t, s, k, j) && j < i ==> |Holders(s.conns, i)| < |Holders(s.conns, j)|
  {
    AsksIff(t, s, k);
    var candidates, n := Candidates(t, s, k), t.info.NumPieces();
    i := Rarest(s.conns, candidates, n);
    BestExists(t, s, k);
    forall j: nat ensures j in candidates <==> BestToAsk(t, s, k, j) {
      CandidatesAre(t, s, k, j);
    }
    assert candidates <= Below(n);
    StartHasAsked(t, s, k, Request(i, 0));
    forall j: nat ensures Rarity(s.conns, j) == |Holders(s.conns, j)| {
      RarityIsHolders(s.conns, j);
    }
  }
}
