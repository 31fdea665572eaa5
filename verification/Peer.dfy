/** One node: its connection pools and list, its pending-pieces bitset, its piece counts and its store,
    with one method for each function of the source (peer/peer.c). Every handler is proved to do to the
    node exactly what module PeerSpec says, and to keep the caches in agreement with their definitions. */
module Peer {
  import opened Common
  import opened Words
  import opened Bitset
  import opened Sha1
  import opened Torrent
  import opened PieceStore
  import opened PieceSelect
  import opened PeerSpec
  import opened PeerView
  import Sha1Avr
  import Retry

  class Peer {
    const store: Store
    const infoHash: Sha1Digest
    /** The room for data in one reply. */
    const maxData: nat
    const slots: array<Block>
    const used: array<bool>
    const selector: Selector
    var peers: seq<nat>
    var pending: uint32
    var log: seq<Effect<uint32>>

    ghost function SetupOf(): Setup {
      Setup(store.info, infoHash, SHA1, maxData)
    }

    function NumPieces(): nat {
      store.info.NumPieces()
    }

    /** The arrays have their sizes and the list holds distinct blocks. */
    ghost predicate Shape()
      reads this, slots, store
    {
      && slots.Length == POOL_BLOCKS && used.Length == POOL_BLOCKS && selector.counts.Length == MAX_PIECES
      && store.Valid() && Linked(peers, slots[..])
      && slots as object != store.file.data as object && selector.counts as object != store.file.data as object
      && used as object != store.file.data as object && used as object != slots as object
      && used as object != selector.counts as object && slots as object != selector.counts as object
    }

    ghost function Conns(): (r: seq<Conn>)
      requires Shape()
      reads this, slots, store
      ensures |r| == |peers|
      ensures forall k :: 0 <= k < |peers| ==> r[k] == ConnOf(peers[k], slots[peers[k]])
    {
      ConnsOf(peers, slots[..])
    }

    ghost function View(): Node
      requires Shape()
      reads this, slots, store, store.file, store.file.data
    {
      Node(Conns(), store.Own(), store.Bytes(), LogOf(log))
    }

    ghost predicate Agree()
      requires Shape()
      reads this, slots, store, selector.counts
    {
      CachesAgree(Conns(), pending, selector.counts[..], NumPieces())
    }

    /** The blocks in use are exactly the listed ones, no two for the same address; requested pieces exist;
        the caches agree with the list. */
    ghost predicate Valid()
      reads this, slots, used, selector.counts, store
    {
      && Shape()
      && (forall slot :: 0 <= slot < POOL_BLOCKS ==> (used[slot] <==> slot in peers))
      && WellFormed(Conns(), NumPieces()) && Agree()
    }

    constructor (store: Store, infoHash: Sha1Digest, maxData: nat)
      requires store.Valid()
      ensures Valid() && this.store == store && this.infoHash == infoHash && this.maxData == maxData
      ensures fresh(slots) && fresh(used) && fresh(selector) && fresh(selector.counts)
      ensures View() == Node([], store.Own(), store.Bytes(), [])
    {
      this.store, this.infoHash, this.maxData := store, infoHash, maxData;
      slots := new Block[POOL_BLOCKS](_ => Block(Address(0, false), 0, false, 0, 0, Retry.Init(RETRY_TIMEOUT)));
      used := new bool[POOL_BLOCKS](_ => false);
      selector := new Selector();
      peers, pending, log := [], 0, [];
      new;
      EmptyIffZero(0);
    }

    // ----------------------------------------------------------------
    // Finding connections

    /** The listed connection with this address. */
    method FindPeer(addr: Address) returns (found: bool, conn: nat, ghost k: nat)
      requires Shape()
      ensures k == Find(Conns(), addr)
      ensures found <==> Find(Conns(), addr) < |peers|
      ensures found ==> conn == peers[Find(Conns(), addr)]
    {
      var i := 0;
      while i < |peers|
        invariant 0 <= i <= |peers|
        invariant forall j :: 0 <= j < i ==> Conns()[j].addr != addr
      {
        if slots[peers[i]].addr == addr {
          assert Conns()[i].addr == addr;
          return true, peers[i], i;
        }
        i := i + 1;
      }
      return false, 0, i;
    }

    /** Whether some listed connection requests the piece. */
    method FindFirstRequest(index: nat) returns (found: bool)
      requires Shape()
      ensures found <==> index in Pending(Conns())
    {
      for i := 0 to |peers|
        invariant forall j :: 0 <= j < i ==> !Requests(Conns()[j], index)
      {
        if slots[peers[i]].hasRequest && slots[peers[i]].requestIndex == index {
          assert Requests(Conns()[i], index);
          PendingMember(Conns(), i);
          return true;
        }
      }
      return false;
    }

    /** Among the connections that request the piece, the one with this address, else the first. */
    method FindRequestConn(addr: Address, index: nat) returns (conn: nat, ghost k: nat)
      requires Shape() && WellFormed(Conns(), NumPieces()) && index in Pending(Conns())
      ensures k == FindRequest(Conns(), addr, index) < |peers|
      ensures conn == peers[FindRequest(Conns(), addr, index)]
    {
      ghost var conns := Conns();
      var first, firstConn := false, 0;
      ghost var firstK := 0;
      for i := 0 to |peers|
        invariant first ==> firstK < i && firstConn == peers[firstK] && Requests(conns[firstK], index)
        invariant forall j :: 0 <= j < (if first then firstK else i) ==> !Requests(conns[j], index)
        invariant forall j :: 0 <= j < i ==> !(conns[j].addr == addr && Requests(conns[j], index))
      {
        if slots[peers[i]].hasRequest && slots[peers[i]].requestIndex == index {
          assert Requests(conns[i], index);
          if slots[peers[i]].addr == addr {
            assert Find(conns, addr) == i;
            return peers[i], i;
          } else if !first {
            first, firstConn, firstK := true, peers[i], i;
          }
        }
      }
      assert first;
      assert FindFirst(conns, index) == firstK;
      return firstConn, firstK;
    }

    // ----------------------------------------------------------------
    // Requests

    method Emit(to: Destination, message: Message<uint32>)
      requires Shape()
      modifies this`log
      ensures log == old(log) + [Send(to, message)]
      ensures View() == SendTo(old(View()), to, MessageOf(message))
    {
      LogAppend(log, Send(to, message));
      log := log + [Send(to, message)];
    }

    method SendDataRequest(to: Address, index: uint8, start: uint16)
      requires Shape()
      modifies this`log
      ensures View() == SendRequest(SetupOf(), old(View()), to, Request(index, start))
    {
      var message := DataRequest(Header(infoHash, store.ownHave), index, start);
      RequestMessage(SetupOf(), View(), Header(infoHash, store.ownHave), index, start);
      Emit(Unicast(to), message);
    }

    /** Starts the request described in the block: marks it, starts its retries, sends the first message. */
    method StartRequest(conn: nat, ghost k: nat)
      requires Valid() && k < |peers| && peers[k] == conn && slots[conn].requestIndex < NumPieces()
      modifies this`pending, this`log, slots
      ensures Valid()
      ensures View() == RequestStart(SetupOf(), old(View()), k,
                                     Request(old(slots[conn].requestIndex), old(slots[conn].requestOffset)))
    {
      InitRequest(conn, k);
      var (retry, action) := Retry.Start(slots[conn].retry, MAX_PEER_RETRIES);
      StoreRetry(conn, k, retry);
      SendDataRequest(slots[conn].addr, slots[conn].requestIndex, slots[conn].requestOffset);
    }

    /** Stores the block of a listed connection. */
    method StoreBlock(conn: nat, ghost k: nat, b: Block)
      requires Shape() && k < |peers| && peers[k] == conn
      modifies slots
      ensures Shape() && slots[..] == old(slots[..])[conn := b]
      ensures Conns() == old(Conns())[k := ConnOf(conn, b)]
      ensures View() == SetConn(old(View()), k, ConnOf(conn, b))
    {
      ghost var before := slots[..];
      slots[conn] := b;
      assert slots[..] == before[conn := b];
      StoreListed(peers, before, k, b);
      assert store.Bytes() == old(store.Bytes()) && store.Own() == old(store.Own());
    }

    /** Marks the block's request and its piece. */
    method InitRequest(conn: nat, ghost k: nat)
      requires Valid() && k < |peers| && peers[k] == conn && slots[conn].requestIndex < NumPieces()
      modifies this`pending, slots
      ensures Valid() && slots[..] == old(slots[..])[conn := old(slots[conn]).(hasRequest := true)]
      ensures var r := Request(old(slots[conn].requestIndex), old(slots[conn].requestOffset));
              View() == SetConn(old(View()), k, old(View()).conns[k].(request := Some(r)))
    {
      ghost var conns := Conns();
      StoreBlock(conn, k, slots[conn].(hasRequest := true));
      pending := Add(pending, slots[conn].requestIndex);
      ghost var c := ConnOf(conn, slots[conn]);
      StartAgrees(conns, k, c, old(pending), selector.counts[..], NumPieces());
      WellFormedSet(conns, NumPieces(), k, c);
    }

    /** Stores the retry counters of a listed connection. */
    method StoreRetry(conn: nat, ghost k: nat, retry: Retry.Counters)
      requires Valid() && k < |peers| && peers[k] == conn
      modifies slots
      ensures Valid() && slots[..] == old(slots[..])[conn := old(slots[conn]).(retry := retry)]
      ensures View() == SetConn(old(View()), k, old(View()).conns[k].(retry := retry))
    {
      ghost var conns := Conns();
      StoreBlock(conn, k, slots[conn].(retry := retry));
      ghost var c := ConnOf(conn, slots[conn]);
      SameRequestAgrees(conns, k, c, pending, selector.counts[..], NumPieces());
      WellFormedSet(conns, NumPieces(), k, c);
    }

    /** Clears the request of a listed connection. Its piece stays pending only while another one requests it. */
    method StopRequest(conn: nat, ghost k: nat)
      requires Valid() && k < |peers| && peers[k] == conn
      modifies this`pending, slots
      ensures Valid() && slots[..] == old(slots[..])[conn := old(slots[conn]).(hasRequest := false)]
      ensures View() == RequestStop(old(View()), k)
    {
      var had, index := slots[conn].hasRequest, slots[conn].requestIndex;
      ghost var conns := Conns();
      StoreBlock(conn, k, slots[conn].(hasRequest := false));
      ghost var c := ConnOf(conn, slots[conn]);
      PendingStop(conns, k, c);
      CountsKeep(conns, k, c, selector.counts[..], NumPieces());
      WellFormedSet(conns, NumPieces(), k, c);
      if !had {
        return;
      }
      UpdatePending(index);
    }

    /** Sets or clears the pending bit of a piece by looking for a connection that requests it. */
    method UpdatePending(index: nat)
      requires Shape() && index < 32 && Bits(pending) == Pending(Conns()) + {index}
      modifies this`pending
      ensures Bits(pending) == Pending(Conns())
    {
      var found := FindFirstRequest(index);
      pending := if found then Add(pending, index) else Clear(pending, index);
    }

    /** Cancels all requests for a piece. */
    method StopAllRequests(index: nat)
      requires Valid() && index < NumPieces()
      modifies this`pending, slots
      ensures Valid()
      ensures View() == RequestStopAll(old(View()), index)
    {
      ghost var view := View();
      ReleaseAll(index);
      pending := Clear(pending, index);
      PendingReleased(view, index);
      ReleasedWellFormed(view, index, NumPieces());
      forall i: nat | i < NumPieces() ensures selector.counts[i] == Rarity(Conns(), i) {
        RaritySameHave(view.conns, Conns(), i);
      }
    }

    method ReleaseAll(index: nat)
      requires Shape()
      modifies slots
      ensures Shape() && View() == RequestStopAll(old(View()), index)
    {
      ghost var before, view := slots[..], View();
      for i := 0 to |peers|
        invariant Shape()
        invariant forall j :: 0 <= j < i ==> slots[peers[j]] == ReleasedBlock(before[peers[j]], index)
        invariant forall j :: i <= j < |peers| ==> slots[peers[j]] == before[peers[j]]
      {
        var conn := peers[i];
        if slots[conn].hasRequest && slots[conn].requestIndex == index {
          slots[conn] := slots[conn].(hasRequest := false);
        }
      }
      assert Conns() == RequestStopAll(view, index).conns;
      assert store.Bytes() == old(store.Bytes()) && store.Own() == old(store.Own());
    }

    /** Picks the rarest piece the connection can supply; pieces under way only near the end. */
    method SelectNext(conn: nat, ghost k: nat) returns (ok: bool, index: nat)
      requires Valid() && k < |peers| && peers[k] == conn
      ensures ok <==> Candidates(SetupOf(), View(), k) != {}
      ensures ok ==> index == PeerSpec.Rarest(Conns(), Candidates(SetupOf(), View(), k), NumPieces())
    {
      var interesting := InterestingPieces(conn, k);
      EmptyIffZero(interesting);
      if interesting == 0 {
        return false, 0;
      }
      ok := true;
      index := selector.Rarest(NumPieces(), interesting);
      ListBound(peers, slots[..]);
      LeastIsRarest(Conns(), selector.counts[..], Bits(interesting), NumPieces(), index);
    }

    /** What to choose from: missing pieces of the remote that nobody is asked for, or in the end-game
        any missing ones. */
    method InterestingPieces(conn: nat, ghost k: nat) returns (interesting: uint32)
      requires Valid() && k < |peers| && peers[k] == conn
      ensures Bits(interesting) == Candidates(SetupOf(), View(), k)
    {
      var wanted := Diff(slots[conn].have, store.ownHave);
      interesting := Diff(wanted, pending);
      EmptyIffZero(interesting);
      if interesting == 0 {
        var count := store.CountComplete();
        if 5 * count >= 4 * NumPieces() {
          interesting := wanted;
        }
      }
    }

    /** Requests the next piece from an idle connection. */
    method RequestNextPiece(conn: nat, ghost k: nat)
      requires Valid() && k < |peers| && peers[k] == conn
      modifies this`pending, this`log, slots
      ensures Valid()
      ensures View() == RequestNext(SetupOf(), old(View()), k)
    {
      if slots[conn].hasRequest {
        return;
      }
      var seed := store.IsSeed();
      if seed {
        return;
      }
      var ok, index := SelectNext(conn, k);
      if !ok {
        return;
      }
      Aim(conn, k, index, 0);
      StartRequest(conn, k);
    }

    // ----------------------------------------------------------------
    // Connections

    /** A free block of a pool. */
    method Allocate(pool: Pool) returns (ok: bool, slot: nat)
      requires Valid()
      ensures ok ==> slot < POOL_BLOCKS && PoolOf(slot) == pool && !used[slot]
      ensures ok <==> Used(Conns(), pool) < Capacity(pool)
    {
      PoolFull(peers, slots[..], pool);
      var first := FirstBlock(pool);
      for i := first to first + Capacity(pool)
        invariant forall j :: first <= j < i ==> j in peers
      {
        if !used[i] {
          return true, i;
        }
      }
      return false, 0;
    }

    /** The connection to an address, made in the pool if there is none and a block is free. */
    method Connect(addr: Address, pool: Pool) returns (ok: bool, conn: nat, ghost k: nat)
      requires Valid()
      modifies this`peers, slots, used
      ensures Valid()
      ensures (View(), if ok then Some(k) else None) == ConnectWith(old(View()), addr, pool)
      ensures ok ==> k < |peers| && peers[k] == conn
    {
      ok, conn, k := FindPeer(addr);
      if ok {
        return;
      }
      ok, conn := Allocate(pool);
      if !ok {
        return;
      }
      AddConn(conn, addr);
      k := 0;
    }

    /** Stores a block that is not listed. */
    method StoreFreeBlock(conn: nat, b: Block)
      requires Shape() && conn < POOL_BLOCKS && conn !in peers
      modifies slots
      ensures Shape() && slots[..] == old(slots[..])[conn := b]
      ensures Conns() == old(Conns()) && View() == old(View())
    {
      ghost var before := slots[..];
      slots[conn] := b;
      assert slots[..] == before[conn := b];
      StoreUnlisted(peers, before, conn, b);
      assert store.Bytes() == old(store.Bytes()) && store.Own() == old(store.Own());
    }

    /** Takes a free block for a new connection and puts it at the front of the list. */
    method AddConn(conn: nat, addr: Address)
      requires Valid() && conn < POOL_BLOCKS && !used[conn] && Find(Conns(), addr) == |peers|
      modifies this`peers, slots, used
      ensures Valid() && peers == [conn] + old(peers)
      ensures View() == old(View()).(conns := [NewConn(addr, PoolOf(conn), RETRY_TIMEOUT)] + old(View()).conns)
    {
      ghost var conns := Conns();
      StoreFreeBlock(conn, Block(addr, 0, false, slots[conn].requestIndex, slots[conn].requestOffset,
                                 Retry.Init(RETRY_TIMEOUT)));
      used[conn] := true;
      Push(peers, slots[..], conn);
      peers := [conn] + peers;
      EmptyIffZero(0);
      ghost var c := NewConn(addr, PoolOf(conn), RETRY_TIMEOUT);
      assert Conns() == [c] + conns;
      PushAgrees(conns, c, pending, selector.counts[..], NumPieces());
      WellFormedPush(conns, NumPieces(), c);
    }

    /** Drops a connection: out of the list, out of the counts, its request stopped, its block freed. */
    method ForceDisconnectConn(conn: nat, ghost k: nat)
      requires Valid() && k < |peers| && peers[k] == conn
      modifies this`peers, this`pending, slots, used, selector.counts
      ensures Valid()
      ensures View() == Remove(old(View()), k)
      ensures slots[conn].addr == old(slots[conn].addr) && !slots[conn].hasRequest
    {
      Unlist(conn, k);
      StopDetached(conn);
      FreeBlock(conn);
    }

    /** All is well but for one block, which is in use without being listed and may still hold a request. */
    ghost predicate Detached(conn: nat)
      reads this, slots, used, selector.counts, store
    {
      && Shape() && conn < POOL_BLOCKS && conn !in peers
      && (forall slot :: 0 <= slot < POOL_BLOCKS && slot != conn ==> (used[slot] <==> slot in peers))
      && WellFormed(Conns(), NumPieces()) && (slots[conn].hasRequest ==> slots[conn].requestIndex < NumPieces())
      && Bits(pending) == Pending(Conns()) + (if slots[conn].hasRequest then {slots[conn].requestIndex} else {})
      && (forall i: nat :: i < NumPieces() ==> selector.counts[i] == Rarity(Conns(), i))
    }

    /** Stops the request of an unlisted connection. */
    method StopDetached(conn: nat)
      requires Detached(conn)
      modifies this`pending, slots
      ensures Detached(conn) && View() == old(View())
      ensures slots[conn] == old(slots[conn]).(have := 0, hasRequest := false)
    {
      if slots[conn].hasRequest {
        UpdatePending(slots[conn].requestIndex);
      }
      StoreFreeBlock(conn, slots[conn].(have := 0, hasRequest := false));
    }

    /** Returns the block of an unlisted connection to its pool. */
    method FreeBlock(conn: nat)
      requires Detached(conn) && !slots[conn].hasRequest
      modifies used
      ensures Valid() && View() == old(View())
    {
      used[conn] := false;
      assert store.Bytes() == old(store.Bytes()) && store.Own() == old(store.Own());
      assert Conns() == old(Conns());
    }

    /** Takes a connection out of the list and out of the counts. */
    method Unlist(conn: nat, ghost k: nat)
      requires Valid() && k < |peers| && peers[k] == conn
      modifies this`peers, selector.counts
      ensures Detached(conn) && View() == Remove(old(View()), k)
    {
      ghost var conns := Conns();
      ListBound(peers, slots[..]);
      RemoveFacts(conns, NumPieces(), k);
      TakeOut(conn, k);
      Uncount(slots[conn].have, conns, k);
    }

    /** Subtracts the pieces of a connection that has left the list from the counts. */
    method Uncount(have: uint32, ghost conns: seq<Conn>, ghost k: nat)
      requires Shape() && k < |conns| <= POOL_BLOCKS && Bits(have) == conns[k].have
      requires Conns() == conns[..k] + conns[k + 1..]
      requires forall i: nat :: i < NumPieces() ==> selector.counts[i] == Rarity(conns, i)
      modifies selector.counts
      ensures Shape() && View() == old(View())
      ensures forall i: nat :: i < NumPieces() ==> selector.counts[i] == Rarity(Conns(), i)
    {
      ghost var counts := selector.counts[..];
      selector.UpdateHave(NumPieces(), have, 0);
      EmptyIffZero(0);
      LeaveAgrees(conns, k, counts, selector.counts[..], NumPieces());
    }

    /** Removes a block from the list. */
    method TakeOut(conn: nat, ghost k: nat)
      requires Shape() && k < |peers| && peers[k] == conn
      modifies this`peers
      ensures Shape() && conn !in peers && View() == Remove(old(View()), k)
      ensures forall slot :: slot != conn ==> (slot in peers <==> slot in old(peers))
    {
      Unlink(peers, slots[..], k);
      var i := PositionOf(conn, k);
      ghost var before := peers;
      peers := peers[..i] + peers[i + 1..];
      assert before == before[..i] + [conn] + before[i + 1..];
    }

    /** The position of a block in the list. */
    method PositionOf(conn: nat, ghost k: nat) returns (i: nat)
      requires Shape() && k < |peers| && peers[k] == conn
      ensures i == k
    {
      i := 0;
      while peers[i] != conn
        invariant 0 <= i <= k
        decreases k - i
      {
        i := i + 1;
      }
    }

    /** Drops a connection and tells the remote. */
    method Disconnect(conn: nat, ghost k: nat)
      requires Valid() && k < |peers| && peers[k] == conn
      modifies this`peers, this`pending, this`log, slots, used, selector.counts
      ensures Valid()
      ensures View() == DisconnectConn(SetupOf(), old(View()), k)
      ensures slots[conn].addr == old(slots[conn].addr) && !slots[conn].hasRequest
    {
      ForceDisconnectConn(conn, k);
      Emit(Unicast(slots[conn].addr), Close(Header(infoHash, store.ownHave)));
    }

    method ForceDisconnectPeer(addr: Address)
      requires Valid()
      modifies this`peers, this`pending, slots, used, selector.counts
      ensures Valid()
      ensures View() == ForceDisconnect(old(View()), addr)
    {
      var found, conn, k := FindPeer(addr);
      if found {
        ForceDisconnectConn(conn, k);
      }
    }

    /** Records what the remote has, on top of what was known. */
    method RecordHave(conn: nat, ghost k: nat, have: uint32)
      requires Valid() && k < |peers| && peers[k] == conn
      modifies slots, selector.counts
      ensures Valid()
      ensures View() == UpdateHave(old(View()), k, Bits(have))
    {
      ghost var conns, counts := Conns(), selector.counts[..];
      var newHave := Union(slots[conn].have, have);
      selector.UpdateHave(NumPieces(), slots[conn].have, newHave);
      StoreBlock(conn, k, slots[conn].(have := newHave));
      ghost var c := ConnOf(conn, slots[conn]);
      ListBound(peers, slots[..]);
      HaveAgrees(conns, k, c, pending, counts, selector.counts[..], NumPieces());
      WellFormedSet(conns, NumPieces(), k, c);
    }

    // ----------------------------------------------------------------
    // Data

    /** Finds the connection that takes the data, or makes a request for it on the fly. */
    method FindReceiver(src: Address, index: uint8, start: uint16, length: nat)
        returns (ok: bool, conn: nat, ghost k: nat)
      requires Valid() && index < NumPieces()
      modifies this`peers, this`pending, slots, used
      ensures Valid()
      ensures (View(), if ok then Some(k) else None) == DataReceiver(old(View()), src, index, start, length)
      ensures ok ==> k < |peers| && peers[k] == conn
    {
      ok, conn, k := false, 0, 0;
      var complete := store.IsComplete(index);
      if complete {
        return;
      }
      if Get(pending, index) {
        conn, k := FindRequestConn(src, index);
        ok := start <= slots[conn].requestOffset < start + length;
      } else if start == 0 {
        ok, conn, k := Connect(src, Outgoing);
        if ok && slots[conn].hasRequest {
          ok := false;
        } else if ok {
          ghost var view := View();
          Aim(conn, k, index, start);
          InitRequest(conn, k);
        }
      }
    }

    /** Sets the request fields of an idle connection, which mean nothing yet. */
    method Aim(conn: nat, ghost k: nat, index: uint8, start: uint16)
      requires Valid() && k < |peers| && peers[k] == conn && !slots[conn].hasRequest
      modifies slots
      ensures Valid() && View() == old(View())
      ensures slots[conn] == old(slots[conn]).(requestIndex := index, requestOffset := start)
    {
      ghost var conns := Conns();
      StoreBlock(conn, k, slots[conn].(requestIndex := index, requestOffset := start));
      assert Conns() == conns;
    }

    /** Moves the request of a connection to another offset of the same piece. */
    method MoveRequest(conn: nat, ghost k: nat, offset: uint16)
      requires Valid() && k < |peers| && peers[k] == conn && slots[conn].hasRequest
      modifies slots
      ensures Valid() && slots[conn] == old(slots[conn]).(requestOffset := offset)
      ensures var c := old(View()).conns[k];
              View() == SetConn(old(View()), k, c.(request := Some(c.request.value.(offset := offset))))
    {
      ghost var conns := Conns();
      StoreBlock(conn, k, slots[conn].(requestOffset := offset));
      ghost var c := ConnOf(conn, slots[conn]);
      SameRequestAgrees(conns, k, c, pending, selector.counts[..], NumPieces());
      WellFormedSet(conns, NumPieces(), k, c);
    }

    /** Data has been stored: ask for the rest, or verify the finished piece. */
    method ReceivedData(conn: nat, ghost k: nat, index: uint8, start: uint16, length: nat)
      requires Valid() && k < |peers| && peers[k] == conn && slots[conn].hasRequest && index < NumPieces()
      modifies this`pending, this`log, slots, store, store.file`pos
      ensures Valid()
      ensures View() == ReceiveData(SetupOf(), old(View()), k, index, start, length)
    {
      var size := store.info.Size(index);
      var next: uint16 := (start + length) % 0x1_0000;
      if next < size {
        MoveRequest(conn, k, next);
        StartRequest(conn, k);
      } else {
        StopRequest(conn, k);
        FinishPiece(index);
      }
    }

    /** Verifies a piece that has been received to its end. */
    method FinishPiece(index: uint8)
      requires Valid() && index < NumPieces()
      modifies this`pending, this`log, slots, store, store.file`pos
      ensures Valid()
      ensures var s := old(View());
              if Verified(store.info, SHA1, s.file, index) then
                var s' := RequestStopAll(s.(own := s.own + {index as nat}), index);
                View() == s'.(log := s'.log + [Completed(index)])
              else View() == s.(own := s.own - {index as nat}, log := s.log + [Corrupted(index)])
    {
      var complete := VerifyPiece(index);
      MarkPiece(index, complete);
      if complete {
        StopAllRequests(index);
        Report(Completed(index));
      } else {
        Report(Corrupted(index));
      }
    }

    /** Reports the outcome of a piece. */
    method Report(e: Effect<uint32>)
      requires Valid()
      modifies this`log
      ensures Valid() && View() == old(View()).(log := old(View()).log + [EffectOf(e)])
    {
      LogAppend(log, e);
      log := log + [e];
    }

    method VerifyPiece(index: uint8) returns (complete: bool)
      requires Valid() && index < NumPieces()
      modifies store.file`pos
      ensures Valid() && View() == old(View())
      ensures complete <==> Verified(store.info, SHA1, View().file, index)
    {
      var context := new Sha1Avr.Context();
      complete := store.Verify(context, index);
    }

    method MarkPiece(index: uint8, complete: bool)
      requires Valid() && index < NumPieces()
      modifies store
      ensures Valid()
      ensures View() == old(View()).(own := if complete then old(View()).own + {index as nat}
                                              else old(View()).own - {index as nat})
    {
      store.SetComplete(index, complete);
    }

    /** A data reply: find its receiver, store the data, go on from there. */
    method OnDataReply(src: Address, index: uint8, start: uint16, data: seq<byte>)
      requires Valid()
      modifies this`peers, this`pending, this`log, slots, used, store, store.file`pos, store.file.data
      ensures Valid()
      ensures View() == HandleDataReply(SetupOf(), old(View()), src, index, start, data)
    {
      if !store.info.IsValid(index) {
        return;
      }
      var ok, conn, k := FindReceiver(src, index, start, |data|);
      if !ok {
        return;
      }
      var written := StoreData(index, start, data);
      if written <= 0 {
        return;
      }
      ReceivedData(conn, k, index, start, written);
    }

    method StoreData(index: uint8, start: uint16, data: seq<byte>) returns (written: int)
      requires Valid()
      modifies store.file`pos, store.file.data
      ensures Valid() && slots[..] == old(slots[..])
      ensures written == WriteResult(store.info, index, start, |data|)
      ensures View() == old(View()).(file := AfterWrite(store.info, old(View()).file, index, start, data))
    {
      written := store.Write(index, start, data);
      assert slots[..] == old(slots[..]);
      assert selector.counts[..] == old(selector.counts[..]);
    }

    /** A data request: reply with data of a completed piece. */
    method OnDataRequest(src: Address, index: uint8, start: uint16) returns (ghost read: nat)
      requires Valid()
      modifies this`log, store.file`pos
      ensures Valid()
      ensures View() == HandleDataRequest(SetupOf(), old(View()), src, index, start, read)
    {
      read := 0;
      if !store.info.IsValid(index) {
        return;
      }
      var complete := store.IsComplete(index);
      if !complete {
        return;
      }
      var result, data := ReadData(index, start);
      if result <= 0 {
        return;
      }
      read := result;
      ReplyIs(SetupOf(), View(), src, index, start, read);
      SendReplyIs(SetupOf(), View(), src, index, start, read);
      var to := if src.linkLocal then AllNodes else Unicast(src);
      Emit(to, DataReply(Header(infoHash, store.ownHave), index, start, data));
    }

    method ReadData(index: uint8, start: uint16) returns (result: int, data: seq<byte>)
      requires Valid() && index < NumPieces()
      modifies store.file`pos
      ensures Valid() && View() == old(View())
      ensures var offset, size := Narrow(start), store.info.Size(index);
              if offset >= size then result == -1
              else
                && 0 <= result <= Min(maxData, size - offset) && (result == 0 <==> maxData == 0)
                && data == Piece(store.info, View().file, index)[offset..offset + result]
    {
      result, data := store.Read(index, start, maxData);
    }

    // ----------------------------------------------------------------
    // Events

    /** A datagram arrives. */
    method OnMessage(src: Address, toAll: bool, m: Message<uint32>) returns (ghost read: nat)
      requires Valid()
      modifies this, slots, used, selector.counts, store, store.file`pos, store.file.data
      ensures Valid()
      ensures View() == HandleMessage(SetupOf(), old(View()), src, toAll, MessageOf(m), read)
    {
      read := 0;
      if m.header.infoHash != infoHash {
        return;
      }
      if m.Close? {
        ForceDisconnectPeer(src);
        return;
      }
      if m.DataReply? {
        OnDataReply(src, m.index, m.start, m.data);
      }
      var ok, conn, k := Connect(src, Incoming);
      if !ok {
        if !toAll {
          Emit(Unicast(src), Close(Header(infoHash, store.ownHave)));
        }
        return;
      }
      RecordHave(conn, k, m.header.have);
      read := Answer(conn, k, src, m);
    }

    method Answer(conn: nat, ghost k: nat, src: Address, m: Message<uint32>) returns (ghost read: nat)
      requires Valid() && k < |peers| && peers[k] == conn
      modifies this`pending, this`log, slots, store.file`pos
      ensures Valid()
      ensures View() == Respond(SetupOf(), old(View()), k, src, MessageOf(m), read)
    {
      read := 0;
      match m {
        case Have(_) => RequestNextPiece(conn, k);
        case DataReply(_, _, _, _) => RequestNextPiece(conn, k);
        case DataRequest(_, index, start) => read := OnDataRequest(src, index, start);
        case _ =>
      }
    }

    /** The retry timer of a requesting connection is checked, and its callback runs. */
    method CheckRetry(conn: nat, ghost k: nat, expired: bool)
      requires Valid() && k < |peers| && peers[k] == conn
      modifies this`pending, this`log, slots
      ensures Valid()
      ensures View() == RetryProcess(SetupOf(), old(View()), k, expired)
    {
      var (retry, action) := Retry.Process(slots[conn].retry, expired);
      StoreRetry(conn, k, retry);
      match action {
        case Again(_) =>
          if slots[conn].hasRequest {
            SendDataRequest(slots[conn].addr, slots[conn].requestIndex, slots[conn].requestOffset);
          }
        case Stop =>
          if slots[conn].hasRequest {
            StopRequest(conn, k);
            RequestNextPiece(conn, k);
          }
        case Nothing =>
      }
    }

    /** One connection's share of a wake-up. */
    method CheckConn(conn: nat, ghost k: nat, timers: Timers)
      requires Valid() && k < |peers| && peers[k] == conn
      modifies this`peers, this`pending, this`log, slots, used, selector.counts
      ensures Valid()
      ensures View() == PollConn(SetupOf(), old(View()), k, timers)
    {
      var addr := slots[conn].addr;
      if addr in timers.silent {
        Disconnect(conn, k);
      } else if slots[conn].hasRequest {
        CheckRetry(conn, k, addr in timers.retries);
      }
      if timers.heartbeat && !addr.linkLocal {
        Emit(Unicast(addr), Have(Header(infoHash, store.ownHave)));
      }
    }

    /** Visits the connection at a position of the list; returns the position of the one that was next. */
    method CheckAt(i: nat, timers: Timers) returns (next: nat)
      requires Valid() && i < |peers|
      modifies this`peers, this`pending, this`log, slots, used, selector.counts
      ensures Valid() && next <= |peers| && |peers| - next < |old(peers)| - i
      ensures PollFrom(SetupOf(), View(), next, timers) == PollFrom(SetupOf(), old(View()), i, timers)
    {
      var conn := peers[i];
      next := if slots[conn].addr in timers.silent then i else i + 1;
      ghost var view := View();
      CheckConn(conn, i, timers);
      assert PollConn(SetupOf(), view, i, timers) == View();
    }

    /** The process wakes up: each connection is visited once, then the local heartbeat goes out. */
    method OnWakeUp(timers: Timers)
      requires Valid()
      modifies this`peers, this`pending, this`log, slots, used, selector.counts
      ensures Valid()
      ensures View() == Poll(SetupOf(), old(View()), timers)
    {
      var i := 0;
      while i < |peers|
        invariant 0 <= i <= |peers| && Valid()
        invariant PollFrom(SetupOf(), View(), i, timers) == PollFrom(SetupOf(), old(View()), 0, timers)
        decreases |peers| - i
      {
        i := CheckAt(i, timers);
      }
      if timers.heartbeat {
        Emit(AllNodes, Have(Header(infoHash, store.ownHave)));
      }
    }

    /** The tracker has told of a peer. */
    method OnJoin(peer: Address)
      requires Valid()
      modifies this`peers, slots, used
      ensures Valid()
      ensures View() == ConnectWith(old(View()), peer, Outgoing).0
    {
      var _, _, _ := Connect(peer, Outgoing);
    }
  }
}
