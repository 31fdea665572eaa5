/** Piece counts and the choice of the next piece (peer/piece-select.c). */
module PieceSelect {
  import opened Words
  import opened Bitset
  import opened Torrent

  const UINT8_MAX: nat := 0xFF

  /** An eight-bit count after one connection's piece set changed at one piece. */
  function Adjust(count: nat, had: bool, has: bool): nat {
    if had == has then count else if has then (count + 1) % 0x100 else (count + 0xFF) % 0x100
  }

  /** i is the first piece of the set, below n and counted below 255, with the least count. */
  ghost predicate IsFirstLeast(counts: seq<nat>, pieces: set<nat>, n: nat, i: nat)
    requires n <= |counts|
  {
    && i in pieces && i < n && counts[i] < UINT8_MAX
    && (forall j :: j in pieces && 0 <= j < n ==> counts[i] <= counts[j])
    && (forall j :: j in pieces && 0 <= j < i ==> counts[i] < counts[j])
  }

  class Selector {
    /** The number of connected peers that have each piece. */
    const counts: array<nat>

    constructor ()
      ensures fresh(counts) && counts.Length == MAX_PIECES && forall i :: 0 <= i < MAX_PIECES ==> counts[i] == 0
    {
      counts := new nat[MAX_PIECES](_ => 0);
    }

    /** A connection's piece set changes from before to after. */
    method UpdateHave(n: nat, before: uint32, after: uint32)
      requires counts.Length == MAX_PIECES && n <= MAX_PIECES
      modifies counts
      ensures forall i: nat :: i < n ==> counts[i] == Adjust(old(counts[i]), i in Bits(before), i in Bits(after))
      ensures forall i: nat :: n <= i < MAX_PIECES ==> counts[i] == old(counts[i])
    {
      if before == after {
        return;
      }
      var i := 0;
      while i < n
        invariant 0 <= i <= n
        invariant forall j: nat :: j < i ==> counts[j] == Adjust(old(counts[j]), j in Bits(before), j in Bits(after))
        invariant forall j: nat :: i <= j < MAX_PIECES ==> counts[j] == old(counts[j])
      {
        var had, has := Get(before, i), Get(after, i);
        if had != has {
          if has {
            counts[i] := (counts[i] + 1) % 0x100;
          } else {
            counts[i] := (counts[i] + 0xFF) % 0x100;
          }
        }
        i := i + 1;
      }
    }

    /** The first least-counted piece among the interesting ones; 0 if there is none below n counted below 255. */
    method Rarest(n: nat, interesting: uint32) returns (index: nat)
      requires counts.Length == MAX_PIECES && n <= MAX_PIECES
      ensures if exists i :: i in Bits(interesting) && i < n && counts[i] < UINT8_MAX
              then IsFirstLeast(counts[..], Bits(interesting), n, index) else index == 0
    {
      index := 0;
      var least := UINT8_MAX;
      for i := 0 to n
        invariant if exists j :: j in Bits(interesting) && j < i && counts[j] < UINT8_MAX
                  then IsFirstLeast(counts[..], Bits(interesting), i, index) && least == counts[index]
                  else index == 0 && least == UINT8_MAX
      {
        if Get(interesting, i) && counts[i] < least {
          index, least := i, counts[i];
        }
      }
    }
  }
}
