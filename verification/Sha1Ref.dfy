/** The reference implementation of SHA-1 (peer/crypto/ref/sha1.c):
    an eighty-word schedule, four round loops and one input byte at a time. */
module Sha1Ref {
  import opened Sha1

  const SUCCESS: nat := 0
  const INPUT_TOO_LONG: nat := 2
  const STATE_ERROR: nat := 3

  const WRAP32: nat := 0x1_0000_0000

  class Context {
    const intermediateHash: array<word>
    var lengthHigh: nat
    var lengthLow: nat
    var messageBlockIndex: nat
    const messageBlock: array<byte>
    var computed: bool
    var corrupted: nat
    /** Everything accepted since the last reset. */
    ghost var message: seq<byte>

    ghost predicate Allocated() {
      intermediateHash.Length == 5 && messageBlock.Length == BLOCK_BYTES
    }

    ghost predicate Valid()
      reads this, intermediateHash, messageBlock
    {
      && Allocated()
      && (corrupted == SUCCESS ==> if computed then Finished() else Open())
    }

    /** The hash is under way. */
    ghost predicate Open()
      reads this, intermediateHash, messageBlock
      requires Allocated()
    {
      && messageBlockIndex < BLOCK_BYTES
      && Absorbed(AsState(intermediateHash[..]), messageBlock[..messageBlockIndex], message)
      && lengthLow < WRAP32 && lengthHigh < WRAP32
      && lengthHigh * WRAP32 + lengthLow == 8 * |message|
    }

    /** The message has been padded and hashed. */
    ghost predicate Finished()
      reads this, intermediateHash
      requires Allocated()
    {
      AsState(intermediateHash[..]) == Hash(Padded(message))
    }

    constructor ()
      ensures Allocated() && fresh(intermediateHash) && fresh(messageBlock)
    {
      intermediateHash := new word[5];
      messageBlock := new byte[BLOCK_BYTES];
      lengthHigh, lengthLow, messageBlockIndex, computed, corrupted, message := 0, 0, 0, false, SUCCESS, [];
    }

    method Reset()
      requires Allocated()
      modifies this, intermediateHash
      ensures Valid() && !computed && corrupted == SUCCESS && message == []
    {
      lengthHigh, lengthLow, messageBlockIndex := 0, 0, 0;
      intermediateHash[0], intermediateHash[1], intermediateHash[2], intermediateHash[3], intermediateHash[4]
        := 0x67452301, 0xEFCDAB89, 0x98BADCFE, 0x10325476, 0xC3D2E1F0;
      computed, corrupted, message := false, SUCCESS, [];
      assert messageBlock[..0] == [] && message == [] + [];
      assert Covers(AsState(intermediateHash[..]), []);
    }

    /** Adds a piece of the message; refused once the digest has been taken. The byte that brings the message
        to 2^64 bits marks the context as corrupted; the program must not be given another one in the same call,
        since it would go on writing behind its block. */
    method Input(data: seq<byte>) returns (code: nat)
      requires Valid() && (!computed && corrupted == SUCCESS ==> 8 * (|message| + |data|) <= WRAP64)
      modifies this, intermediateHash, messageBlock
      ensures Valid() && computed == old(computed)
      ensures data == [] ==> code == SUCCESS && message == old(message) && corrupted == old(corrupted)
      ensures data != [] ==> code == corrupted
      ensures data != [] ==> corrupted == if old(computed) then STATE_ERROR
                                          else if old(corrupted) == SUCCESS && 8 * |message| == WRAP64
                                            then INPUT_TOO_LONG
                                          else old(corrupted)
      ensures message == if old(computed) || old(corrupted) != SUCCESS then old(message) else old(message) + data
    {
      if data == [] {
        assert message + [] == message;
        return SUCCESS;
      }
      if computed {
        corrupted := STATE_ERROR;
        return corrupted;
      }
      if corrupted != SUCCESS {
        return corrupted;
      }
      for i := 0 to |data|
        invariant Valid() && !computed && message == old(message) + data[..i]
        invariant corrupted == if i > 0 && 8 * |message| == WRAP64 then INPUT_TOO_LONG else SUCCESS
      {
        InputByte(data[i]);
        assert data[..i + 1] == data[..i] + [data[i]];
      }
      assert data[..|data|] == data;
      return corrupted;
    }

    /** One byte: store it, count its eight bits, and fold the block in once it is full. */
    method InputByte(b: byte)
      requires Valid() && !computed && corrupted == SUCCESS && 8 * (|message| + 1) <= WRAP64
      modifies this, intermediateHash, messageBlock
      ensures Valid() && !computed && message == old(message) + [b]
      ensures corrupted == if 8 * |message| == WRAP64 then INPUT_TOO_LONG else SUCCESS
    {
      ghost var buffered := messageBlock[..messageBlockIndex];
      Store(b);
      var code := AddLength(8);
      if code == SUCCESS {
        if messageBlockIndex == BLOCK_BYTES {
          FoldIn(buffered, b);
        } else {
          AbsorbSome(AsState(intermediateHash[..]), buffered, message, [b]);
        }
      }
      message := message + [b];
    }

    method Store(b: byte)
      requires Allocated() && messageBlockIndex < BLOCK_BYTES
      modifies this`messageBlockIndex, messageBlock
      ensures messageBlockIndex == old(messageBlockIndex) + 1 && intermediateHash[..] == old(intermediateHash[..])
      ensures messageBlock[..messageBlockIndex] == old(messageBlock[..messageBlockIndex]) + [b]
    {
      messageBlock[messageBlockIndex] := b;
      messageBlockIndex := messageBlockIndex + 1;
    }

    /** Folds in the full block, which ends with b. */
    method FoldIn(ghost buffered: seq<byte>, ghost b: byte)
      requires Allocated() && messageBlockIndex == BLOCK_BYTES && messageBlock[..messageBlockIndex] == buffered + [b]
      requires Absorbed(AsState(intermediateHash[..]), buffered, message)
      modifies this`messageBlockIndex, intermediateHash
      ensures messageBlockIndex == 0 && Absorbed(AsState(intermediateHash[..]), messageBlock[..0], message + [b])
    {
      assert messageBlock[..] == buffered + [b];
      AbsorbBlock(AsState(intermediateHash[..]), buffered, message, [b]);
      ProcessMessageBlock();
      assert messageBlock[..0] == [];
    }

    /** Counts bits in two 32-bit halves; an overflow of both marks the context as corrupted. */
    method AddLength(bits: nat) returns (code: nat)
      requires bits < WRAP32 && lengthLow < WRAP32 && lengthHigh < WRAP32
      modifies this`lengthLow, this`lengthHigh, this`corrupted
      ensures lengthLow < WRAP32 && lengthHigh < WRAP32 && code == corrupted
      ensures var total := old(lengthHigh) * WRAP32 + old(lengthLow) + bits;
              lengthHigh * WRAP32 + lengthLow == (if total < WRAP64 then total else total - WRAP64)
              && corrupted == (if total < WRAP64 then old(corrupted) else INPUT_TOO_LONG)
    {
      var before := lengthLow;
      lengthLow := (lengthLow + bits) % WRAP32;
      if lengthLow < before {
        lengthHigh := (lengthHigh + 1) % WRAP32;
        if lengthHigh == 0 {
          corrupted := INPUT_TOO_LONG;
        }
      }
      code := corrupted;
    }

    /** The digest, padding the message first unless that has been done. */
    method Result() returns (code: nat, digest: Sha1Digest)
      requires Valid()
      modifies this, intermediateHash, messageBlock
      ensures Valid() && message == old(message) && code == corrupted == old(corrupted)
      ensures code == SUCCESS ==> computed && digest == Digest(message)
    {
      if corrupted != SUCCESS {
        return corrupted, [];
      }
      if !computed {
        Finalize();
      }
      digest := ReadHash();
      return SUCCESS, digest;
    }

    /** Pads, hashes the last blocks and clears the buffer and the length. */
    method Finalize()
      requires Allocated() && Open()
      modifies this, intermediateHash, messageBlock
      ensures message == old(message) && corrupted == old(corrupted) && computed && Finished()
    {
      PadMessage();
      ghost var hash := intermediateHash[..];
      forall i | 0 <= i < BLOCK_BYTES {
        messageBlock[i] := 0;
      }
      assert intermediateHash[..] == hash;
      lengthHigh, lengthLow := 0, 0;
      computed := true;
    }

    /** Byte i of the digest is byte i mod 4 of word i div 4. */
    method ReadHash() returns (digest: Sha1Digest)
      requires Allocated()
      ensures digest == StateBytes(AsState(intermediateHash[..]))
    {
      ghost var s := AsState(intermediateHash[..]);
      digest := [];
      for i := 0 to DIGEST_BYTES
        invariant digest == StateBytes(s)[..i]
      {
        var q, k := i / 4, i % 4;
        FirstBytesAt(s, 5, q, k);
        assert WordAtIndex(s, q) == intermediateHash[q];
        digest := digest + [WordByte(intermediateHash[q], k)];
      }
    }

    /** Appends the mark, the zeros and the length, and folds in the last one or two blocks. */
    method PadMessage()
      requires Allocated() && Open()
      modifies this, intermediateHash, messageBlock
      ensures message == old(message) && corrupted == old(corrupted) && computed == old(computed)
      ensures Finished()
    {
      ghost var tail := messageBlock[..messageBlockIndex];
      ghost var done :| Covers(AsState(intermediateHash[..]), done) && message == done + tail;
      if messageBlockIndex >= BLOCK_BYTES - 8 {
        PadTwoBlocks(done, tail);
      } else {
        PadOneBlock(done, tail);
      }
    }

    /** The context holds done + tail, with tail still in the block. */
    ghost predicate Holds(done: seq<byte>, tail: seq<byte>)
      reads this, intermediateHash, messageBlock
      requires Allocated()
    {
      && Covers(AsState(intermediateHash[..]), done) && |tail| < BLOCK_BYTES
      && messageBlockIndex == |tail| && messageBlock[..|tail|] == tail
      && lengthLow < WRAP32 && lengthHigh < WRAP32 && lengthHigh * WRAP32 + lengthLow == 8 * (|done| + |tail|)
    }

    method PadTwoBlocks(ghost done: seq<byte>, ghost tail: seq<byte>)
      requires Allocated() && Holds(done, tail) && |tail| >= 56
      modifies this`messageBlockIndex, intermediateHash, messageBlock
      ensures AsState(intermediateHash[..]) == Hash(Padded(done + tail))
    {
      ghost var n := 8 * (|done| + |tail|);
      HashPadTwo(done, tail);
      SpillBlock(tail);
      CloseBlock([], n);
      assert [] + Zeros(56) + LengthBytes(n) == Zeros(56) + LengthBytes(n);
    }

    method PadOneBlock(ghost done: seq<byte>, ghost tail: seq<byte>)
      requires Allocated() && Holds(done, tail) && |tail| < 56
      modifies this`messageBlockIndex, intermediateHash, messageBlock
      ensures AsState(intermediateHash[..]) == Hash(Padded(done + tail))
    {
      HashPadOne(done, tail);
      Mark();
      CloseBlock(tail + [0x80], 8 * (|done| + |tail|));
    }

    /** Fills up the last block and folds it in. */
    method CloseBlock(ghost front: seq<byte>, ghost n: nat)
      requires Allocated() && messageBlockIndex == |front| <= 56 && messageBlock[..|front|] == front
      requires lengthHigh * WRAP32 + lengthLow == n && lengthLow < WRAP32 && lengthHigh < WRAP32
      modifies this`messageBlockIndex, intermediateHash, messageBlock
      ensures AsState(intermediateHash[..])
           == Compress(old(AsState(intermediateHash[..])), BlockWords(front + Zeros(56 - |front|) + LengthBytes(n)))
      ensures messageBlockIndex == 0
    {
      FillBlock(front, n);
      assert intermediateHash[..] == old(intermediateHash[..]);
      ProcessMessageBlock();
    }

    /** The block has no room for the length: mark it, fill it with zeros and fold it in. */
    method SpillBlock(ghost tail: seq<byte>)
      requires Allocated() && messageBlockIndex == |tail| < BLOCK_BYTES && messageBlock[..|tail|] == tail
      modifies this`messageBlockIndex, intermediateHash, messageBlock
      ensures AsState(intermediateHash[..])
           == Compress(old(AsState(intermediateHash[..])), BlockWords(tail + [0x80] + Zeros(63 - |tail|)))
      ensures messageBlockIndex == 0
    {
      Mark();
      ZeroUpTo(BLOCK_BYTES);
      assert messageBlock[..] == tail + [0x80] + Zeros(63 - |tail|);
      ProcessMessageBlock();
    }

    /** Zeros up to the last eight bytes, and the length there. */
    method FillBlock(ghost front: seq<byte>, ghost n: nat)
      requires Allocated() && messageBlockIndex == |front| <= 56 && messageBlock[..|front|] == front
      requires lengthHigh * WRAP32 + lengthLow == n && lengthLow < WRAP32 && lengthHigh < WRAP32
      modifies this`messageBlockIndex, messageBlock
      ensures messageBlock[..] == front + Zeros(56 - |front|) + LengthBytes(n)
    {
      ZeroUpTo(BLOCK_BYTES - 8);
      StoreLength(n);
    }

    method Mark()
      requires Allocated() && messageBlockIndex < BLOCK_BYTES
      modifies this`messageBlockIndex, messageBlock
      ensures messageBlockIndex == old(messageBlockIndex) + 1
      ensures messageBlock[..messageBlockIndex] == old(messageBlock[..messageBlockIndex]) + [0x80]
    {
      messageBlock[messageBlockIndex] := 0x80;
      messageBlockIndex := messageBlockIndex + 1;
    }

    method ZeroUpTo(end: nat)
      requires Allocated() && messageBlockIndex <= end <= BLOCK_BYTES
      modifies this`messageBlockIndex, messageBlock
      ensures messageBlockIndex == end
      ensures messageBlock[..end] == old(messageBlock[..messageBlockIndex]) + Zeros(end - old(messageBlockIndex))
    {
      ghost var start := messageBlockIndex;
      while messageBlockIndex < end
        invariant start <= messageBlockIndex <= end
        invariant messageBlock[..start] == old(messageBlock[..messageBlockIndex])
        invariant forall j :: start <= j < messageBlockIndex ==> messageBlock[j] == 0
      {
        messageBlock[messageBlockIndex] := 0;
        messageBlockIndex := messageBlockIndex + 1;
      }
    }

    /** Stores the two halves of the length, most significant byte first. */
    method StoreLength(ghost n: nat)
      requires Allocated() && lengthHigh * WRAP32 + lengthLow == n && lengthLow < WRAP32 && lengthHigh < WRAP32
      modifies messageBlock
      ensures messageBlock[..] == old(messageBlock[..56]) + LengthBytes(n)
    {
      StoreHalf(56, lengthHigh);
      ghost var half := messageBlock[..];
      StoreHalf(60, lengthLow);
      LengthHalves(lengthHigh, lengthLow);
      JoinHalves(old(messageBlock[..56]), half, messageBlock[..], HalfBytes(lengthHigh), HalfBytes(lengthLow));
    }

    method StoreHalf(pos: nat, half: nat)
      requires Allocated() && pos + 4 <= BLOCK_BYTES && half < WRAP32
      modifies messageBlock
      ensures messageBlock[..pos] == old(messageBlock[..pos])
      ensures messageBlock[pos..pos + 4] == HalfBytes(half)
    {
      messageBlock[pos] := (half / 0x100_0000 % 0x100) as byte;
      messageBlock[pos + 1] := (half / 0x1_0000 % 0x100) as byte;
      messageBlock[pos + 2] := (half / 0x100 % 0x100) as byte;
      messageBlock[pos + 3] := (half % 0x100) as byte;
      HalfBytesListed(half);
    }

    /** Folds the message block into the intermediate hash. */
    method ProcessMessageBlock()
      requires Allocated()
      modifies this`messageBlockIndex, intermediateHash
      ensures AsState(intermediateHash[..])
           == Compress(old(AsState(intermediateHash[..])), BlockWords(messageBlock[..]))
      ensures messageBlockIndex == 0
    {
      var w := BuildSchedule(messageBlock[..]);
      var s := AsStateOf(intermediateHash);
      s := FourLoops(s, w);
      intermediateHash[0] := Plus(intermediateHash[0], s.a);
      intermediateHash[1] := Plus(intermediateHash[1], s.b);
      intermediateHash[2] := Plus(intermediateHash[2], s.c);
      intermediateHash[3] := Plus(intermediateHash[3], s.d);
      intermediateHash[4] := Plus(intermediateHash[4], s.e);
      messageBlockIndex := 0;
    }
  }

  method AsStateOf(h: array<word>) returns (s: State)
    requires h.Length == 5
    ensures s == AsState(h[..])
  {
    s := State(h[0], h[1], h[2], h[3], h[4]);
  }

  method BuildSchedule(block: seq<byte>) returns (w: array<word>)
    requires |block| == BLOCK_BYTES
    ensures fresh(w) && w[..] == Schedule(BlockWords(block))
  {
    ghost var m := BlockWords(block);
    w := new word[ROUNDS];
    for t := 0 to 16
      invariant forall j :: 0 <= j < t ==> w[j] == W(m, j)
    {
      w[t] := WordAt(block, t);
    }
    Expand(w, m);
  }

  /** Fills in the words that follow from the first sixteen. */
  method Expand(w: array<word>, ghost m: seq<word>)
    requires w.Length == ROUNDS && |m| == 16 && forall j :: 0 <= j < 16 ==> w[j] == W(m, j)
    modifies w
    ensures forall j :: 0 <= j < ROUNDS ==> w[j] == W(m, j)
  {
    for t := 16 to ROUNDS
      invariant forall j :: 0 <= j < t ==> w[j] == W(m, j)
    {
      w[t] := NextWord(w, t, m);
    }
  }

  method NextWord(w: array<word>, t: nat, ghost m: seq<word>) returns (next: word)
    requires 16 <= t < w.Length && |m| == 16 && forall j :: 0 <= j < t ==> w[j] == W(m, j)
    ensures next == W(m, t)
  {
    next := Mix(w[t - 3], w[t - 8], w[t - 14], w[t - 16]);
  }

  /** The four loops of twenty rounds, one for each function and constant. */
  method FourLoops(h: State, w: array<word>) returns (s: State)
    requires w.Length == ROUNDS
    ensures s == Rounds(h, w[..], ROUNDS)
  {
    ghost var t0, t2 := 0, 40;
    s := ChooseLoop(h, h, w, t0);
    s := ParityLoop(h, s, w, 20, 0x6ED9EBA1);
    s := MajorityLoop(h, s, w, t2);
    s := ParityLoop(h, s, w, 60, 0xCA62C1D6);
  }

  method ChooseLoop(ghost h: State, start: State, w: array<word>, ghost from: nat) returns (s: State)
    requires w.Length == ROUNDS && from == 0 && start == Rounds(h, w[..], from)
    ensures s == Rounds(h, w[..], from + 20)
  {
    s := start;
    for t := 0 to 20
      invariant s == Rounds(h, w[..], t)
    {
      Choose(s.b, s.c, s.d);
      s := State(Temp(s.a, Ch(s.b, s.c, s.d), s.e, w[t], 0x5A827999), s.a, Rotl30(s.b), s.c, s.d);
    }
  }

  /** The second and the fourth loop. */
  method ParityLoop(ghost h: State, start: State, w: array<word>, from: nat, k: word) returns (s: State)
    requires (from == 20 && k == 0x6ED9EBA1) || (from == 60 && k == 0xCA62C1D6)
    requires w.Length == ROUNDS && start == Rounds(h, w[..], from)
    ensures s == Rounds(h, w[..], from + 20)
  {
    s := start;
    for t := from to from + 20
      invariant s == Rounds(h, w[..], t)
    {
      s := State(Temp(s.a, Parity(s.b, s.c, s.d), s.e, w[t], k), s.a, Rotl30(s.b), s.c, s.d);
    }
  }

  method MajorityLoop(ghost h: State, start: State, w: array<word>, ghost from: nat) returns (s: State)
    requires w.Length == ROUNDS && from == 40 && start == Rounds(h, w[..], from)
    ensures s == Rounds(h, w[..], from + 20)
  {
    s := start;
    for t := 40 to 60
      invariant s == Rounds(h, w[..], t)
    {
      Majority(s.b, s.c, s.d);
      s := State(Temp(s.a, Maj(s.b, s.c, s.d), s.e, w[t], 0x8F1BBCDC), s.a, Rotl30(s.b), s.c, s.d);
    }
  }

  function HalfDigits(half: nat): (r: seq<nat>)
    ensures |r| == 4 && forall i :: 0 <= i < 4 ==> r[i] < 0x100
  {
    [half / 0x100_0000 % 0x100, half / 0x1_0000 % 0x100, half / 0x100 % 0x100, half % 0x100]
  }

  function HalfBytes(half: nat): (r: seq<byte>)
    ensures |r| == 4
  {
    seq(4, i requires 0 <= i < 4 => HalfDigits(half)[i] as byte)
  }

  lemma HalfBytesListed(half: nat)
    ensures HalfBytes(half) == [(half / 0x100_0000 % 0x100) as byte, (half / 0x1_0000 % 0x100) as byte,
                                (half / 0x100 % 0x100) as byte, (half % 0x100) as byte]
  {
    var d, b := HalfDigits(half), HalfBytes(half);
    assert b[0] == d[0] as byte && b[1] == d[1] as byte && b[2] == d[2] as byte && b[3] == d[3] as byte;
    FourListed(b);
  }

  lemma FourListed(b: seq<byte>)
    requires |b| == 4
    ensures b == [b[0], b[1], b[2], b[3]]
  {
  }

  lemma LengthHalves(high: nat, low: nat)
    requires high < WRAP32 && low < WRAP32
    ensures LengthBytes(high * WRAP32 + low) == HalfBytes(high) + HalfBytes(low)
  {
    HighBytes(high, low);
    LowBytes(high, low);
    LengthBytesAre(high * WRAP32 + low, high, low);
  }

  lemma LengthBytesAre(n: nat, high: nat, low: nat)
    requires forall i: nat :: i < 4 ==> n / PlaceValue(i) % 0x100 == HalfDigits(high)[i]
    requires forall i: nat :: 4 <= i < 8 ==> n / PlaceValue(i) % 0x100 == HalfDigits(low)[i - 4]
    ensures LengthBytes(n) == HalfBytes(high) + HalfBytes(low)
  {
    var a, b := LengthBytes(n), HalfBytes(high) + HalfBytes(low);
    forall i: nat | i < 8 ensures a[i] == b[i] {
      assert a[i] == LengthByte(n, i);
    }
  }

  lemma JoinHalves(front: seq<byte>, half: seq<byte>, block: seq<byte>, high: seq<byte>, low: seq<byte>)
    requires |front| == 56 && |half| == |block| == BLOCK_BYTES && |high| == |low| == 4
    requires half[..56] == front && half[56..60] == high && block[..60] == half[..60] && block[60..64] == low
    ensures block == front + (high + low)
  {
    assert block == block[..60] + block[60..64];
    assert half[..60] == half[..56] + half[56..60];
  }

  lemma HighBytes(high: nat, low: nat)
    requires high < WRAP32 && low < WRAP32
    ensures var n := high * WRAP32 + low;
            forall i: nat :: i < 4 ==> n / PlaceValue(i) % 0x100 == HalfDigits(high)[i]
  {
    var n := high * WRAP32 + low;
    assert n / 0x100_0000_0000_0000 == high / 0x100_0000;
    assert n / 0x1_0000_0000_0000 == high / 0x1_0000;
    assert n / 0x100_0000_0000 == high / 0x100;
    assert n / 0x1_0000_0000 == high;
  }

  lemma LowBytes(high: nat, low: nat)
    requires high < WRAP32 && low < WRAP32
    ensures var n := high * WRAP32 + low;
            forall i: nat :: 4 <= i < 8 ==> n / PlaceValue(i) % 0x100 == HalfDigits(low)[i - 4]
  {
    var n := high * WRAP32 + low;
    assert n / 0x100_0000 == 0x100 * high + low / 0x100_0000;
    assert n / 0x1_0000 == 0x100 * (0x100 * high) + low / 0x1_0000;
    assert n / 0x100 == 0x100 * (0x1_0000 * high) + low / 0x100;
    LowByte(high, low / 0x100_0000);
    LowByte(0x100 * high, low / 0x1_0000);
    LowByte(0x1_0000 * high, low / 0x100);
    LowByte(0x100_0000 * high, low);
  }

  lemma LowByte(m: nat, a: nat)
    ensures (0x100 * m + a) % 0x100 == a % 0x100
  {
  }
}
