/** The AVR implementation of SHA-1 (peer/crypto/avr/sha1.c, peer/crypto/avr/crypto-impl.c):
    a circular schedule of sixteen words, a table-driven round and 64-byte block buffering. */
module Sha1Avr {
  import opened Arithmetic
  import opened Common
  import opened Sha1

  /** Entry fi of the function-pointer table. */
  function TableF(fi: nat, x: word, y: word, z: word): word
    requires fi < 4
  {
    if fi == 0 then Ch(x, y, z) else if fi == 1 then Parity(x, y, z)
    else if fi == 2 then Maj(x, y, z) else Parity(x, y, z)
  }

  function TableK(fi: nat): word
    requires fi < 4
  {
    if fi == 0 then 0x5a827999 else if fi == 1 then 0x6ed9eba1 else if fi == 2 then 0x8f1bbcdc else 0xca62c1d6
  }

  function ChangeEndian(x: word): word {
    (x << 24) | (x >> 24) | ((x & 0x0000ff00) << 8) | ((x & 0x00ff0000) >> 8)
  }

  /** A 32-bit load from memory on a little-endian machine. */
  function LoadLittleEndian(b0: byte, b1: byte, b2: byte, b3: byte): word {
    (b0 as word) | ((b1 as word) << 8) | ((b2 as word) << 16) | ((b3 as word) << 24)
  }

  lemma ByteSwap(b0: byte, b1: byte, b2: byte, b3: byte)
    ensures ChangeEndian(LoadLittleEndian(b0, b1, b2, b3)) == WordOf(b0, b1, b2, b3)
  {
  }

  /** A 32-bit store to memory on a little-endian machine. */
  function StoreLittleEndian(x: word): Sha1Digest {
    [(x & 0xFF) as nat, ((x >> 8) & 0xFF) as nat, ((x >> 16) & 0xFF) as nat, (x >> 24) as nat]
  }

  lemma StoreSwapped(x: word)
    ensures StoreLittleEndian(ChangeEndian(x)) == WordBytes(x)
  {
  }

  /** The 64-bit counter after this many bytes. */
  function Bits(bytes: nat): nat {
    8 * bytes % WRAP64
  }

  lemma CountOn(bytes: nat, more: nat)
    requires more % 8 == 0
    ensures (Bits(bytes) + more) % WRAP64 == Bits(bytes + more / 8)
  {
    var n := 8 * bytes;
    DivBounds(n, WRAP64);
    DivShift(n / WRAP64, n % WRAP64 + more, WRAP64);
  }

  /** The length field only depends on the length modulo 2^64. */
  lemma LengthWraps(n: nat, i: nat)
    requires i < 8
    ensures LengthByte(n, i) == LengthByte(n % WRAP64, i)
  {
    var q, r := n / WRAP64, n % WRAP64;
    assert n == q * WRAP64 + r;
    if i == 0 {
      PlaceWraps(q, r, 0x100_0000_0000_0000, 1);
    } else if i == 1 {
      PlaceWraps(q, r, 0x1_0000_0000_0000, 0x100);
    } else if i == 2 {
      PlaceWraps(q, r, 0x100_0000_0000, 0x1_0000);
    } else if i == 3 {
      PlaceWraps(q, r, 0x1_0000_0000, 0x100_0000);
    } else if i == 4 {
      PlaceWraps(q, r, 0x100_0000, 0x1_0000_0000);
    } else if i == 5 {
      PlaceWraps(q, r, 0x1_0000, 0x100_0000_0000);
    } else if i == 6 {
      PlaceWraps(q, r, 0x100, 0x1_0000_0000_0000);
    } else {
      PlaceWraps(q, r, 1, 0x100_0000_0000_0000);
    }
  }

  /** Whole multiples of 2^64 change no byte at any place below. */
  lemma PlaceWraps(q: nat, r: nat, place: nat, above: nat)
    requires place > 0 && place * (0x100 * above) == WRAP64
    ensures (q * WRAP64 + r) / place % 0x100 == r / place % 0x100
  {
    var m := q * above;
    assert q * WRAP64 == 0x100 * m * place;
    DivShift(0x100 * m, r, place);
    DivShift(m, r / place, 0x100);
  }

  lemma WrapBack(n: nat)
    requires n < WRAP64
    ensures ((n + 512) % WRAP64 - 512) % WRAP64 == n
  {
    if n + 512 >= WRAP64 {
      assert (n + 512) % WRAP64 == n + 512 - WRAP64;
    }
  }

  lemma Tables(t: nat, fi: nat, x: word, y: word, z: word)
    requires fi < 4 && 20 * fi <= t < 20 * fi + 20
    ensures TableF(fi, x, y, z) == F(t, x, y, z) && TableK(fi) == K(t)
  {
    if fi == 0 {
      Choose(x, y, z);
    } else if fi == 2 {
      Majority(x, y, z);
    }
  }

  /** The schedule position whose word slot j of the circular buffer holds before round 16 * q + s. */
  function Position(q: nat, s: nat, j: nat): nat {
    if q == 0 then j else if j < s then 16 * q + j else 16 * (q - 1) + j
  }

  ghost predicate Circular(w: seq<word>, schedule: seq<word>, q: nat, s: nat) {
    |w| == 16 && |schedule| == ROUNDS && 16 * q + s <= ROUNDS
    && forall j :: 0 <= j < 16 && Position(q, s, j) < ROUNDS ==> w[j] == schedule[Position(q, s, j)]
  }

  ghost predicate ExpandedAt(schedule: seq<word>, t: nat)
    requires 16 <= t < |schedule|
  {
    schedule[t] == Mix(schedule[t - 3], schedule[t - 8], schedule[t - 14], schedule[t - 16])
  }

  ghost predicate Expanded(schedule: seq<word>) {
    |schedule| == ROUNDS && forall t {:trigger ExpandedAt(schedule, t)} :: 16 <= t < ROUNDS ==> ExpandedAt(schedule, t)
  }

  lemma ScheduleIsExpanded(block: seq<word>)
    requires |block| == 16
    ensures Expanded(Schedule(block)) && Schedule(block)[..16] == block
  {
    var schedule := Schedule(block);
    forall t | 16 <= t < ROUNDS ensures ExpandedAt(schedule, t) {
      assert W(block, t) == Mix(W(block, t - 3), W(block, t - 8), W(block, t - 14), W(block, t - 16));
    }
    forall t | 0 <= t < 16 ensures schedule[t] == block[t] {
      assert W(block, t) == block[t];
    }
  }

  /** The four words mixed in round 16 * q + s sit at (s+13), (s+8), (s+2) and s modulo 16. */
  lemma CircularMix(w: seq<word>, schedule: seq<word>, q: nat, s: nat)
    requires Expanded(schedule) && Circular(w, schedule, q, s) && q > 0 && s < 16 && 16 * q + s < ROUNDS
    ensures Mix(w[(s + 13) % 16], w[(s + 8) % 16], w[(s + 2) % 16], w[s]) == schedule[16 * q + s]
  {
    Slot(w, schedule, q, s, 3);
    Slot(w, schedule, q, s, 8);
    Slot(w, schedule, q, s, 14);
    Slot(w, schedule, q, s, 16);
    assert ExpandedAt(schedule, 16 * q + s);
  }

  lemma Slot(w: seq<word>, schedule: seq<word>, q: nat, s: nat, d: nat)
    requires Circular(w, schedule, q, s) && q > 0 && s < 16 && 0 < d <= 16
    ensures w[(s + 16 - d) % 16] == schedule[16 * q + s - d]
  {
    var j := if s < d then s + 16 - d else s - d;
    assert (s + 16 - d) % 16 == j;
    assert Position(q, s, j) == 16 * q + s - d;
  }

  lemma CircularNext(w: seq<word>, schedule: seq<word>, q: nat, s: nat)
    requires Circular(w, schedule, q, s) && s < 16 && 16 * q + s < ROUNDS
    ensures q == 0 ==> w[s] == schedule[s]
    ensures var w' := w[s := schedule[16 * q + s]];
            if s < 15 then Circular(w', schedule, q, s + 1) else Circular(w', schedule, q + 1, 0)
  {
    assert Position(0, s, s) == s;
  }

  class Context {
    const h: array<word>
    var length: nat
    const nextBlock: array<byte>
    var nextLength: nat
    /** Everything added since the last reset. */
    ghost var message: seq<byte>

    /** The state has absorbed all whole blocks of the message; the buffer holds the rest. */
    ghost predicate Valid()
      reads this, h, nextBlock
    {
      && Allocated()
      && nextLength < BLOCK_BYTES
      && Absorbed(AsState(h[..]), nextBlock[..nextLength], message)
      && length == Bits(|message| - nextLength)
    }

    ghost predicate Allocated() {
      h.Length == 5 && nextBlock.Length == BLOCK_BYTES
    }

    constructor ()
      ensures Allocated() && fresh(h) && fresh(nextBlock)
    {
      h := new word[5];
      nextBlock := new byte[BLOCK_BYTES];
      length, nextLength, message := 0, 0, [];
    }

    method Reset()
      requires Allocated()
      modifies this, h
      ensures Valid() && message == []
    {
      h[0], h[1], h[2], h[3], h[4] := 0x67452301, 0xefcdab89, 0x98badcfe, 0x10325476, 0xc3d2e1f0;
      length, nextLength, message := 0, 0, [];
      assert nextBlock[..0] == [] && message == [] + [];
      assert Covers(AsState(h[..]), []);
    }

    /** Appends src, filling the buffered block first and keeping the remainder. */
    method Add(src: seq<byte>)
      requires Valid()
      modifies this, h, nextBlock
      ensures Valid() && message == old(message) + src
    {
      var pos := 0;
      if nextLength != 0 {
        pos := Min(|src|, BLOCK_BYTES - nextLength);
        Buffer(src[..pos]);
      }
      assert src == src[..pos] + src[pos..];
      AddAligned(src[pos..]);
    }

    /** Appends src to whole blocks. */
    method AddAligned(src: seq<byte>)
      requires Valid() && (src != [] ==> nextLength == 0)
      modifies this, h, nextBlock
      ensures Valid() && message == old(message) + src
    {
      var rest := AddBlocks(src);
      if rest != [] {
        Buffer(rest);
      }
    }

    /** Folds in the whole blocks of src and returns what is left. */
    method AddBlocks(src: seq<byte>) returns (rest: seq<byte>)
      requires Valid() && (src != [] ==> nextLength == 0)
      modifies this, h
      ensures Valid() && message + rest == old(message) + src
      ensures |rest| < BLOCK_BYTES && (rest != [] ==> nextLength == 0)
    {
      rest := src;
      while |rest| >= BLOCK_BYTES
        invariant Valid() && message + rest == old(message) + src
        invariant rest != [] ==> nextLength == 0
      {
        ghost var before := message;
        Absorb(rest[..BLOCK_BYTES]);
        assert rest == rest[..BLOCK_BYTES] + rest[BLOCK_BYTES..];
        rest := rest[BLOCK_BYTES..];
        assert message + rest == old(message) + src;
      }
    }

    /** Adds data to the next block, and folds that block in once it is full. */
    method Buffer(data: seq<byte>)
      requires Valid() && nextLength + |data| <= BLOCK_BYTES
      modifies this, h, nextBlock
      ensures Valid() && message == old(message) + data
      ensures nextLength == if old(nextLength) + |data| == BLOCK_BYTES then 0 else old(nextLength) + |data|
    {
      ghost var buffered := nextBlock[..nextLength];
      Copy(data);
      if nextLength == BLOCK_BYTES {
        Flush(buffered, data);
      } else {
        AbsorbSome(AsState(h[..]), buffered, message, data);
      }
      message := message + data;
    }

    method Copy(data: seq<byte>)
      requires Allocated() && nextLength + |data| <= BLOCK_BYTES
      modifies this`nextLength, nextBlock
      ensures nextLength == old(nextLength) + |data| && h[..] == old(h[..])
      ensures nextBlock[..nextLength] == old(nextBlock[..nextLength]) + data
    {
      forall i | 0 <= i < |data| {
        nextBlock[nextLength + i] := data[i];
      }
      nextLength := nextLength + |data|;
    }

    /** Folds in the full block, of which data has just been added. */
    method Flush(ghost buffered: seq<byte>, ghost data: seq<byte>)
      requires Allocated() && nextLength == BLOCK_BYTES && nextBlock[..nextLength] == buffered + data
      requires Absorbed(AsState(h[..]), buffered, message) && length == Bits(|message| - |buffered|)
      modifies this`length, this`nextLength, h
      ensures nextLength == 0 && length == Bits(|message| + |data|)
      ensures Absorbed(AsState(h[..]), nextBlock[..0], message + data)
    {
      assert nextBlock[..] == buffered + data;
      AbsorbBlock(AsState(h[..]), buffered, message, data);
      CountOn(|message| - |buffered|, 512);
      NextBlock(nextBlock[..]);
      nextLength := 0;
      assert nextBlock[..0] == [];
    }

    /** Folds in a whole block taken from the input. */
    method Absorb(block: seq<byte>)
      requires Valid() && nextLength == 0 && |block| == BLOCK_BYTES
      modifies this, h
      ensures Valid() && nextLength == 0 && message == old(message) + block
    {
      assert nextBlock[..0] == [] && [] + block == block;
      AbsorbBlock(AsState(h[..]), [], message, block);
      CountOn(|message|, 512);
      NextBlock(block);
      message := message + block;
      assert nextBlock[..0] == [];
    }

    /** The digest of everything added; the context needs a reset afterwards. */
    method Result() returns (digest: Sha1Digest)
      requires Valid()
      modifies this, h
      ensures digest == Digest(old(message)) && Allocated()
    {
      ghost var tail := nextBlock[..nextLength];
      ghost var done :| Covers(AsState(h[..]), done) && message == done + tail;
      LastBlock(nextBlock[..], 8 * nextLength, done, tail);
      digest := ToHash();
    }

    /** Pads and folds in the last bits, which lie at the front of block. */
    method LastBlock(block: seq<byte>, bits: nat, ghost done: seq<byte>, ghost tail: seq<byte>)
      requires Allocated() && bits == 8 * |tail| && tail <= block
      requires Covers(AsState(h[..]), done) && length == Bits(|done|)
      modifies h, this`length
      ensures AsState(h[..]) == Hash(Padded(done + tail))
    {
      var rest, left := block, bits;
      ghost var first, last := done, tail;
      while left >= 512
        invariant left == 8 * |last| && last <= rest && done + tail == first + last
        invariant Covers(AsState(h[..]), first) && length == Bits(|first|)
      {
        WholeBlock(rest[..BLOCK_BYTES], first);
        assert rest[..BLOCK_BYTES] == last[..BLOCK_BYTES] && last == last[..BLOCK_BYTES] + last[BLOCK_BYTES..];
        first, last := first + rest[..BLOCK_BYTES], last[BLOCK_BYTES..];
        rest, left := rest[BLOCK_BYTES..], left - 512;
      }
      PadLast(rest, left, first, last);
    }

    /** Folds in a block of which all bits belong to the message. */
    method WholeBlock(block: seq<byte>, ghost done: seq<byte>)
      requires Allocated() && |block| == BLOCK_BYTES && Covers(AsState(h[..]), done) && length == Bits(|done|)
      modifies h, this`length
      ensures Covers(AsState(h[..]), done + block) && length == Bits(|done + block|)
    {
      HashAppend(done, block);
      CountOn(|done|, 512);
      NextBlock(block);
    }

    /** Pads and folds in what does not fill a block. */
    method PadLast(block: seq<byte>, bits: nat, ghost done: seq<byte>, ghost tail: seq<byte>)
      requires Allocated() && bits == 8 * |tail| && bits < 512 && tail <= block
      requires Covers(AsState(h[..]), done) && length == Bits(|done|)
      modifies h, this`length
      ensures AsState(h[..]) == Hash(Padded(done + tail))
    {
      CountOn(|done|, bits);
      length := (length + bits) % WRAP64;
      var lb := MarkEnd(block, bits / 8);
      assert lb[..] == tail + [0x80] + Zeros(63 - |tail|);
      if bits > 512 - 64 - 1 {
        PadTwoBlocks(lb, done, tail);
      } else {
        PadOneBlock(lb, done, tail);
      }
    }

    method PadTwoBlocks(lb: array<byte>, ghost done: seq<byte>, ghost tail: seq<byte>)
      requires Marked(lb, done, tail) && |tail| >= 56
      modifies h, this`length, lb
      ensures AsState(h[..]) == Hash(Padded(done + tail))
    {
      ghost var n := 8 * (|done| + |tail|);
      HashPadTwo(done, tail);
      SpillBlock(lb);
      StoreLength(lb, n);
      assert lb[..] == Zeros(56) + LengthBytes(n);
      NextBlock(lb[..]);
    }

    method PadOneBlock(lb: array<byte>, ghost done: seq<byte>, ghost tail: seq<byte>)
      requires Marked(lb, done, tail) && |tail| < 56
      modifies h, this`length, lb
      ensures AsState(h[..]) == Hash(Padded(done + tail))
    {
      ghost var n := 8 * (|done| + |tail|);
      HashPadOne(done, tail);
      StoreLength(lb, n);
      assert lb[..] == tail + [0x80] + Zeros(55 - |tail|) + LengthBytes(n);
      NextBlock(lb[..]);
    }

    /** The local block holds the rest of the message, the final one bit and zeros, and all bits are counted. */
    ghost predicate Marked(lb: array<byte>, done: seq<byte>, tail: seq<byte>)
      reads this, h, lb
    {
      && Allocated() && lb as object != h as object && lb.Length == BLOCK_BYTES && |tail| < BLOCK_BYTES
      && lb[..] == tail + [0x80] + Zeros(63 - |tail|)
      && Covers(AsState(h[..]), done) && length == Bits(|done| + |tail|)
    }

    /** The block has no room for the length: fold it in without counting it, and start an empty one. */
    method SpillBlock(lb: array<byte>)
      requires Allocated() && lb.Length == BLOCK_BYTES && length < WRAP64
      modifies h, this`length, lb
      ensures AsState(h[..]) == Compress(old(AsState(h[..])), BlockWords(old(lb[..])))
      ensures length == old(length) && lb[..] == Zeros(BLOCK_BYTES)
    {
      NextBlock(lb[..]);
      WrapBack(old(length));
      length := (length - 512) % WRAP64;
      forall i | 0 <= i < BLOCK_BYTES {
        lb[i] := 0;
      }
    }

    /** Writes the 64-bit message length behind the padding, most significant byte first. */
    method StoreLength(lb: array<byte>, ghost n: nat)
      requires lb.Length == BLOCK_BYTES && length == n % WRAP64
      modifies lb
      ensures lb[..] == old(lb[..56]) + LengthBytes(n)
    {
      for i := 0 to 8
        invariant lb[..56] == old(lb[..56])
        invariant forall j :: 0 <= j < i ==> lb[56 + j] == LengthByte(n, j)
      {
        LengthWraps(n, i);
        lb[56 + i] := LengthByte(length, i);
      }
    }

    /** The state as bytes, each word stored with its bytes swapped. */
    method ToHash() returns (dest: Sha1Digest)
      requires Allocated()
      ensures dest == StateBytes(AsState(h[..]))
    {
      dest := [];
      for i := 0 to 5
        invariant dest == FirstBytes(AsState(h[..]), i)
      {
        StoreSwapped(h[i]);
        dest := dest + StoreLittleEndian(ChangeEndian(h[i]));
      }
    }

    /** Folds one block into the state. */
    method NextBlock(block: seq<byte>)
      requires |block| == BLOCK_BYTES && h.Length == 5
      modifies h, this`length
      ensures AsState(h[..]) == Compress(old(AsState(h[..])), BlockWords(block))
      ensures length == (old(length) + 512) % WRAP64
    {
      var w := LoadWords(block);
      var a := new word[5];
      a[0], a[1], a[2], a[3], a[4] := h[0], h[1], h[2], h[3], h[4];
      ScheduleIsExpanded(BlockWords(block));
      RunRounds(a, w, Schedule(BlockWords(block)));
      AddBuffers(h, a);
      length := (length + 512) % WRAP64;
    }
  }

  method AddBuffers(h: array<word>, a: array<word>)
    requires h != a && h.Length == a.Length == 5
    modifies h
    ensures AsState(h[..]) == AddState(old(AsState(h[..])), AsState(a[..]))
  {
    for t := 0 to 5
      invariant forall j :: t <= j < 5 ==> h[j] == old(h[j])
      invariant forall j :: 0 <= j < t ==> h[j] == Plus(old(h[j]), a[j])
    {
      h[t] := Plus(h[t], a[t]);
    }
  }

  /** The eighty rounds, over a circular buffer that starts as the first sixteen words. */
  method RunRounds(a: array<word>, w: array<word>, ghost schedule: seq<word>)
    requires a != w && a.Length == 5 && Expanded(schedule) && w[..] == schedule[..16]
    modifies a, w
    ensures AsState(a[..]) == Rounds(old(AsState(a[..])), schedule, ROUNDS)
  {
    ghost var start := AsState(a[..]);
    var fi, fib, t := 0, 0, 0;
    while t <= 79
      invariant 0 <= t <= 80 && Counted(t, fi, fib)
      invariant AsState(a[..]) == Rounds(start, schedule, t)
      invariant UpToDate(w[..], schedule, t)
    {
      UpdateSchedule(w, t, schedule);
      OneRound(a, w[t % 16], t, fi, start, schedule);
      fi, fib := NextCounters(t, fi, fib);
      t := t + 1;
    }
  }

  /** The counters say which twenty rounds round t belongs to. */
  predicate Counted(t: nat, fi: nat, fib: nat) {
    fib < 20 && fi < 4 && (t < 80 ==> t == 20 * fi + fib)
  }

  method NextCounters(ghost t: nat, fi: nat, fib: nat) returns (fi': nat, fib': nat)
    requires t < 80 && Counted(t, fi, fib)
    ensures Counted(t + 1, fi', fib')
  {
    fi', fib' := fi, fib + 1;
    if fib' == 20 {
      fib' := 0;
      fi' := (fi + 1) % 4;
    }
  }

  /** Round t, with the function and the constant of table entry fi. */
  method OneRound(a: array<word>, word: word, ghost t: nat, fi: nat, ghost start: State, ghost schedule: seq<word>)
    requires a.Length == 5 && t < |schedule| == ROUNDS && word == schedule[t] && fi < 4 && 20 * fi <= t < 20 * fi + 20
    requires AsState(a[..]) == Rounds(start, schedule, t)
    modifies a
    ensures AsState(a[..]) == Rounds(start, schedule, t + 1)
  {
    RoundStep(a[..], start, schedule, t, fi);
    ghost var before := a[..];
    var temp := Temp(a[0], TableF(fi, a[1], a[2], a[3]), a[4], word, TableK(fi));
    ShiftBuffers(a, temp);
    assert AsState(a[..]) == State(temp, before[0], Rotl30(before[1]), before[2], before[3]);
  }

  /** The circular buffer before round t. */
  ghost predicate UpToDate(w: seq<word>, schedule: seq<word>, t: nat) {
    Circular(w, schedule, t / 16, t % 16)
  }

  /** Brings slot t mod 16 of the circular schedule up to word t. */
  method UpdateSchedule(w: array<word>, t: nat, ghost schedule: seq<word>)
    requires t < 80 && Expanded(schedule) && UpToDate(w[..], schedule, t)
    modifies w
    ensures w.Length == 16 && w[t % 16] == schedule[t] && UpToDate(w[..], schedule, t + 1)
  {
    var s := t % 16;
    ghost var q := t / 16;
    ghost var before := w[..];
    CircularNext(before, schedule, q, s);
    if t >= 16 {
      CircularMix(before, schedule, q, s);
      w[s] := Mix(w[(s + 13) % 16], w[(s + 8) % 16], w[(s + 2) % 16], w[s]);
    }
    assert w[..] == before[s := schedule[t]];
    NextSlot(t);
  }

  lemma NextSlot(t: nat)
    ensures (t + 1) / 16 == if t % 16 < 15 then t / 16 else t / 16 + 1
    ensures (t + 1) % 16 == if t % 16 < 15 then t % 16 + 1 else 0
  {
  }

  /** Moves every buffer one place up, rotates the third and stores the new first. */
  method ShiftBuffers(a: array<word>, temp: word)
    requires a.Length == 5
    modifies a
    ensures a[..] == [temp, old(a[0]), Rotl30(old(a[1])), old(a[2]), old(a[3])]
  {
    a[1], a[2], a[3], a[4] := a[0], a[1], a[2], a[3];
    a[0] := temp;
    a[2] := Rotl30(a[2]);
  }

  lemma RoundStep(a: seq<word>, start: State, schedule: seq<word>, t: nat, fi: nat)
    requires |a| == 5 && t < |schedule| == ROUNDS && fi < 4 && 20 * fi <= t < 20 * fi + 20
    requires AsState(a) == Rounds(start, schedule, t)
    ensures var temp := Temp(a[0], TableF(fi, a[1], a[2], a[3]), a[4], schedule[t], TableK(fi));
            State(temp, a[0], Rotl30(a[1]), a[2], a[3]) == Rounds(start, schedule, t + 1)
  {
    Tables(t, fi, a[1], a[2], a[3]);
  }

  /** A zeroed block holding count bytes of data and the final one bit. */
  method MarkEnd(data: seq<byte>, count: nat) returns (lb: array<byte>)
    requires count <= |data| && count < BLOCK_BYTES
    ensures fresh(lb) && lb[..] == data[..count] + [0x80] + Zeros(63 - count)
  {
    lb := new byte[BLOCK_BYTES](_ => 0);
    forall i | 0 <= i < count {
      lb[i] := data[i];
    }
    lb[count] := lb[count] | 0x80;
  }

  /** Reads the sixteen words of a block, swapping the bytes of each little-endian load. */
  method LoadWords(block: seq<byte>) returns (w: array<word>)
    requires |block| == BLOCK_BYTES
    ensures fresh(w) && w[..] == BlockWords(block)
  {
    w := new word[16];
    var t := 0;
    while t < 16
      invariant 0 <= t <= 16
      invariant forall j :: 0 <= j < t ==> w[j] == WordAt(block, j)
    {
      ByteSwap(block[4 * t], block[4 * t + 1], block[4 * t + 2], block[4 * t + 3]);
      w[t] := ChangeEndian(LoadLittleEndian(block[4 * t], block[4 * t + 1], block[4 * t + 2], block[4 * t + 3]));
      t := t + 1;
    }
  }
}
