/** The Secure Hash Algorithm SHA-1 as RFC 3174 defines it: padding in section 4,
    the functions and constants of section 5, computation method 1 in section 6.1. */
module Sha1 {
  import opened Words

  type byte = bv8
  type word = bv32
  /** The twenty octets of a digest, as numbers. */
  type Sha1Digest = seq<uint8>

  const BLOCK_BYTES: nat := 64
  const DIGEST_BYTES: nat := 20
  const ROUNDS: nat := 80

  /** The five word buffers H0..H4 or A..E. */
  datatype State = State(a: word, b: word, c: word, d: word, e: word)

  const INITIAL: State := State(0x67452301, 0xEFCDAB89, 0x98BADCFE, 0x10325476, 0xC3D2E1F0)

  function Rotl1(x: word): word { (x << 1) | (x >> 31) }

  function Rotl5(x: word): word { (x << 5) | (x >> 27) }

  function Rotl30(x: word): word { (x << 30) | (x >> 2) }

  // The forms of FIPS 180-3 section 4.1.1, which both implementations use

  function Ch(x: word, y: word, z: word): word { (x & y) ^ (!x & z) }

  function Maj(x: word, y: word, z: word): word { (x & y) ^ (x & z) ^ (y & z) }

  function Parity(x: word, y: word, z: word): word { x ^ y ^ z }

  /** The exclusive-or forms equal the inclusive-or forms of RFC 3174. */
  lemma Choose(x: word, y: word, z: word)
    ensures Ch(x, y, z) == (x & y) | (!x & z)
  {
  }

  lemma Majority(x: word, y: word, z: word)
    ensures Maj(x, y, z) == (x & y) | (x & z) | (y & z)
  {
  }

  function F(t: nat, b: word, c: word, d: word): word {
    if t < 20 then (b & c) | (!b & d)
    else if t < 40 then b ^ c ^ d
    else if t < 60 then (b & c) | (b & d) | (c & d)
    else b ^ c ^ d
  }

  function K(t: nat): word {
    if t < 20 then 0x5A827999 else if t < 40 then 0x6ED9EBA1 else if t < 60 then 0x8F1BBCDC else 0xCA62C1D6
  }

  /** The expanded word W(t) of a sixteen-word block. */
  function W(block: seq<word>, t: nat): word
    requires |block| == 16
  {
    if t < 16 then block[t]
    else Mix(W(block, t - 3), W(block, t - 8), W(block, t - 14), W(block, t - 16))
  }

  function Mix(w3: word, w8: word, w14: word, w16: word): word {
    Rotl1(w3 ^ w8 ^ w14 ^ w16)
  }

  function Temp(a: word, f: word, e: word, w: word, k: word): word {
    Rotl5(a) + f + e + w + k
  }

  function Round(s: State, t: nat, w: word): State {
    State(Temp(s.a, F(t, s.b, s.c, s.d), s.e, w, K(t)), s.a, Rotl30(s.b), s.c, s.d)
  }

  /** The eighty expanded words of a block. */
  function Schedule(block: seq<word>): (r: seq<word>)
    requires |block| == 16
    ensures |r| == ROUNDS
    ensures forall t :: 0 <= t < ROUNDS ==> r[t] == W(block, t)
  {
    seq(ROUNDS, t requires 0 <= t < ROUNDS => W(block, t))
  }

  /** The buffers after the first t rounds. */
  function Rounds(h: State, schedule: seq<word>, t: nat): State
    requires t <= |schedule| == ROUNDS
  {
    if t == 0 then h else Round(Rounds(h, schedule, t - 1), t - 1, schedule[t - 1])
  }

  ghost function AsState(h: seq<word>): State
    requires |h| == 5
  {
    State(h[0], h[1], h[2], h[3], h[4])
  }

  /** Addition modulo 2^32. */
  function Plus(x: word, y: word): word { x + y }

  function AddState(h: State, s: State): State {
    State(Plus(h.a, s.a), Plus(h.b, s.b), Plus(h.c, s.c), Plus(h.d, s.d), Plus(h.e, s.e))
  }

  function Compress(h: State, block: seq<word>): State
    requires |block| == 16
  {
    AddState(h, Rounds(h, Schedule(block), ROUNDS))
  }

  /** Four bytes, most significant first. */
  function WordOf(b0: byte, b1: byte, b2: byte, b3: byte): word {
    ((b0 as word) << 24) | ((b1 as word) << 16) | ((b2 as word) << 8) | (b3 as word)
  }

  function WordAt(block: seq<byte>, t: nat): word
    requires |block| == BLOCK_BYTES && t < 16
  {
    WordOf(block[4 * t], block[4 * t + 1], block[4 * t + 2], block[4 * t + 3])
  }

  function BlockWords(block: seq<byte>): (r: seq<word>)
    requires |block| == BLOCK_BYTES
    ensures |r| == 16 && forall t :: 0 <= t < 16 ==> r[t] == WordAt(block, t)
  {
    seq(16, t requires 0 <= t < 16 => WordAt(block, t))
  }

  /** The state after hashing a whole number of blocks. */
  function Hash(bytes: seq<byte>): State
    requires |bytes| % BLOCK_BYTES == 0
  {
    if bytes == [] then INITIAL
    else
      var rest := |bytes| - BLOCK_BYTES;
      Compress(Hash(bytes[..rest]), BlockWords(bytes[rest..]))
  }

  function Zeros(n: nat): (r: seq<byte>)
    ensures |r| == n
  {
    seq(n, i => 0)
  }

  /** Byte i of a 64-bit number, byte 0 being the most significant. */
  function LengthByte(n: nat, i: nat): byte
    requires i < 8
  {
    (n / PlaceValue(i) % 256) as byte
  }

  /** A number below 256 survives as a byte. */
  lemma ByteBack(x: nat)
    requires x < 256
    ensures (x as byte) as nat == x
  {
    ByteDigits(x / 16, x % 16);
  }

  lemma ByteDigits(high: nat, low: nat)
    requires high < 16 && low < 16
    ensures ((16 * high + low) as byte) as nat == 16 * high + low
  {
  }

  function PlaceValue(i: nat): (r: nat)
    ensures r > 0
  {
    if i == 0 then 0x100_0000_0000_0000
    else if i == 1 then 0x1_0000_0000_0000
    else if i == 2 then 0x100_0000_0000
    else if i == 3 then 0x1_0000_0000
    else if i == 4 then 0x100_0000
    else if i == 5 then 0x1_0000
    else if i == 6 then 0x100
    else 1
  }

  function LengthBytes(n: nat): (r: seq<byte>)
    ensures |r| == 8
  {
    seq(8, i requires 0 <= i < 8 => LengthByte(n, i))
  }

  /** The length field counts bits modulo 2^64. */
  const WRAP64: nat := 0x1_0000_0000_0000_0000

  /** The number of zero bytes between the mark and the length. */
  function PadZeros(length: nat): (r: nat)
    ensures r < BLOCK_BYTES && (length + 1 + r + 8) % BLOCK_BYTES == 0
  {
    (119 - length % 64) % 64
  }

  function Padded(message: seq<byte>): (r: seq<byte>)
    ensures |r| % BLOCK_BYTES == 0
  {
    message + [0x80] + Zeros(PadZeros(|message|)) + LengthBytes(8 * |message|)
  }

  function WordByte(w: word, i: nat): uint8
    requires i < 4
  {
    (if i == 0 then w >> 24 else if i == 1 then (w >> 16) & 0xFF
     else if i == 2 then (w >> 8) & 0xFF else w & 0xFF) as nat
  }

  function WordAtIndex(s: State, i: nat): word
    requires i < 5
  {
    if i == 0 then s.a else if i == 1 then s.b else if i == 2 then s.c else if i == 3 then s.d else s.e
  }

  function WordBytes(w: word): Sha1Digest {
    [WordByte(w, 0), WordByte(w, 1), WordByte(w, 2), WordByte(w, 3)]
  }

  /** The bytes of the first n words. */
  function FirstBytes(s: State, n: nat): (r: Sha1Digest)
    requires n <= 5
    ensures |r| == 4 * n
  {
    if n == 0 then [] else FirstBytes(s, n - 1) + WordBytes(WordAtIndex(s, n - 1))
  }

  function StateBytes(s: State): (r: Sha1Digest)
    ensures |r| == DIGEST_BYTES
  {
    FirstBytes(s, 5)
  }

  lemma {:induction false} FirstBytesAt(s: State, n: nat, q: nat, k: nat)
    requires q < n <= 5 && k < 4
    ensures FirstBytes(s, n)[4 * q + k] == WordByte(WordAtIndex(s, q), k)
  {
    if q < n - 1 {
      FirstBytesAt(s, n - 1, q, k);
    } else {
      assert FirstBytes(s, n)[4 * q + k] == WordBytes(WordAtIndex(s, q))[k];
    }
  }

  function Digest(message: seq<byte>): (r: Sha1Digest)
    ensures |r| == DIGEST_BYTES
  {
    StateBytes(Hash(Padded(message)))
  }

  /** Hashing one more block. */
  lemma HashAppend(bytes: seq<byte>, block: seq<byte>)
    requires |bytes| % BLOCK_BYTES == 0 && |block| == BLOCK_BYTES
    ensures (|bytes| + |block|) % BLOCK_BYTES == 0
    ensures Hash(bytes + block) == Compress(Hash(bytes), BlockWords(block))
  {
    assert (bytes + block)[..|bytes|] == bytes;
    assert (bytes + block)[|bytes|..] == block;
  }

  /** Padding when the last block has room for the mark and the length. */
  lemma PadOne(done: seq<byte>, tail: seq<byte>)
    requires |done| % BLOCK_BYTES == 0 && |tail| < 56
    ensures Padded(done + tail)
         == done + (tail + [0x80] + Zeros(55 - |tail|) + LengthBytes(8 * (|done| + |tail|)))
  {
    assert |done + tail| % 64 == |tail|;
    Reassociate(done, tail, [0x80], Zeros(55 - |tail|), LengthBytes(8 * (|done| + |tail|)));
  }

  lemma Reassociate(a: seq<byte>, b: seq<byte>, c: seq<byte>, d: seq<byte>, e: seq<byte>)
    ensures a + b + c + d + e == a + (b + c + d + e)
    ensures a + b + c + d + e == a + (b + c) + (d + e)
  {
  }

  /** Padding when the length needs a block of its own. */
  lemma PadTwo(done: seq<byte>, tail: seq<byte>)
    requires |done| % BLOCK_BYTES == 0 && 56 <= |tail| < BLOCK_BYTES
    ensures Padded(done + tail)
         == done + (tail + [0x80] + Zeros(63 - |tail|)) + (Zeros(56) + LengthBytes(8 * (|done| + |tail|)))
  {
    assert |done + tail| % 64 == |tail|;
    assert PadZeros(|done + tail|) == 119 - |tail|;
    assert Zeros(119 - |tail|) == Zeros(63 - |tail|) + Zeros(56);
  }

  lemma HashPadOne(done: seq<byte>, tail: seq<byte>)
    requires |done| % BLOCK_BYTES == 0 && |tail| < 56
    ensures var last := tail + [0x80] + Zeros(55 - |tail|) + LengthBytes(8 * (|done| + |tail|));
            Hash(Padded(done + tail)) == Compress(Hash(done), BlockWords(last))
  {
    var last := tail + [0x80] + Zeros(55 - |tail|) + LengthBytes(8 * (|done| + |tail|));
    PadOne(done, tail);
    HashAppend(done, last);
  }

  lemma HashPadTwo(done: seq<byte>, tail: seq<byte>)
    requires |done| % BLOCK_BYTES == 0 && 56 <= |tail| < BLOCK_BYTES
    ensures var first := tail + [0x80] + Zeros(63 - |tail|);
            var last := Zeros(56) + LengthBytes(8 * (|done| + |tail|));
            Hash(Padded(done + tail)) == Compress(Compress(Hash(done), BlockWords(first)), BlockWords(last))
  {
    var first := tail + [0x80] + Zeros(63 - |tail|);
    var last := Zeros(56) + LengthBytes(8 * (|done| + |tail|));
    PadTwo(done, tail);
    HashAppend(done, first);
    HashAppend(done + first, last);
  }

  /** A hash under way: the state covers the whole blocks of the message, the rest is buffered. */
  ghost predicate Absorbed(state: State, buffered: seq<byte>, message: seq<byte>) {
    |buffered| < BLOCK_BYTES
    && exists done: seq<byte> {:trigger Covers(state, done)} :: Covers(state, done) && message == done + buffered
  }

  ghost predicate Covers(state: State, done: seq<byte>) {
    |done| % BLOCK_BYTES == 0 && state == Hash(done)
  }

  lemma AbsorbSome(state: State, buffered: seq<byte>, message: seq<byte>, data: seq<byte>)
    requires Absorbed(state, buffered, message) && |buffered| + |data| < BLOCK_BYTES
    ensures Absorbed(state, buffered + data, message + data)
  {
    var done :| Covers(state, done) && message == done + buffered;
    assert message + data == done + (buffered + data);
  }

  lemma AbsorbBlock(state: State, buffered: seq<byte>, message: seq<byte>, data: seq<byte>)
    requires Absorbed(state, buffered, message) && |buffered| + |data| == BLOCK_BYTES
    ensures Absorbed(Compress(state, BlockWords(buffered + data)), [], message + data)
  {
    var done :| Covers(state, done) && message == done + buffered;
    HashAppend(done, buffered + data);
    assert message + data == done + (buffered + data);
    assert message + data + [] == message + data;
    assert Covers(Compress(state, BlockWords(buffered + data)), message + data);
  }
}
