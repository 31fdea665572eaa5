/** Packing of basic data types, most significant byte first (peer/pack/pack-basic.c). */
module PackBasic {
  import opened Words

  const ADDRESS_BYTES: nat := 16
  const HASH_BYTES: nat := 20

  /** An IPv6 address and a SHA-1 digest are copied byte by byte. */
  type IpAddress = a: seq<uint8> | |a| == ADDRESS_BYTES witness seq(ADDRESS_BYTES, i => 0)
  type Hash = h: seq<uint8> | |h| == HASH_BYTES witness seq(HASH_BYTES, i => 0)

  function Uint8Bytes(num: uint8): (r: seq<uint8>)
    ensures |r| == 1
  {
    [num]
  }

  function Uint16Bytes(num: uint16): (r: seq<uint8>)
    ensures |r| == 2
  {
    [num / 0x100, num % 0x100]
  }

  function Uint32Bytes(num: uint32): (r: seq<uint8>)
    ensures |r| == 4
  {
    [num / 0x100_0000, num / 0x1_0000 % 0x100, num / 0x100 % 0x100, num % 0x100]
  }

  /** The number with these bytes, most significant first. */
  function Number16(b1: uint8, b0: uint8): uint16 {
    0x100 * b1 + b0
  }

  function Number32(b3: uint8, b2: uint8, b1: uint8, b0: uint8): uint32 {
    0x100_0000 * b3 + 0x1_0000 * b2 + 0x100 * b1 + b0
  }

  /** The bytes at a position of the buffer have been replaced, and nothing else. */
  ghost predicate Wrote(before: seq<uint8>, after: seq<uint8>, pos: nat, bytes: seq<uint8>) {
    pos + |bytes| <= |before| && after == before[..pos] + bytes + before[pos + |bytes|..]
  }

  lemma WroteBoth(a: seq<uint8>, b: seq<uint8>, c: seq<uint8>, pos: nat, x: seq<uint8>, y: seq<uint8>)
    requires Wrote(a, b, pos, x) && Wrote(b, c, pos + |x|, y)
    ensures Wrote(a, c, pos, x + y)
  {
    assert b[..pos + |x|] == a[..pos] + x;
    assert b[pos + |x| + |y|..] == a[pos + |x| + |y|..];
    assert a[..pos] + x + y + a[pos + |x| + |y|..] == a[..pos] + (x + y) + a[pos + |x| + |y|..];
  }

  lemma WroteNothing(a: seq<uint8>, pos: nat)
    requires pos <= |a|
    ensures Wrote(a, a, pos, [])
  {
  }

  /** What lies at a position of the buffer. */
  ghost predicate Holds(buf: seq<uint8>, pos: nat, bytes: seq<uint8>) {
    pos + |bytes| <= |buf| && buf[pos..pos + |bytes|] == bytes
  }

  lemma HoldsBoth(buf: seq<uint8>, pos: nat, x: seq<uint8>, y: seq<uint8>)
    ensures Holds(buf, pos, x + y) <==> Holds(buf, pos, x) && Holds(buf, pos + |x|, y)
  {
    if pos + |x| + |y| <= |buf| {
      var both := buf[pos..pos + |x| + |y|];
      assert both[..|x|] == buf[pos..pos + |x|];
      assert both[|x|..] == buf[pos + |x|..pos + |x| + |y|];
      assert both == both[..|x|] + both[|x|..];
      assert (x + y)[..|x|] == x && (x + y)[|x|..] == y;
    }
  }

  lemma WroteHolds(before: seq<uint8>, after: seq<uint8>, pos: nat, bytes: seq<uint8>)
    requires Wrote(before, after, pos, bytes)
    ensures Holds(after, pos, bytes)
  {
  }

  method PackUint8(buf: array<uint8>, pos: nat, num: uint8) returns (end: nat)
    requires pos + 1 <= buf.Length
    modifies buf
    ensures end == pos + 1 && Wrote(old(buf[..]), buf[..], pos, Uint8Bytes(num))
  {
    buf[pos] := num;
    end := pos + 1;
  }

  method UnpackUint8(buf: seq<uint8>, pos: nat) returns (num: uint8, end: nat)
    requires pos + 1 <= |buf|
    ensures end == pos + 1 && Holds(buf, pos, Uint8Bytes(num))
  {
    num := buf[pos];
    end := pos + 1;
  }

  method PackUint16(buf: array<uint8>, pos: nat, num: uint16) returns (end: nat)
    requires pos + 2 <= buf.Length
    modifies buf
    ensures end == pos + 2 && Wrote(old(buf[..]), buf[..], pos, Uint16Bytes(num))
  {
    buf[pos] := num / 0x100;
    buf[pos + 1] := num % 0x100;
    end := pos + 2;
  }

  method UnpackUint16(buf: seq<uint8>, pos: nat) returns (num: uint16, end: nat)
    requires pos + 2 <= |buf|
    ensures end == pos + 2 && Holds(buf, pos, Uint16Bytes(num))
  {
    var b1: nat, b0: nat := buf[pos], buf[pos + 1];
    Uint16Value(b1, b0);
    num := 0x100 * b1 + b0;
    end := pos + 2;
  }

  method PackUint32(buf: array<uint8>, pos: nat, num: uint32) returns (end: nat)
    requires pos + 4 <= buf.Length
    modifies buf
    ensures end == pos + 4 && Wrote(old(buf[..]), buf[..], pos, Uint32Bytes(num))
  {
    buf[pos] := num / 0x100_0000;
    buf[pos + 1] := num / 0x1_0000 % 0x100;
    buf[pos + 2] := num / 0x100 % 0x100;
    buf[pos + 3] := num % 0x100;
    end := pos + 4;
  }

  method UnpackUint32(buf: seq<uint8>, pos: nat) returns (num: uint32, end: nat)
    requires pos + 4 <= |buf|
    ensures end == pos + 4 && Holds(buf, pos, Uint32Bytes(num))
  {
    var b3: nat, b2: nat, b1: nat, b0: nat := buf[pos], buf[pos + 1], buf[pos + 2], buf[pos + 3];
    Uint32Value(b3, b2, b1, b0);
    num := 0x100_0000 * b3 + 0x1_0000 * b2 + 0x100 * b1 + b0;
    end := pos + 4;
  }

  /** Copies an address or a digest into the buffer. */
  method PackBytes(buf: array<uint8>, pos: nat, bytes: seq<uint8>) returns (end: nat)
    requires pos + |bytes| <= buf.Length
    modifies buf
    ensures end == pos + |bytes| && Wrote(old(buf[..]), buf[..], pos, bytes)
  {
    forall i | 0 <= i < |bytes| {
      buf[pos + i] := bytes[i];
    }
    end := pos + |bytes|;
  }

  method UnpackBytes(buf: seq<uint8>, pos: nat, count: nat) returns (bytes: seq<uint8>, end: nat)
    requires pos + count <= |buf|
    ensures end == pos + count && |bytes| == count && Holds(buf, pos, bytes)
  {
    bytes, end := buf[pos..pos + count], pos + count;
  }

  lemma Uint16Value(b1: nat, b0: nat)
    requires b1 < 0x100 && b0 < 0x100
    ensures Uint16Bytes(0x100 * b1 + b0) == [b1, b0]
  {
  }

  lemma Uint32Value(b3: nat, b2: nat, b1: nat, b0: nat)
    requires b3 < 0x100 && b2 < 0x100 && b1 < 0x100 && b0 < 0x100
    ensures var num := 0x100_0000 * b3 + 0x1_0000 * b2 + 0x100 * b1 + b0;
            num < 0x1_0000_0000 && Uint32Bytes(num) == [b3, b2, b1, b0]
  {
    var num := 0x100_0000 * b3 + 0x1_0000 * b2 + 0x100 * b1 + b0;
    assert num / 0x100_0000 == b3;
    assert num / 0x1_0000 == 0x100 * b3 + b2;
    assert num / 0x100 == 0x100 * (0x100 * b3 + b2) + b1;
  }

  /** Different numbers have different bytes. */
  lemma Uint16Unique(a: uint16, b: uint16)
    requires Uint16Bytes(a) == Uint16Bytes(b)
    ensures a == b
  {
    assert Uint16Bytes(a)[0] == Uint16Bytes(b)[0] && Uint16Bytes(a)[1] == Uint16Bytes(b)[1];
  }

  lemma Uint32Unique(a: uint32, b: uint32)
    requires Uint32Bytes(a) == Uint32Bytes(b)
    ensures a == b
  {
    assert Uint32Bytes(a)[0] == Uint32Bytes(b)[0] && Uint32Bytes(a)[1] == Uint32Bytes(b)[1];
    assert Uint32Bytes(a)[2] == Uint32Bytes(b)[2] && Uint32Bytes(a)[3] == Uint32Bytes(b)[3];
    Digits(a);
    Digits(b);
  }

  lemma Digits(a: nat)
    ensures a == 0x100_0000 * (a / 0x100_0000) + 0x1_0000 * (a / 0x1_0000 % 0x100)
                 + 0x100 * (a / 0x100 % 0x100) + a % 0x100
  {
    assert a / 0x100 / 0x100 == a / 0x1_0000;
    assert a / 0x1_0000 / 0x100 == a / 0x100_0000;
  }
}
