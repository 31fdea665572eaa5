/** Counting set bits by parallel addition (peer/bitset.c; Hacker's Delight, figure 5-2). */
module Popcount {
  import opened Arithmetic
  import opened Words
  import opened Bitset

  /** The number of set bits, one method for each line of the computation; no value leaves 32 bits. */
  method Count(x: uint32) returns (r: nat)
    ensures r == |Bits(x)|
  {
    OnesIsCardinality(x);
    var pairs := CountPairs(x);
    var nibbles := CountNibbles(pairs);
    var bytes := CountBytes(nibbles);
    r := AddUp(bytes);
  }

  /** Each base-4 digit becomes the number of its set bits. */
  method CountPairs(x: uint32) returns (r: uint32)
    ensures Sum4(r) == Ones(x)
  {
    PairsStage(x);
    r := x - And(x / 2, 0x5555_5555);
  }

  method CountNibbles(x: uint32) returns (r: uint32)
    ensures Sum16(r) == Sum4(x) && Small16(r)
  {
    NibblesStage(x);
    r := And(x, 0x3333_3333) + And(x / 4, 0x3333_3333);
  }

  method CountBytes(x: uint32) returns (r: uint32)
    requires Small16(x)
    ensures Sum256(r) == Sum16(x) && Small256(r)
  {
    BytesStage(x);
    r := And(x + x / 16, 0x0F0F_0F0F);
  }

  method AddUp(x: uint32) returns (r: nat)
    requires Small256(x)
    ensures r == Sum256(x)
  {
    AddBytes(x);
    var y: uint32 := x + x / 256;
    var z: uint32 := y + y / 65536;
    LowSix(z);
    r := And(z, 0x3F);
  }

  lemma PairsStage(x: uint32)
    ensures var m := And(x / 2, 0x5555_5555);
            m <= x && x - m < 0x1_0000_0000 && Sum4(x - m) == Ones(x)
  {
    assert Mask4(0x55, 0x100);
    assert Mask4(0x5555, 0x1_0000);
    assert Mask4(0x55_5555, 0x100_0000);
    Pairs(x, 0x5555_5555, 0x1_0000_0000);
  }

  lemma NibblesStage(x: uint32)
    ensures var y := And(x, 0x3333_3333) + And(x / 4, 0x3333_3333);
            y < 0x1_0000_0000 && Sum16(y) == Sum4(x) && Small16(y)
  {
    Nibbles(x, 0x3333_3333, 0x1_0000_0000);
  }

  lemma BytesStage(x: uint32)
    requires Small16(x)
    ensures var y := And(x + x / 16, 0x0F0F_0F0F);
            y < 0x1_0000_0000 && Sum256(y) == Sum16(x) && Small256(y)
  {
    Bytes(x, 0x0F0F_0F0F, 0x1_0000_0000);
  }

  // The digits of a number in base 2, 4, 16 and 256, added up.

  ghost function Ones(x: nat): nat {
    if x == 0 then 0 else x % 2 + Ones(x / 2)
  }

  ghost function Sum4(x: nat): nat {
    if x == 0 then 0 else x % 4 + Sum4(x / 4)
  }

  ghost function Sum16(x: nat): nat {
    if x == 0 then 0 else x % 16 + Sum16(x / 16)
  }

  ghost function Sum256(x: nat): nat {
    if x == 0 then 0 else x % 256 + Sum256(x / 256)
  }

  /** No base-16 digit exceeds six, so adding two neighbours cannot carry. */
  ghost predicate Small16(x: nat) {
    x == 0 || (x % 16 <= 6 && Small16(x / 16))
  }

  ghost predicate Small256(x: nat) {
    x == 0 || (x % 256 <= 12 && Small256(x / 256))
  }

  // Masks repeating 01, 0011 and 00001111 up to a given power of the base

  ghost predicate Mask4(m: nat, size: nat) {
    (m == 0 && size == 1) || (m % 4 == 1 && size % 4 == 0 && Mask4(m / 4, size / 4))
  }

  ghost predicate Mask16(m: nat, size: nat) {
    (m == 0 && size == 1) || (m % 16 == 3 && size % 16 == 0 && Mask16(m / 16, size / 16))
  }

  ghost predicate Mask256(m: nat, size: nat) {
    (m == 0 && size == 1) || (m % 256 == 15 && size % 256 == 0 && Mask256(m / 256, size / 256))
  }

  lemma {:induction false} Pairs(x: nat, mask: nat, size: nat)
    requires Mask4(mask, size) && x < size
    ensures var m := And(x / 2, mask);
            m <= x && x - m < size && Sum4(x - m) == Ones(x)
  {
    if mask > 0 {
      var q, m, n := x / 4, mask / 4, size / 4;
      assert mask == 4 * m + 1 && size == 4 * n && x == 4 * q + x % 4;
      Pairs(q, m, n);
      PairsStep(q, x % 4, m, n);
    }
  }

  lemma PairsStep(q: nat, r: nat, mask: nat, size: nat)
    requires r < 4
    requires var m := And(q / 2, mask); m <= q && q - m < size && Sum4(q - m) == Ones(q)
    ensures var x, m := 4 * q + r, And((4 * q + r) / 2, 4 * mask + 1);
            m <= x && x - m < 4 * size && Sum4(x - m) == Ones(x)
  {
    PairsMask(q, r, mask);
    Sum4Step(q - And(q / 2, mask), r - r / 2);
    OnesStep(q, r);
  }

  lemma PairsMask(q: nat, r: nat, m: nat)
    requires r < 4
    ensures And((4 * q + r) / 2, 4 * m + 1) == 4 * And(q / 2, m) + r / 2
  {
    var h := 2 * (q % 2) + r / 2;
    assert (4 * q + r) / 2 == 4 * (q / 2) + h;
    And4(q / 2, h, m, 1);
    assert And(h, 1) == r / 2;
  }

  lemma {:induction false} Nibbles(x: nat, mask: nat, size: nat)
    requires Mask16(mask, size) && x < size
    ensures var y := And(x, mask) + And(x / 4, mask);
            y < size && Sum16(y) == Sum4(x) && Small16(y)
  {
    if mask > 0 {
      var q, h, b, a := SplitNibble(x);
      var m, n := mask / 16, size / 16;
      assert mask == 16 * m + 3 && size == 16 * n;
      Nibbles(q, m, n);
      NibblesStep(q, b, a, m, n);
    }
  }

  lemma NibblesStep(q: nat, b: nat, a: nat, m: nat, size: nat)
    requires a < 4 && b < 4
    requires var t := And(q, m) + And(q / 4, m); t < size && Sum16(t) == Sum4(q) && Small16(t)
    ensures var h := 4 * q + b;
            var y := And(4 * h + a, 16 * m + 3) + And(h, 16 * m + 3);
            y < 16 * size && Sum16(y) == Sum4(4 * h + a) && Small16(y)
  {
    NibblesMask(q, b, a, m);
    NibblesSum(And(q, m) + And(q / 4, m), q, b, a, a + b);
  }

  lemma SplitNibble(x: nat) returns (q: nat, h: nat, b: nat, a: nat)
    ensures a < 4 && b < 4 && h == x / 4 && h == 4 * q + b && x == 4 * h + a && q == x / 16
  {
    h := x / 4;
    q, b, a := h / 4, h % 4, x % 4;
  }

  lemma NibblesSum(t: nat, q: nat, b: nat, a: nat, e: nat)
    requires a < 4 && b < 4 && e == a + b && Sum16(t) == Sum4(q) && Small16(t)
    ensures Sum16(16 * t + e) == Sum4(4 * (4 * q + b) + a) && Small16(16 * t + e)
  {
    Sum16Step(t, e);
    SumTwoDigits(q, b, a);
  }

  lemma SumTwoDigits(q: nat, b: nat, a: nat)
    requires a < 4 && b < 4
    ensures Sum4(4 * (4 * q + b) + a) == Sum4(q) + b + a
  {
    var h := 4 * q + b;
    Sum4Step(h, a);
    Sum4Step(q, b);
  }

  lemma NibblesMask(q: nat, b: nat, a: nat, m: nat)
    requires a < 4 && b < 4
    ensures And(4 * (4 * q + b) + a, 16 * m + 3) == 16 * And(q, m) + a
    ensures And(4 * q + b, 16 * m + 3) == 16 * And(q / 4, m) + b
  {
    NibbleKeep(q, b, a, m);
    NibbleKeep(q / 4, q % 4, b, m);
  }

  lemma NibbleKeep(q: nat, b: nat, a: nat, m: nat)
    requires a < 4 && b < 4
    ensures And(4 * (4 * q + b) + a, 16 * m + 3) == 16 * And(q, m) + a
  {
    And4(4 * q + b, a, 4 * m, 3);
    And4(q, b, m, 0);
    Low(a, 2);
  }

  lemma {:induction false} Bytes(x: nat, mask: nat, size: nat)
    requires Mask256(mask, size) && x < size && Small16(x)
    ensures var y := And(x + x / 16, mask);
            y < size && Sum256(y) == Sum16(x) && Small256(y)
  {
    if mask > 0 {
      var q, b, a := SplitByte(x);
      var m, n := mask / 256, size / 256;
      assert mask == 256 * m + 15 && size == 256 * n;
      Bytes(q, m, n);
      BytesStep(q, b, a, m, n);
    }
  }

  lemma SplitByte(x: nat) returns (q: nat, b: nat, a: nat)
    requires Small16(x)
    ensures x == 16 * (16 * q + b) + a && a <= 6 && b <= 6 && Small16(q) && q == x / 256
  {
    q, b, a := x / 16 / 16, x / 16 % 16, x % 16;
    assert Small16(x / 16);
  }

  lemma BytesStep(q: nat, b: nat, a: nat, m: nat, bound: nat)
    requires a <= 6 && b <= 6 && Small16(q)
    requires var t := And(q + q / 16, m); t < bound && Sum256(t) == Sum16(q) && Small256(t)
    ensures var x, m' := 16 * (16 * q + b) + a, 256 * m + 15;
            var y := And(x + x / 16, m');
            y < 256 * bound && Sum256(y) == Sum16(x) && Small256(y)
  {
    BytesMask(q, b, a, m);
    Sum256Step(And(q + q / 16, m), a + b);
    SumTwoNibbles(q, b, a);
  }

  lemma SumTwoNibbles(q: nat, b: nat, a: nat)
    requires a <= 6 && b <= 6 && Small16(q)
    ensures Sum16(16 * (16 * q + b) + a) == Sum16(q) + b + a
  {
    Sum16Step(q, b);
    Sum16Step(16 * q + b, a);
  }

  lemma BytesMask(q: nat, b: nat, a: nat, m: nat)
    requires a <= 6 && b <= 6 && q % 16 <= 6
    ensures var x := 16 * (16 * q + b) + a;
            And(x + x / 16, 256 * m + 15) == 256 * And(q + q / 16, m) + (a + b)
  {
    var z, c := q + q / 16, b + q % 16;
    var x := 16 * (16 * q + b) + a;
    assert x / 16 == 16 * q + b;
    assert x + x / 16 == 16 * (16 * z + c) + (a + b);
    HexKeep(16 * z + c, a + b, 16 * m);
    HexDrop(z, c, m);
  }

  lemma HexKeep(q: nat, d: nat, m: nat)
    requires d < 16
    ensures And(16 * q + d, 16 * m + 15) == 16 * And(q, m) + d
  {
    var three := 3;
    HexKeepDigits(q, d / 4, d % 4, m, three);
  }

  lemma HexKeepDigits(q: nat, d1: nat, d0: nat, m: nat, three: nat)
    requires d1 < 4 && d0 < 4 && three == 3
    ensures And(16 * q + (4 * d1 + d0), 16 * m + 15) == 16 * And(q, m) + (4 * d1 + d0)
  {
    And4(4 * q + d1, d0, 4 * m + three, three);
    And4(q, d1, m, three);
    LowTwo(d0, three);
    LowTwo(d1, three);
  }

  lemma LowTwo(r: nat, three: nat)
    requires r < 4 && three == 3
    ensures And(r, three) == r
  {
    Low(r, 2);
    assert Pow2(2) == 4;
  }

  lemma HexDrop(q: nat, d: nat, m: nat)
    requires d < 16
    ensures And(16 * q + d, 16 * m) == 16 * And(q, m)
  {
    And4(4 * q + d / 4, d % 4, 4 * m, 0);
    And4(q, d / 4, m, 0);
  }

  lemma AddBytes(x: nat)
    requires x < 0x1_0000_0000 && Small256(x)
    ensures var y := x + x / 256;
            && y < 0x1_0000_0000 && y + y / 65536 < 0x1_0000_0000
            && (y + y / 65536) % 64 == Sum256(x)
  {
    var x1 := x / 256;
    var x2 := x1 / 256;
    var d0, d1, d2, d3 := x % 256, x1 % 256, x2 % 256, x2 / 256;
    assert Small256(x1);
    assert Small256(x2);
    assert Small256(d3);
    assert Sum256(x) == d0 + Sum256(x1) && Sum256(x1) == d1 + Sum256(x2);
    assert Sum256(x2) == d2 + Sum256(d3);
    assert Sum256(d3) == d3;
    AddDigits(d0, d1, d2, d3);
  }

  lemma AddDigits(d0: nat, d1: nat, d2: nat, d3: nat)
    requires d0 <= 12 && d1 <= 12 && d2 <= 12 && d3 <= 12
    ensures var x := d0 + 256 * d1 + 65536 * d2 + 16777216 * d3;
            var y := x + x / 256;
            && y < 0x1_0000_0000 && y + y / 65536 < 0x1_0000_0000
            && (y + y / 65536) % 64 == d0 + d1 + d2 + d3
  {
    DivShift(d1 + 256 * d2 + 65536 * d3, d0, 256);
    AddHalves(d0, d1, d2, d3, d1 + 256 * d2 + 65536 * d3);
  }

  lemma AddHalves(d0: nat, d1: nat, d2: nat, d3: nat, upper: nat)
    requires d0 <= 12 && d1 <= 12 && d2 <= 12 && d3 <= 12 && upper == d1 + 256 * d2 + 65536 * d3
    ensures var y := 256 * upper + d0 + upper;
            && y < 0x1_0000_0000 && y + y / 65536 < 0x1_0000_0000
            && (y + y / 65536) % 64 == d0 + d1 + d2 + d3
  {
    var low, high := (d0 + d1) + 256 * (d1 + d2), (d2 + d3) + 256 * d3;
    DivShift(high, low, 65536);
    DivShift(4 * (d1 + d2) + 1024 * (d2 + d3) + 262148 * d3, d0 + d1 + d2 + d3, 64);
  }

  lemma LowSix(z: nat)
    ensures And(z, 0x3F) == z % 64
  {
    var c, d := z / 16, z % 16;
    var q, r := c / 4, c % 4;
    LowSixDigits(q, r, d);
    DivShift(q, 16 * r + d, 64);
    assert z == q * 64 + (16 * r + d);
  }

  lemma LowSixDigits(q: nat, r: nat, d: nat)
    requires r < 4 && d < 16
    ensures And(16 * (4 * q + r) + d, 0x3F) == 16 * r + d
  {
    var zero: nat, three: nat := 0, 3;
    HexKeep(4 * q + r, d, three);
    And4(q, r, zero, three);
    Low(r, 2);
  }

  lemma Sum4Step(q: nat, r: nat)
    requires r < 4
    ensures Sum4(4 * q + r) == Sum4(q) + r
  {
    var x := 4 * q + r;
    assert x / 4 == q && x % 4 == r;
    if x > 0 {
      assert Sum4(x) == x % 4 + Sum4(x / 4);
    }
  }

  lemma Sum16Step(q: nat, r: nat)
    requires r <= 6 && Small16(q)
    ensures Sum16(16 * q + r) == Sum16(q) + r && Small16(16 * q + r)
  {
    var x := 16 * q + r;
    assert x / 16 == q && x % 16 == r;
    if x > 0 {
      assert Sum16(x) == x % 16 + Sum16(x / 16);
    }
  }

  lemma Sum256Step(q: nat, r: nat)
    requires r <= 12 && Small256(q)
    ensures Sum256(256 * q + r) == Sum256(q) + r && Small256(256 * q + r)
  {
    var x := 256 * q + r;
    assert x / 256 == q && x % 256 == r;
    if x > 0 {
      assert Sum256(x) == x % 256 + Sum256(x / 256);
    }
  }

  lemma OnesStep(q: nat, r: nat)
    requires r < 4
    ensures Ones(4 * q + r) == Ones(q) + r % 2 + r / 2
  {
    assert (4 * q + r) / 2 == 2 * q + r / 2;
    assert (2 * q + r / 2) / 2 == q;
  }

  lemma And4(a: nat, r: nat, b: nat, s: nat)
    requires r < 4 && s < 4
    ensures And(4 * a + r, 4 * b + s) == 4 * And(a, b) + And(r, s)
  {
    var r1, r0, s1, s0 := r / 2, r % 2, s / 2, s % 2;
    And2(2 * a + r1, r0, 2 * b + s1, s0);
    And2(a, r1, b, s1);
    And2(r1, r0, s1, s0);
    And2(0, r1, 0, s1);
  }

  lemma And2(a: nat, r: nat, b: nat, s: nat)
    requires r < 2 && s < 2
    ensures And(2 * a + r, 2 * b + s) == 2 * And(a, b) + (if r == 1 && s == 1 then 1 else 0)
  {
    var x, y := 2 * a + r, 2 * b + s;
    assert x / 2 == a && y / 2 == b && x % 2 == r && y % 2 == s;
    if x != 0 && y != 0 {
      assert And(x, y) == 2 * And(x / 2, y / 2) + (if x % 2 == 1 && y % 2 == 1 then 1 else 0);
    }
  }

  lemma {:induction false} Low(r: nat, n: nat)
    requires r < Pow2(n)
    ensures And(r, Pow2(n) - 1) == r
  {
    if n > 0 {
      Low(r / 2, n - 1);
      And2(r / 2, r % 2, Pow2(n - 1) - 1, 1);
    }
  }

  // Ones is the cardinality of the set of positions

  ghost function BitsBelow(x: nat, n: nat): set<nat> {
    set i: nat | 0 <= i < n && Bit(x, i)
  }

  ghost function Tally(x: nat, n: nat): nat {
    if n == 0 then 0 else Tally(x, n - 1) + (if Bit(x, n - 1) then 1 else 0)
  }

  lemma {:induction false} TallyIsCardinality(x: nat, n: nat)
    ensures |BitsBelow(x, n)| == Tally(x, n)
  {
    if n > 0 {
      TallyIsCardinality(x, n - 1);
      assert BitsBelow(x, n) == BitsBelow(x, n - 1) + (if Bit(x, n - 1) then {n - 1} else {});
    } else {
      assert BitsBelow(x, 0) == {};
    }
  }

  lemma {:induction false} TallyShift(x: nat, n: nat)
    ensures Tally(x, n + 1) == x % 2 + Tally(x / 2, n)
  {
    if n > 0 {
      TallyShift(x, n - 1);
    }
  }

  lemma {:induction false} TallyIsOnes(x: nat, n: nat)
    requires x < Pow2(n)
    ensures Tally(x, n) == Ones(x)
  {
    if n > 0 {
      TallyShift(x, n - 1);
      TallyIsOnes(x / 2, n - 1);
    }
  }

  lemma OnesIsCardinality(x: uint32)
    ensures Ones(x) == |Bits(x)|
  {
    Pow2_32();
    TallyIsOnes(x, 32);
    TallyIsCardinality(x, 32);
    assert BitsBelow(x, 32) == Bits(x);
  }
}
