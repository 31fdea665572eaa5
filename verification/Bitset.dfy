/** Sets of piece indices packed in one 32-bit word (peer/bitset.h, peer/bitset.c). */
module Bitset {
  import opened Words

  /** The set of piece indices a word stands for. */
  ghost function Bits(x: uint32): set<nat> {
    set i: nat | 0 <= i < 32 && Bit(x, i)
  }

  /** The indices 0 .. n-1. */
  ghost function Below(n: nat): (r: set<nat>)
    ensures forall i: nat :: i in r <==> i < n
    ensures |r| == n
  {
    if n == 0 then {} else Below(n - 1) + {n - 1}
  }

  predicate Get(x: uint32, i: nat)
    requires i < 32
    ensures Get(x, i) <==> i in Bits(x)
  {
    Bit(x, i)
  }

  function Add(x: uint32, i: nat): (r: uint32)
    requires i < 32
    ensures Bits(r) == Bits(x) + {i}
  {
    MaskBits(i);
    UnionBits(x, Pow2(i));
    Or(x, Pow2(i))
  }

  function Clear(x: uint32, i: nat): (r: uint32)
    requires i < 32
    ensures Bits(r) == Bits(x) - {i}
  {
    MaskBits(i);
    Diff(x, Pow2(i))
  }

  function Union(x: uint32, y: uint32): (r: uint32)
    ensures Bits(r) == Bits(x) + Bits(y)
  {
    UnionBits(x, y);
    Or(x, y)
  }

  function Diff(x: uint32, y: uint32): (r: uint32)
    ensures Bits(r) == Bits(x) - Bits(y)
  {
    DiffBits(x, y);
    And(x, Not(y))
  }

  /** Whether every bit of y is set in x. */
  predicate Contains(x: uint32, y: uint32)
    ensures Contains(x, y) <==> Bits(y) <= Bits(x)
  {
    EmptyIffZero(Diff(y, x));
    DiffEmpty(Bits(y), Bits(x));
    Diff(y, x) == 0
  }

  /** (1 << n) - 1; the shift of a signed int is only defined for n < 32. */
  function All(n: nat): (r: uint32)
    requires n < 32
    ensures Bits(r) == Below(n)
  {
    BelowBits(n);
    Pow2(n) - 1
  }

  lemma DiffEmpty<T>(a: set<T>, b: set<T>)
    ensures a - b == {} <==> a <= b
  {
    if a - b == {} {
      forall e | e in a ensures e in b {
        assert e !in a - b;
      }
    }
  }

  lemma BelowBits(n: nat)
    requires n < 32
    ensures Pow2(n) < 0x1_0000_0000 && Bits(Pow2(n) - 1) == Below(n)
  {
    MaskBits(n);
    forall i: nat ensures i in Bits(Pow2(n) - 1) <==> i in Below(n) {
      BelowPow2Bit(n, i);
    }
  }

  lemma UnionBits(x: uint32, y: uint32)
    ensures Or(x, y) < 0x1_0000_0000 && Bits(Or(x, y)) == Bits(x) + Bits(y)
  {
    Pow2_32();
    OrBound(x, y, 32);
    forall j: nat ensures Bit(Or(x, y), j) == (Bit(x, j) || Bit(y, j)) {
      OrBit(x, y, j);
    }
  }

  lemma DiffBits(x: uint32, y: uint32)
    ensures And(x, Not(y)) < 0x1_0000_0000 && Bits(And(x, Not(y))) == Bits(x) - Bits(y)
  {
    Pow2_32();
    AndBound(x, Not(y));
    forall j: nat | j < 32 ensures Bit(And(x, Not(y)), j) == (Bit(x, j) && !Bit(y, j)) {
      AndBit(x, Not(y), j);
      NotBit(y, 32, j);
    }
  }

  lemma MaskBits(i: nat)
    requires i < 32
    ensures Pow2(i) < 0x1_0000_0000 && Bits(Pow2(i)) == {i}
  {
    Pow2_32();
    Pow2Mono(i, 31);
    forall j: nat ensures Bit(Pow2(i), j) == (j == i) {
      Pow2Bit(i, j);
    }
  }

  lemma EmptyIffZero(x: uint32)
    ensures Bits(x) == {} <==> x == 0
  {
    Pow2_32();
    if x != 0 {
      var i := SomeBit(x, 32);
      assert i in Bits(x);
    } else {
      forall j: nat ensures !Bit(0, j) {
        ZeroBit(j);
      }
    }
  }
}
