/** Fixed-width unsigned integers as bounded naturals, with the bitwise operators of C. */
module Words {
  type uint8 = x: nat | x < 0x100
  type uint16 = x: nat | x < 0x1_0000
  type uint32 = x: nat | x < 0x1_0000_0000

  /** 1 << i */
  function Pow2(i: nat): (r: nat)
    ensures r > 0
  {
    if i == 0 then 1 else 2 * Pow2(i - 1)
  }

  /** (x >> i) & 1 */
  predicate Bit(x: nat, i: nat) {
    if i == 0 then x % 2 == 1 else Bit(x / 2, i - 1)
  }

  /** x | y */
  function Or(x: nat, y: nat): nat {
    if x == 0 && y == 0 then 0
    else 2 * Or(x / 2, y / 2) + (if x % 2 == 1 || y % 2 == 1 then 1 else 0)
  }

  /** x & y */
  function And(x: nat, y: nat): nat {
    if x == 0 || y == 0 then 0
    else 2 * And(x / 2, y / 2) + (if x % 2 == 1 && y % 2 == 1 then 1 else 0)
  }

  /** ~x on 32 bits */
  function Not(x: uint32): uint32 {
    0xFFFF_FFFF - x
  }

  lemma {:induction false} OrBit(x: nat, y: nat, i: nat)
    ensures Bit(Or(x, y), i) == (Bit(x, i) || Bit(y, i))
  {
    OrHalf(x, y);
    if i > 0 {
      OrBit(x / 2, y / 2, i - 1);
    }
  }

  lemma OrHalf(x: nat, y: nat)
    ensures Or(x, y) / 2 == Or(x / 2, y / 2)
    ensures Or(x, y) % 2 == 1 <==> x % 2 == 1 || y % 2 == 1
  {
    if x == 0 && y == 0 {
      assert Or(0, 0) == 0;
    } else {
      assert Or(x, y) == 2 * Or(x / 2, y / 2) + (if x % 2 == 1 || y % 2 == 1 then 1 else 0);
    }
  }

  lemma {:induction false} OrBound(x: nat, y: nat, n: nat)
    requires x < Pow2(n) && y < Pow2(n)
    ensures Or(x, y) < Pow2(n)
  {
    if n > 0 {
      OrBound(x / 2, y / 2, n - 1);
    }
  }

  lemma {:induction false} AndBit(x: nat, y: nat, i: nat)
    ensures Bit(And(x, y), i) == (Bit(x, i) && Bit(y, i))
  {
    if x == 0 || y == 0 {
      ZeroBit(i);
    } else if i > 0 {
      AndBit(x / 2, y / 2, i - 1);
      assert And(x, y) / 2 == And(x / 2, y / 2);
    }
  }

  lemma {:induction false} AndBound(x: nat, y: nat)
    ensures And(x, y) <= x && And(x, y) <= y
  {
    if x != 0 && y != 0 {
      AndBound(x / 2, y / 2);
    }
  }

  lemma {:induction false} ZeroBit(i: nat)
    ensures !Bit(0, i)
  {
    if i > 0 {
      ZeroBit(i - 1);
    }
  }

  lemma {:induction false} Pow2Bit(i: nat, j: nat)
    ensures Bit(Pow2(i), j) == (i == j)
  {
    if i > 0 && j > 0 {
      Pow2Bit(i - 1, j - 1);
    } else if j > 0 {
      ZeroBit(j - 1);
    }
  }

  lemma {:induction false} BelowPow2Bit(n: nat, j: nat)
    ensures Bit(Pow2(n) - 1, j) == (j < n)
  {
    if n == 0 {
      ZeroBit(j);
    } else if j > 0 {
      BelowPow2Bit(n - 1, j - 1);
    }
  }

  lemma {:induction false} NotBit(x: nat, n: nat, i: nat)
    requires x < Pow2(n) && i < n
    ensures Bit(Pow2(n) - 1 - x, i) == !Bit(x, i)
  {
    if i > 0 {
      NotBit(x / 2, n - 1, i - 1);
      assert (Pow2(n) - 1 - x) / 2 == Pow2(n - 1) - 1 - x / 2;
    }
  }

  lemma Pow2_32()
    ensures Pow2(32) == 0x1_0000_0000
  {
    assert Pow2(8) == 0x100;
    assert Pow2(16) == 0x1_0000;
    assert Pow2(24) == 0x100_0000;
  }

  lemma {:induction false} Pow2Mono(i: nat, j: nat)
    requires i <= j
    ensures Pow2(i) <= Pow2(j)
  {
    if i < j {
      Pow2Mono(i, j - 1);
    }
  }

  /** A word without bits is zero. */
  lemma {:induction false} SomeBit(x: nat, n: nat) returns (i: nat)
    requires 0 < x < Pow2(n)
    ensures i < n && Bit(x, i)
  {
    if x % 2 == 1 {
      i := 0;
    } else {
      var j := SomeBit(x / 2, n - 1);
      i := j + 1;
    }
  }
}
