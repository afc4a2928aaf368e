/** Machine integers as bounded mathematical integers, with the bitwise operators
    that the bitmap and the page tables use. */
module Bits {

  const TWO_64: nat := 0x1_0000_0000_0000_0000
  const TWO_52: nat := 0x10_0000_0000_0000

  type Byte = x: int | 0 <= x < 256

  type Bytes = seq<Byte>

  type Word = x: int | 0 <= x < TWO_64

  // Bit k of x, that is (x >> k) & 1.
  predicate Bit(x: nat, k: nat) {
    if k == 0 then x % 2 == 1 else Bit(x / 2, k - 1)
  }

  // x >> k is division by 2^k.
  lemma {:induction false} BitIs(x: nat, k: nat)
    ensures Pow2(k) > 0
    ensures Bit(x, k) <==> x / Pow2(k) % 2 == 1
  {
    if k > 0 {
      BitIs(x / 2, k - 1);
      HalfFirst(x, Pow2(k - 1));
    }
  }

  lemma HalfFirst(x: nat, p: nat)
    requires p > 0
    ensures x / 2 / p == x / (2 * p)
  {
    var q := x / 2 / p;
    var r := x / 2 % p;
    assert x / 2 == p * q + r;
    assert x == 2 * (x / 2) + x % 2;
    assert x == (2 * p) * q + (2 * r + x % 2);
    DivUnique(x, 2 * p, q, 2 * r + x % 2);
  }

  lemma DivUnique(x: nat, d: nat, q: nat, r: nat)
    requires d > 0 && x == d * q + r && r < d
    ensures x / d == q
  {
    var k := x / d - q;
    assert x == d * (x / d) + x % d;
    assert d * k == r - x % d;
  }

  function Or(a: nat, b: nat): nat
    decreases a + b
  {
    if a == 0 && b == 0 then 0
    else (if a % 2 == 1 || b % 2 == 1 then 1 else 0) + 2 * Or(a / 2, b / 2)
  }

  function And(a: nat, b: nat): nat
    decreases a + b
  {
    if a == 0 && b == 0 then 0
    else (if a % 2 == 1 && b % 2 == 1 then 1 else 0) + 2 * And(a / 2, b / 2)
  }

  // 1 << k
  function Pow2(k: nat): nat {
    if k == 0 then 1 else 2 * Pow2(k - 1)
  }

  lemma {:induction false} ZeroBit(k: nat)
    ensures !Bit(0, k)
  {
    if k > 0 {
      ZeroBit(k - 1);
    }
  }

  lemma {:induction false} OrBit(a: nat, b: nat, k: nat)
    ensures Bit(Or(a, b), k) <==> Bit(a, k) || Bit(b, k)
  {
    if a == 0 && b == 0 {
      ZeroBit(k);
    } else if k > 0 {
      OrBit(a / 2, b / 2, k - 1);
    }
  }

  lemma {:induction false} AndBit(a: nat, b: nat, k: nat)
    ensures Bit(And(a, b), k) <==> Bit(a, k) && Bit(b, k)
  {
    if a == 0 && b == 0 {
      ZeroBit(k);
    } else if k > 0 {
      AndBit(a / 2, b / 2, k - 1);
    }
  }

  lemma {:induction false} Pow2Bit(k: nat, j: nat)
    ensures Bit(Pow2(k), j) <==> j == k
  {
    if k == 0 {
      if j > 0 {
        ZeroBit(j - 1);
      }
    } else if j > 0 {
      Pow2Bit(k - 1, j - 1);
    }
  }

  lemma {:induction false} OnesBit(n: nat, j: nat)
    ensures Pow2(n) >= 1
    ensures Bit(Pow2(n) - 1, j) <==> j < n
  {
    if n == 0 {
      ZeroBit(j);
    } else if j > 0 {
      OnesBit(n - 1, j - 1);
    } else {
      OnesBit(n - 1, 0);
    }
  }

  // ~(1 << k), cut to n bits
  lemma {:induction false} MaskBit(n: nat, k: nat, j: nat)
    requires k < n
    ensures Pow2(k) < Pow2(n)
    ensures Bit(Pow2(n) - 1 - Pow2(k), j) <==> j < n && j != k
  {
    OnesBit(n - 1, if j > 0 then j - 1 else 0);
    if k == 0 {
      assert (Pow2(n) - 2) / 2 == Pow2(n - 1) - 1;
    } else {
      MaskBit(n - 1, k - 1, if j > 0 then j - 1 else 0);
      assert (Pow2(n) - 1 - Pow2(k)) / 2 == Pow2(n - 1) - 1 - Pow2(k - 1);
    }
  }

  lemma {:induction false} OrBound(a: nat, b: nat, k: nat)
    requires a < Pow2(k) && b < Pow2(k)
    ensures Or(a, b) < Pow2(k)
  {
    if k > 0 && !(a == 0 && b == 0) {
      OrBound(a / 2, b / 2, k - 1);
    }
  }

  lemma {:induction false} AndBound(a: nat, b: nat)
    ensures And(a, b) <= a
    decreases a + b
  {
    if !(a == 0 && b == 0) {
      AndBound(a / 2, b / 2);
    }
  }

  lemma {:induction false} OrZero(a: nat)
    ensures Or(a, 0) == a
  {
    if a > 0 {
      OrZero(a / 2);
    }
  }

  // q << k
  function Shl(q: nat, k: nat): nat {
    if k == 0 then q else 2 * Shl(q, k - 1)
  }

  // Or with a number below 1 << k leaves the digits from k on alone.
  lemma {:induction false} OrLow(q: nat, y: nat, z: nat, k: nat)
    requires y < Pow2(k) && z < Pow2(k)
    ensures Or(Shl(q, k) + y, z) == Shl(q, k) + Or(y, z)
  {
    if k == 0 {
      OrZero(q);
    } else {
      OrLow(q, y / 2, z / 2, k - 1);
      OrStep(Shl(q, k - 1), y, z);
    }
  }

  lemma Shl12(q: nat)
    ensures Shl(q, 12) == 4096 * q
  {
    assert Shl(q, 1) == 2 * q;
    assert Shl(q, 2) == 4 * q;
    assert Shl(q, 4) == 16 * q;
    assert Shl(q, 6) == 64 * q;
    assert Shl(q, 8) == 256 * q;
    assert Shl(q, 10) == 1024 * q;
  }

  lemma OrStep(h: nat, y: nat, z: nat)
    requires Or(h + y / 2, z / 2) == h + Or(y / 2, z / 2)
    ensures Or(2 * h + y, z) == 2 * h + Or(y, z)
  {
    assert (2 * h + y) / 2 == h + y / 2;
    if 2 * h + y == 0 && z == 0 {
    } else if y == 0 && z == 0 {
      OrZero(2 * h);
    }
  }

  // A word or-ed with flag bits below a page offset keeps its page number; a page address
  // keeps the flags as its offset.
  lemma OrPage(x: nat, flags: nat)
    requires flags < 4096
    ensures Or(x, flags) / 4096 == x / 4096
    ensures x % 4096 == 0 ==> Or(x, flags) % 4096 == flags
  {
    Pow2Values();
    OrLow(x / 4096, x % 4096, flags, 12);
    Shl12(x / 4096);
    OrBound(x % 4096, flags, 12);
    OrCommutes(0, flags);
    OrZero(flags);
    assert x == 4096 * (x / 4096) + x % 4096;
  }

  lemma {:induction false} OrCommutes(a: nat, b: nat)
    ensures Or(a, b) == Or(b, a)
    decreases a + b
  {
    if !(a == 0 && b == 0) {
      OrCommutes(a / 2, b / 2);
    }
  }

  lemma Pow2Values()
    ensures Pow2(8) == 256 && Pow2(12) == 4096 && Pow2(64) == TWO_64
  {
    assert Pow2(4) == 16;
    assert Pow2(8) == 256;
    assert Pow2(12) == 4096;
    assert Pow2(16) == 0x1_0000;
    assert Pow2(20) == 0x10_0000;
    assert Pow2(24) == 0x100_0000;
    assert Pow2(28) == 0x1000_0000;
    assert Pow2(32) == 0x1_0000_0000;
    assert Pow2(36) == 0x10_0000_0000;
    assert Pow2(40) == 0x100_0000_0000;
    assert Pow2(44) == 0x1000_0000_0000;
    assert Pow2(48) == 0x1_0000_0000_0000;
    assert Pow2(52) == 0x10_0000_0000_0000;
    assert Pow2(56) == 0x100_0000_0000_0000;
    assert Pow2(60) == 0x1000_0000_0000_0000;
    assert Pow2(64) == 0x1_0000_0000_0000_0000;
  }

  lemma OrWord(a: Word, b: Word)
    ensures Or(a, b) < TWO_64
  {
    Pow2Values();
    OrBound(a, b, 64);
  }
}
