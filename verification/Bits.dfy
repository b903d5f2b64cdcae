/** Shifts and bitwise operators on bytes. */
module Bits {
  import opened Bytes

  // ---------- or, xor, and ----------

  // The modulus m = 2^k bounds the result to k bits; every use below has m = 0x100.

  function XorBits(a: nat, b: nat, m: nat): (r: nat)
    requires m >= 1
    ensures r < m
    decreases m, a
  {
    if m == 1 then 0 else (if a % 2 != b % 2 then 1 else 0) + 2 * XorBits(a / 2, b / 2, m / 2)
  }

  function OrBits(a: nat, b: nat, m: nat): (r: nat)
    requires m >= 1
    ensures r < m
    decreases m, a
  {
    if m == 1 then 0 else (if a % 2 + b % 2 > 0 then 1 else 0) + 2 * OrBits(a / 2, b / 2, m / 2)
  }

  function Xor(a: byte, b: byte): byte { XorBits(a, b, 0x100) }

  function Or(a: byte, b: byte): byte { OrBits(a, b, 0x100) }

  function And(n: nat, mask: nat): nat
    decreases n
  {
    if n == 0 || mask == 0 then 0 else (n % 2) * (mask % 2) + 2 * And(n / 2, mask / 2)
  }

  /** TestMask (base/bit.go). */
  predicate TestMask(n: nat, mask: nat) { And(n, mask) == mask }

  /** The low bits of a, as many as the power of two k has, are zero. */
  predicate LowZero(a: nat, k: nat) { k <= 1 || (a % 2 == 0 && LowZero(a / 2, k / 2)) }

  /** Or of numbers without a common bit is their sum. */
  lemma {:induction false} OrDisjointBits(a: nat, b: nat, k: nat, m: nat)
    requires IsPowerOf2(k) && LowZero(a, k) && b < k && IsPowerOf2(m) && a < m && b < m
    ensures OrBits(a, b, m) == a + b && OrBits(b, a, m) == a + b
    decreases m
  {
    if m != 1 {
      if k == 1 {
        OrDisjointBits(a / 2, 0, 1, m / 2);
      } else {
        OrDisjointBits(a / 2, b / 2, k / 2, m / 2);
      }
    }
  }

  lemma OrNibbles(hi: nat, lo: nat)
    requires hi < 0x10 && lo < 0x10
    ensures Or(hi * 0x10, lo) == hi * 0x10 + lo && Or(0, hi * 0x10 + lo) == hi * 0x10 + lo
  {
    var a := hi * 0x10;
    assert a / 2 == hi * 8 && a / 2 / 2 == hi * 4 && a / 2 / 2 / 2 == hi * 2;
    assert LowZero(hi * 2, 2) && LowZero(hi * 4, 4) && LowZero(hi * 8, 8) && LowZero(a, 0x10);
    assert IsPowerOf2(0x10) && IsPowerOf2(0x100);
    OrDisjointBits(a, lo, 0x10, 0x100);
    OrDisjointBits(a + lo, 0, 1, 0x100);
  }

  // ---------- shifts by any amount ----------

  function Shl(v: byte, n: nat): byte
    decreases n, v
  {
    if n == 0 then v else Shl(v % 0x80 * 2, n - 1)
  }

  function Shr(v: byte, n: nat): byte
    decreases n, v
  {
    if n == 0 then v else Shr(v / 2, n - 1)
  }

  // ---------- bit by bit ----------

  predicate Bit(v: nat, k: nat)
    decreases k, v
  {
    if k == 0 then v % 2 == 1 else Bit(v / 2, k - 1)
  }

  predicate IsPowerOf2(m: nat) { m == 1 || (m > 0 && m % 2 == 0 && IsPowerOf2(m / 2)) }

  lemma {:induction false} ZeroBits(k: nat)
    ensures !Bit(0, k)
  {
    if k != 0 {
      ZeroBits(k - 1);
    }
  }

  lemma {:induction false} NoHighBit(v: nat, m: nat, k: nat)
    requires IsPowerOf2(m) && v < m
    requires Bit(v, k)
    ensures Bit(m - 1, k)
    decreases m
  {
    if m == 1 {
      ZeroBits(k);
    } else if k != 0 {
      NoHighBit(v / 2, m / 2, k - 1);
      assert (m - 1) / 2 == m / 2 - 1;
    }
  }

  /** A byte has eight bits. */
  lemma ByteBits(v: byte, k: nat)
    ensures Bit(v, k) ==> k < 8
  {
    if k >= 8 && Bit(v, k) {
      assert IsPowerOf2(0x100);
      NoHighBit(v, 0x100, k);
      assert Bit(0xff, k) == Bit(0x7f, k - 1) == Bit(0x3f, k - 2) == Bit(0x1f, k - 3);
      assert Bit(0x1f, k - 3) == Bit(0xf, k - 4) == Bit(7, k - 5) == Bit(3, k - 6) == Bit(1, k - 7) == Bit(0, k - 8);
      ZeroBits(k - 8);
    }
  }

  lemma {:induction false} SameBitsBelow(a: nat, b: nat, m: nat)
    requires IsPowerOf2(m) && a < m && b < m && forall k: nat :: Bit(a, k) == Bit(b, k)
    ensures a == b
    decreases m
  {
    if m != 1 {
      forall k: nat ensures Bit(a / 2, k) == Bit(b / 2, k) {
        assert Bit(a, k + 1) == Bit(b, k + 1);
      }
      SameBitsBelow(a / 2, b / 2, m / 2);
      assert Bit(a, 0) == Bit(b, 0);
    }
  }

  lemma SameBits(a: byte, b: byte)
    requires forall k: nat :: Bit(a, k) == Bit(b, k)
    ensures a == b
  {
    assert IsPowerOf2(0x100);
    SameBitsBelow(a, b, 0x100);
  }

  lemma {:induction false} OrBit(a: nat, b: nat, m: nat, k: nat)
    requires IsPowerOf2(m) && a < m && b < m
    ensures Bit(OrBits(a, b, m), k) == (Bit(a, k) || Bit(b, k))
    decreases m
  {
    if m == 1 {
      ZeroBits(k);
    } else if k != 0 {
      OrBit(a / 2, b / 2, m / 2, k - 1);
      assert OrBits(a, b, m) / 2 == OrBits(a / 2, b / 2, m / 2);
    }
  }

  lemma {:induction false} XorBit(a: nat, b: nat, m: nat, k: nat)
    requires IsPowerOf2(m) && a < m && b < m
    ensures Bit(XorBits(a, b, m), k) == (Bit(a, k) != Bit(b, k))
    decreases m
  {
    if m == 1 {
      ZeroBits(k);
    } else if k != 0 {
      XorBit(a / 2, b / 2, m / 2, k - 1);
      assert XorBits(a, b, m) / 2 == XorBits(a / 2, b / 2, m / 2);
    }
  }

  lemma OrXorBits(a: byte, b: byte)
    ensures forall k: nat :: Bit(Or(a, b), k) == (Bit(a, k) || Bit(b, k))
    ensures forall k: nat :: Bit(Xor(a, b), k) == (Bit(a, k) != Bit(b, k))
  {
    assert IsPowerOf2(0x100);
    forall k: nat
      ensures Bit(Or(a, b), k) == (Bit(a, k) || Bit(b, k)) && Bit(Xor(a, b), k) == (Bit(a, k) != Bit(b, k))
    {
      OrBit(a, b, 0x100, k);
      XorBit(a, b, 0x100, k);
    }
  }

  lemma {:induction false} LowBits(v: nat, m: nat, k: nat)
    requires IsPowerOf2(m) && v < 2 * m
    ensures Bit(if v < m then v else v - m, k) == (Bit(v, k) && Bit(m - 1, k))
    decreases m
  {
    if m == 1 {
      ZeroBits(k);
    } else if k != 0 {
      LowBits(v / 2, m / 2, k - 1);
      assert (m - 1) / 2 == m / 2 - 1;
    }
  }

  lemma BitsBelow0x80(k: nat)
    ensures Bit(0x7f, k) == (k < 7)
  {
    ByteBits(0x7f, k);
    if k == 7 {
      assert Bit(0x7f, 7) == Bit(0x3f, 6) == Bit(0x1f, 5) == Bit(0xf, 4) == Bit(7, 3) == Bit(3, 2) == Bit(1, 1)
          == Bit(0, 0);
    }
  }

  lemma DoubledBit(v: byte, k: nat)
    ensures Bit(v % 0x80 * 2, k) == (1 <= k < 8 && Bit(v, k - 1))
  {
    var w := v % 0x80;
    if k == 0 {
      assert w * 2 % 2 == 0;
    } else {
      assert w * 2 / 2 == w;
      assert IsPowerOf2(0x80);
      LowBits(v, 0x80, k - 1);
      BitsBelow0x80(k - 1);
    }
  }

  lemma {:induction false} ShlBit(v: byte, n: nat, k: nat)
    ensures Bit(Shl(v, n), k) == (n <= k < 8 && Bit(v, k - n))
    decreases n
  {
    if n == 0 {
      ByteBits(v, k);
    } else {
      ShlBit(v % 0x80 * 2, n - 1, k);
      if n - 1 <= k {
        DoubledBit(v, k - (n - 1));
      }
    }
  }

  lemma {:induction false} ShrBit(v: byte, n: nat, k: nat)
    ensures Bit(Shr(v, n), k) == Bit(v, k + n)
    decreases n
  {
    if n != 0 {
      ShrBit(v / 2, n - 1, k);
    }
  }

  lemma ShiftBits(v: byte, n: nat)
    ensures forall k: nat :: Bit(Shl(v, n), k) == (n <= k < 8 && Bit(v, k - n))
    ensures forall k: nat :: Bit(Shr(v, n), k) == Bit(v, k + n)
    ensures forall k: nat :: Bit(v, k) ==> k < 8
  {
    forall k: nat ensures Bit(Shl(v, n), k) == (n <= k < 8 && Bit(v, k - n)) && Bit(Shr(v, n), k) == Bit(v, k + n) {
      ShlBit(v, n, k);
      ShrBit(v, n, k);
    }
    forall k: nat ensures Bit(v, k) ==> k < 8 {
      ByteBits(v, k);
    }
  }

  lemma XorTwice(a: byte, b: byte)
    ensures Xor(Xor(a, b), b) == a
  {
    OrXorBits(a, b);
    OrXorBits(Xor(a, b), b);
    SameBits(Xor(Xor(a, b), b), a);
  }

  lemma WithZero(a: byte)
    ensures Xor(a, 0) == a && Or(a, 0) == a
  {
    OrXorBits(a, 0);
    forall k: nat ensures !Bit(0, k) {
      ZeroBits(k);
    }
    SameBits(Xor(a, 0), a);
    SameBits(Or(a, 0), a);
  }
}
