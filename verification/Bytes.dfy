/** Bytes, byte strings, the two byte orders and the bit operations the packet headers use. */
module Bytes {
  type byte = x: int | 0 <= x < 0x100

  type bytes = seq<byte>

  const TWO16 := 0x1_0000
  const TWO32 := 0x1_0000_0000
  const TWO64 := 0x1_0000_0000_0000_0000

  datatype Option<+T> = None | Some(value: T)

  ghost predicate IsSuffix(s: bytes, whole: bytes) {
    |s| <= |whole| && s == whole[|whole| - |s|..]
  }

  ghost predicate IsStrictPrefix(p: bytes, whole: bytes) {
    |p| < |whole| && p == whole[..|p|]
  }

  lemma SuffixTransitive(a: bytes, b: bytes, c: bytes)
    requires IsSuffix(a, b) && IsSuffix(b, c)
    ensures IsSuffix(a, c)
  {
    assert a == c[|c| - |b|..][|b| - |a|..];
  }

  lemma PrefixOfSum(p: bytes, a: bytes, b: bytes)
    requires IsStrictPrefix(p, a + b)
    ensures |p| < |a| ==> IsStrictPrefix(p, a)
    ensures |p| >= |a| ==> p == a + p[|a|..] && IsStrictPrefix(p[|a|..], b)
  {
    if |p| < |a| {
      assert p == a[..|p|];
    } else {
      var q := p[|a|..];
      assert p == a + q;
      assert q == b[..|q|];
    }
  }

  // ---------- fixed-width unsigned integers in either byte order ----------

  datatype ByteOrder = BigEndian | LittleEndian

  /** The low `width` bytes of n, least significant byte first in little-endian order. */
  function PutUint(order: ByteOrder, n: nat, width: nat): (r: bytes)
    ensures |r| == width
    decreases order, width
  {
    if width == 0 then []
    else if order.BigEndian? then PutUint(order, n / 0x100, width - 1) + [n % 0x100]
    else [n % 0x100] + PutUint(order, n / 0x100, width - 1)
  }

  function Uint(order: ByteOrder, s: bytes): nat
    decreases |s|
  {
    if s == [] then 0
    else if order.BigEndian? then Uint(order, s[..|s| - 1]) * 0x100 + s[|s| - 1]
    else s[0] + 0x100 * Uint(order, s[1..])
  }

  /** n is a number of at most `width` bytes. */
  predicate FitsWidth(n: nat, width: nat)
    decreases n, width
  {
    if width == 0 then n == 0 else FitsWidth(n / 0x100, width - 1)
  }

  lemma {:induction false} UintPut(order: ByteOrder, n: nat, width: nat)
    requires FitsWidth(n, width)
    ensures Uint(order, PutUint(order, n, width)) == n
    decreases width
  {
    if width != 0 {
      UintPut(order, n / 0x100, width - 1);
      var s := PutUint(order, n, width);
      if order.BigEndian? {
        assert s[..|s| - 1] == PutUint(order, n / 0x100, width - 1);
      } else {
        assert s[1..] == PutUint(order, n / 0x100, width - 1);
      }
    }
  }

  lemma {:induction false} UintFits(order: ByteOrder, s: bytes)
    ensures FitsWidth(Uint(order, s), |s|)
    decreases |s|
  {
    if s != [] {
      if order.BigEndian? {
        UintFits(order, s[..|s| - 1]);
        assert Uint(order, s) / 0x100 == Uint(order, s[..|s| - 1]);
      } else {
        UintFits(order, s[1..]);
        assert Uint(order, s) / 0x100 == Uint(order, s[1..]);
      }
    }
  }

  /** The widths the formats use, as plain bounds. */
  lemma WidthBounds(n: nat)
    ensures FitsWidth(n, 1) <==> n < 0x100
    ensures FitsWidth(n, 2) <==> n < TWO16
    ensures FitsWidth(n, 4) <==> n < TWO32
    ensures FitsWidth(n, 8) <==> n < TWO64
  {
    var a := n / 0x100;
    var b := a / 0x100;
    var c := b / 0x100;
    var d := c / 0x100;
    var e := d / 0x100;
    var f := e / 0x100;
    var g := f / 0x100;
    assert FitsWidth(n, 2) == FitsWidth(a, 1) == (b == 0);
    assert FitsWidth(n, 4) == FitsWidth(a, 3) == FitsWidth(b, 2) == FitsWidth(c, 1) == (d == 0);
    assert FitsWidth(n, 8) == FitsWidth(a, 7) == FitsWidth(b, 6) == FitsWidth(c, 5) == FitsWidth(d, 4);
    assert FitsWidth(d, 4) == FitsWidth(e, 3) == FitsWidth(f, 2) == FitsWidth(g, 1) == (g / 0x100 == 0);
  }

  // ---------- two's complement ----------

  function ToSigned(u: nat, modulus: nat): int {
    if u < modulus / 2 then u else u - modulus
  }
}
