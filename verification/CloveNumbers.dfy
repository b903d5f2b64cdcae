/** Numbers through the codec: integers are exact and as short as their tags allow, floats
    keep their value unless their 64-bit pattern fits in 32 bits. */
module CloveNumbers {
  import opened Bytes
  import opened CloveCodec
  import opened CloveRoundTrip
  import opened CloveTheorems

  /** A first byte that is an integer itself, or an integer tag at its default width. */
  predicate PlainInteger(raw: bytes) {
    && raw != []
    && (raw[0] < 0x80 || (raw[0] / 0x20 % 4 == 0 && INT8 <= raw[0] % 0x20 <= UINT64))
  }

  lemma IntLength(order: ByteOrder, n: int)
    ensures |EncodeInt(order, n)| == 1 + if 0 <= n <= 0x7f then 0 else TypeSize(IntTag(n))
  {
  }

  /** Which numbers a tag can carry. */
  lemma TagRange(tag: nat, payload: bytes)
    requires INT8 <= tag <= UINT64 && |payload| == TypeSize(tag)
    ensures var n := FixedValue(tag, Uint(BigEndian, payload)).n;
            TypeSize(tag) >= if 0 <= n <= 0x7f then 0 else TypeSize(IntTag(n))
    ensures var n := FixedValue(tag, Uint(LittleEndian, payload)).n;
            TypeSize(tag) >= if 0 <= n <= 0x7f then 0 else TypeSize(IntTag(n))
  {
    UintFits(BigEndian, payload);
    UintFits(LittleEndian, payload);
    WidthBounds(Uint(BigEndian, payload));
    WidthBounds(Uint(LittleEndian, payload));
  }

  lemma PlainIntegerDecodes(order: ByteOrder, raw: bytes, kind: IntKind, n: int)
    requires PlainInteger(raw) && raw[0] >= 0x80 && Decoding(order, raw) == Done(Int(kind, n), [])
    ensures |raw| == 1 + TypeSize(raw[0] % 0x20)
    ensures n == FixedValue(raw[0] % 0x20, Uint(order, raw[1..])).n
  {
    var tag, data := raw[0] % 0x20, raw[1..];
    assert ParseHeader(order, raw) == Header(tag, TypeSize(tag), data);
    ElementBody(order, raw);
    assert data[TypeSize(tag)..] == [];
    assert data[..TypeSize(tag)] == data;
  }

  /** No plain integer encoding of n is shorter than the one Encode writes. */
  lemma ShortestInteger(order: ByteOrder, raw: bytes, kind: IntKind, n: int)
    requires PlainInteger(raw) && Decoding(order, raw) == Done(Int(kind, n), [])
    ensures |EncodeInt(order, n)| <= |raw|
  {
    IntLength(order, n);
    if raw[0] >= 0x80 {
      PlainIntegerDecodes(order, raw, kind, n);
      TagRange(raw[0] % 0x20, raw[1..]);
    }
  }

  lemma EncodesPlainly(order: ByteOrder, n: int)
    requires -0x8000_0000_0000_0000 <= n < TWO64
    ensures PlainInteger(EncodeInt(order, n))
  {
    if !(0 <= n <= 0x7f) {
      var tag := IntTag(n);
      assert INT8 <= tag <= UINT64;
      assert EncodeInt(order, n)[0] == 0x80 + tag;
    }
  }

  /** Every Go integer is encoded, and decodes to the same number, as a plain integer. */
  lemma IntegerExact(order: ByteOrder, kind: IntKind, n: int)
    requires InKind(kind, n)
    ensures PlainInteger(EncodeInt(order, n))
    ensures Decoding(order, EncodeInt(order, n)) == Done(Int(if n <= 0x7f then KInt else KUint, n), [])
  {
    EncodesPlainly(order, n);
    assert Encoded(order, Int(kind, n)) == EncodeInt(order, n);
    IntLength(order, n);
    DecodeUndoesEncode(order, Int(kind, n), []);
    assert EncodeInt(order, n) + [] == EncodeInt(order, n);
  }

  // ---------- floats ----------

  function Pow2(n: nat): nat {
    if n == 0 then 1 else 2 * Pow2(n - 1)
  }

  lemma {:induction false} Pow2Monotone(a: nat, b: nat)
    requires a <= b
    ensures 1 <= Pow2(a) <= Pow2(b)
    decreases b
  {
    if b != 0 {
      Pow2Monotone(if a == b then a - 1 else a, b - 1);
      if a == b {
        assert Pow2(a) == Pow2(b);
      }
    }
  }

  lemma Pow2Plus8(n: nat)
    ensures Pow2(n + 8) == 0x100 * Pow2(n)
  {
    assert Pow2(n + 8) == 2 * Pow2(n + 7) == 4 * Pow2(n + 6) == 8 * Pow2(n + 5) == 16 * Pow2(n + 4);
    assert Pow2(n + 4) == 2 * Pow2(n + 3) == 4 * Pow2(n + 2) == 8 * Pow2(n + 1);
  }

  lemma Pow2Large(n: nat)
    requires n >= 40
    ensures Pow2(n) > TWO32
  {
    Pow2Plus8(n - 8);
    Pow2Plus8(n - 16);
    Pow2Plus8(n - 24);
    Pow2Plus8(n - 32);
    Pow2Plus8(n - 40);
    Pow2Monotone(0, n - 40);
  }

  predicate Finite(v: Value) {
    match v
    case Float32(bits) => bits / 0x80_0000 % 0x100 != 0xff
    case Float64(bits) => bits / 0x10_0000_0000_0000 % 0x800 != 0x7ff
    case _ => false
  }

  function Exponent(v: Value): nat
    requires Finite(v)
  {
    if v.Float32? then v.bits / 0x80_0000 % 0x100 else v.bits / 0x10_0000_0000_0000 % 0x800
  }

  /** The significand as an integer; the leading bit is implicit unless the exponent is 0. */
  function Significand(v: Value): nat
    requires Finite(v)
  {
    if v.Float32? then v.bits % 0x80_0000 + (if Exponent(v) == 0 then 0 else 0x80_0000)
    else v.bits % 0x10_0000_0000_0000 + (if Exponent(v) == 0 then 0 else 0x10_0000_0000_0000)
  }

  predicate Negative(v: Value)
    requires Finite(v)
  {
    if v.Float32? then v.bits >= 0x8000_0000 else v.bits >= 0x8000_0000_0000_0000
  }

  /** The value of a finite float in units of 2^-1074: a float32 significand counts units of
      2^-149 at exponents 0 and 1, a float64 significand units of 2^-1074. */
  function FloatUnits(v: Value): int
    requires Finite(v)
  {
    var e := if Exponent(v) == 0 then 0 else Exponent(v) - 1;
    var magnitude := Significand(v) * Pow2(if v.Float32? then e + 925 else e);
    if Negative(v) then -magnitude else magnitude
  }

  lemma LargeMagnitude(count: nat, unit: nat)
    requires count >= 1 && unit > TWO32
    ensures count * unit > TWO32
  {
  }

  /** A nonzero float32 is further from zero than any float64 whose bits fit in 32 bits. */
  lemma Float32Magnitude(v: Value)
    requires v.Float32? && v.bits < TWO32 && Finite(v) && v.bits % 0x8000_0000 != 0
    ensures FloatUnits(v) > TWO32 || FloatUnits(v) < 0
  {
    var k := (if Exponent(v) == 0 then 0 else Exponent(v) - 1) + 925;
    assert Significand(v) >= 1;
    Pow2Large(k);
    LargeMagnitude(Significand(v), Pow2(k));
  }

  lemma SmallFloat64(bits: nat)
    requires bits <= 0xffff_ffff
    ensures Finite(Float64(bits)) && FloatUnits(Float64(bits)) == bits
  {
    assert Exponent(Float64(bits)) == 0 && Significand(Float64(bits)) == bits;
  }

  /** A float64 keeps its value exactly when its bits are zero or do not fit in 32 bits; the
      others are re-read as a float32 with those bits. */
  lemma FloatPreserved(bits: nat)
    requires bits < TWO64 && Finite(Float64(bits))
    ensures (Finite(Norm(Float64(bits))) && FloatUnits(Norm(Float64(bits))) == FloatUnits(Float64(bits)))
            <==> (bits == 0 || bits > 0xffff_ffff)
  {
    if bits <= 0xffff_ffff {
      SmallFloat64(bits);
      var v := Float32(bits);
      if Finite(v) {
        if bits % 0x8000_0000 == 0 {
          assert Significand(v) == 0;
        } else {
          Float32Magnitude(v);
        }
      }
    }
  }

  // ---------- floats as keys ----------

  /** The magnitude of the float whose bits without the sign are x, with m fractions. */
  function Magnitude(m: nat, shift: nat, x: nat): nat
    requires m > 0
  {
    Scaled(m, shift, x / m, x % m)
  }

  function Scaled(m: nat, shift: nat, e: nat, f: nat): nat {
    (f + if e == 0 then 0 else m) * Pow2(shift + if e == 0 then 0 else e - 1)
  }

  lemma NextQuotient(m: nat, x: nat)
    requires m > 0
    ensures if x % m + 1 == m then (x + 1) / m == x / m + 1 && (x + 1) % m == 0
            else (x + 1) / m == x / m && (x + 1) % m == x % m + 1
  {
    var q, r := x / m, x % m;
    assert x + 1 == q * m + (r + 1) && (q + 1) * m == q * m + m;
    if r + 1 == m {
      Quotient(m, x + 1, q + 1, 0);
    } else {
      Quotient(m, x + 1, q, r + 1);
    }
  }

  lemma Quotient(m: nat, x: nat, q: nat, r: nat)
    requires r < m && x == q * m + r
    ensures x / m == q && x % m == r
  {
    var d := x / m - q;
    assert x == x / m * m + x % m;
    assert d * m == r - x % m;
    assert d >= 1 ==> d * m >= m;
    assert d <= -1 ==> d * m <= 0 - m;
  }

  lemma Larger(a: nat, b: nat, unit: nat)
    requires a < b && unit >= 1
    ensures a * unit < b * unit
  {
  }

  lemma ScaledNext(m: nat, shift: nat, e: nat, f: nat)
    requires f < m
    ensures Scaled(m, shift, e, f) < if f + 1 < m then Scaled(m, shift, e, f + 1) else Scaled(m, shift, e + 1, 0)
  {
    var unit := Pow2(shift + if e == 0 then 0 else e - 1);
    Pow2Monotone(0, shift + if e == 0 then 0 else e - 1);
    if f + 1 < m {
      Larger(f + if e == 0 then 0 else m, f + 1 + if e == 0 then 0 else m, unit);
    } else if e == 0 {
      Larger(f, m, unit);
    } else {
      assert Pow2(shift + e) == 2 * unit;
      hide Pow2;
      Larger(f + m, m + m, unit);
      Regrouped(m, unit);
    }
  }

  lemma MagnitudeNext(m: nat, shift: nat, x: nat)
    requires m > 0
    ensures Magnitude(m, shift, x) < Magnitude(m, shift, x + 1)
  {
    hide Scaled;
    NextQuotient(m, x);
    ScaledNext(m, shift, x / m, x % m);
  }

  lemma Regrouped(m: nat, unit: nat)
    ensures m * (2 * unit) == (m + m) * unit
  {
  }

  lemma {:induction false} MagnitudeMonotone(m: nat, shift: nat, x: nat, y: nat)
    requires m > 0 && x <= y
    ensures x < y ==> Magnitude(m, shift, x) < Magnitude(m, shift, y)
    decreases y - x
  {
    hide Magnitude;
    if x < y {
      MagnitudeMonotone(m, shift, x, y - 1);
      MagnitudeNext(m, shift, y - 1);
    }
  }

  function Half(v: Value): nat {
    if v.Float32? then 0x8000_0000 else 0x8000_0000_0000_0000
  }

  predicate IsFloat(v: Value) {
    (v.Float32? || v.Float64?) && v.bits < Half(v) + Half(v)
  }

  /** How many fractions there are between powers of two. */
  function Fractions(v: Value): nat {
    if v.Float32? then 0x80_0000 else 0x10_0000_0000_0000
  }

  function Unsigned(v: Value): nat
    requires IsFloat(v)
  {
    if v.bits < Half(v) then v.bits else v.bits - Half(v)
  }

  lemma SignApart(v: Value)
    requires IsFloat(v) && Finite(v)
    ensures var x := Unsigned(v);
            Exponent(v) == x / Fractions(v) && v.bits % Fractions(v) == x % Fractions(v)
    ensures Negative(v) <==> v.bits >= Half(v)
  {
    var m, h := Fractions(v), if v.Float32? then 0x100 else 0x800;
    var q, r := v.bits / m, v.bits % m;
    if v.bits >= Half(v) {
      assert Half(v) == h * m && v.bits - Half(v) == (q - h) * m + r;
      Quotient(m, v.bits - Half(v), q - h, r);
    }
  }

  lemma UnitsOfMagnitude(v: Value)
    requires IsFloat(v) && Finite(v)
    ensures var n := Magnitude(Fractions(v), if v.Float32? then 925 else 0, Unsigned(v));
            FloatUnits(v) == if v.bits < Half(v) then n else 0 - n
  {
    SignApart(v);
    hide Pow2, Unsigned, Exponent, IsFloat, Negative, Finite;
  }

  lemma ZeroMagnitude(m: nat, shift: nat)
    requires m > 0
    ensures Magnitude(m, shift, 0) == 0
  {
    Quotient(m, 0, 0, 0);
  }

  lemma SameKeyBits(a: Value, b: Value)
    requires IsFloat(a) && IsFloat(b) && Finite(a) && Finite(b) && a.Float32? == b.Float32?
    ensures KeyEq(a, b) <==> a.bits == b.bits || (Unsigned(a) == 0 && Unsigned(b) == 0)
  {
    ZeroBits(a);
    ZeroBits(b);
    hide Unsigned;
  }

  lemma ZeroBits(v: Value)
    requires IsFloat(v)
    ensures v.bits % Half(v) == 0 <==> Unsigned(v) == 0
  {
  }

  /** Two finite floats of one type are the same key if and only if they are the same number. */
  lemma FloatKeys(a: Value, b: Value)
    requires IsFloat(a) && IsFloat(b) && Finite(a) && Finite(b) && a.Float32? == b.Float32?
    ensures KeyEq(a, b) <==> FloatUnits(a) == FloatUnits(b)
  {
    UnitsOfMagnitude(a);
    UnitsOfMagnitude(b);
    SameKeyBits(a, b);
    hide FloatUnits, Magnitude, KeyEq, Finite;
    var m, shift, x, y := Fractions(a), if a.Float32? then 925 else 0, Unsigned(a), Unsigned(b);
    ZeroMagnitude(m, shift);
    MagnitudeMonotone(m, shift, 0, x);
    MagnitudeMonotone(m, shift, 0, y);
    if x <= y {
      MagnitudeMonotone(m, shift, x, y);
    } else {
      MagnitudeMonotone(m, shift, y, x);
    }
  }

  /** A float that is not finite is the same key as itself unless it is no number, and as no
      other. */
  lemma InfiniteKeys(a: Value, b: Value)
    requires IsFloat(a) && IsFloat(b) && a.Float32? == b.Float32? && !Finite(a)
    ensures KeyEq(a, b) <==> a == b && a.bits % Fractions(a) == 0
  {
  }
}
