/** MaskBytes and UnMaskBytes (base/bit.go): a bit shift across byte boundaries that hides a
    mask byte in the first and last bits and XORs the interior with it. */
module BitMask {
  import opened Bytes
  import opened Bits

  /** `8 - bitSize` in byte arithmetic. */
  function Reserved(bitSize: byte): byte { if bitSize <= 8 then 8 - bitSize else 0x108 - bitSize }

  // ---------- what the two functions compute, byte by byte ----------

  /** The low bits of a byte, moved to the top of the next one. */
  function Carry(left: byte, n: byte): byte { Shl(left, Reserved(n)) }

  function High(v: byte, n: byte): byte { Shl(Shr(v, Reserved(n)), Reserved(n)) }
  function Low(v: byte, n: byte): byte { Shr(Shl(v, n), n) }

  /** The bits carried into position i: the mask's top bits, then each byte's low bits. */
  function CarryInto(raw: bytes, mask: byte, n: byte, i: nat): byte
    requires i <= |raw|
  {
    if i == 0 then High(mask, n) else Carry(raw[i - 1], n)
  }

  function Interior(i: int, last: int, mask: byte): byte {
    if 1 < i < last then mask else 0
  }

  function MaskedAt(raw: bytes, mask: byte, n: byte, i: nat): byte
    requires i <= |raw|
  {
    if i == |raw| then Or(CarryInto(raw, mask, n, i), Low(mask, n))
    else Xor(Or(Shr(raw[i], n), CarryInto(raw, mask, n, i)), Interior(i, |raw| - 1, mask))
  }

  function Masked(raw: bytes, mask: byte, n: byte): (r: bytes)
    ensures |r| == |raw| + 1
  {
    seq(|raw| + 1, i requires 0 <= i <= |raw| => MaskedAt(raw, mask, n, i))
  }

  function HiddenMask(raw: bytes, n: byte): byte
    requires raw != []
  {
    Or(High(raw[0], n), Low(raw[|raw| - 1], n))
  }

  function Plain(raw: bytes, n: byte, i: nat): byte
    requires i < |raw|
  {
    Xor(raw[i], Interior(i, |raw| - 2, HiddenMask(raw, n)))
  }

  function Join(a: byte, b: byte, n: byte): byte { Or(Shl(a, n), Shr(b, Reserved(n))) }

  function Unmasked(raw: bytes, n: byte): (r: bytes)
    requires raw != []
    ensures |r| == |raw| - 1
  {
    seq(|raw| - 1, i requires 0 <= i < |raw| - 1 => Join(Plain(raw, n, i), Plain(raw, n, i + 1), n))
  }

  // ---------- the loops ----------

  method MaskBytes(raw: bytes, mask: byte, bitSize: byte) returns (r: bytes)
    ensures r == if bitSize > 7 then raw else Masked(raw, mask, bitSize)
  {
    var bitResvSize := Reserved(bitSize);
    var dstb := new byte[|raw| + 1];
    if bitSize > 7 {
      return raw;
    }
    var remainBits := Shl(Shr(mask, bitResvSize), bitResvSize);
    for i := 0 to |raw|
      invariant remainBits == CarryInto(raw, mask, bitSize, i)
      invariant forall j :: 0 <= j < i ==> dstb[j] == MaskedAt(raw, mask, bitSize, j)
    {
      var v := raw[i];
      var newV := Shr(v, bitSize);
      WithZero(newV);
      if remainBits > 0 {
        newV := Or(newV, remainBits);
      }
      WithZero(newV);
      if i > 1 && i < |raw| - 1 {
        newV := Xor(newV, mask);
      }
      remainBits := Shl(v, bitResvSize);
      dstb[i] := newV;
    }
    var endb := Or(remainBits, Shr(Shl(mask, bitSize), bitSize));
    dstb[|raw|] := endb;
    return dstb[..];
  }

  /** An empty input makes the source panic. */
  method UnMaskBytes(raw: bytes, bitSize: byte) returns (maskSrc: byte, src: bytes)
    requires raw != []
    ensures maskSrc == HiddenMask(raw, bitSize) && src == Unmasked(raw, bitSize)
  {
    var bitResvSize := Reserved(bitSize);
    var srcb := new byte[|raw| - 1];
    maskSrc := Shl(Shr(raw[0], bitResvSize), bitResvSize);
    maskSrc := Or(maskSrc, Shr(Shl(raw[|raw| - 1], bitSize), bitSize));
    for i := 0 to |raw|
      invariant forall j :: 0 <= j < i - 1 ==>
                              srcb[j] == Join(Plain(raw, bitSize, j), Plain(raw, bitSize, j + 1), bitSize)
      invariant 0 < i < |raw| ==> srcb[i - 1] == Shl(Plain(raw, bitSize, i - 1), bitSize)
    {
      var unmaskV := raw[i];
      WithZero(unmaskV);
      if i > 1 && i < |raw| - 2 {
        unmaskV := Xor(unmaskV, maskSrc);
      }
      assert unmaskV == Plain(raw, bitSize, i);
      if i > 0 {
        srcb[i - 1] := Or(srcb[i - 1], Shr(unmaskV, bitResvSize));
      }
      if i == |raw| - 1 {
        break;
      }
      srcb[i] := Shl(unmaskV, bitSize);
    }
    src := srcb[..];
  }

  // ---------- facts about one byte ----------

  ghost predicate HighBits(h: byte, v: byte, n: nat) {
    forall k: nat :: Bit(h, k) == (8 <= k + n && k < 8 && Bit(v, k))
  }

  ghost predicate LowBits(h: byte, v: byte, n: nat) { forall k: nat :: Bit(h, k) == (k + n < 8 && Bit(v, k)) }

  lemma HalfBits(v: byte, n: byte)
    requires n <= 7
    ensures HighBits(High(v, n), v, n) && LowBits(Low(v, n), v, n)
  {
    ShiftBits(v, n);
    ShiftBits(v, 8 - n);
    ShiftBits(Shr(v, 8 - n), 8 - n);
    ShiftBits(Shl(v, n), n);
  }

  lemma JoinHalves(v: byte, n: byte)
    requires n <= 7
    ensures Or(High(v, n), Low(v, n)) == v && Or(Low(v, n), High(v, n)) == v
  {
    HalfBits(v, n);
    ShiftBits(v, n);
    OrXorBits(High(v, n), Low(v, n));
    OrXorBits(Low(v, n), High(v, n));
    SameBits(Or(High(v, n), Low(v, n)), v);
    SameBits(Or(Low(v, n), High(v, n)), v);
  }

  /** The two halves of a byte joined from two bytes. */
  lemma HalvesOfJoin(x: byte, y: byte, n: byte)
    requires n <= 7
    ensures var h := Or(High(x, n), Low(y, n)); High(h, n) == High(x, n) && Low(h, n) == Low(y, n)
  {
    var h := Or(High(x, n), Low(y, n));
    HalfBits(x, n);
    HalfBits(y, n);
    HalfBits(h, n);
    OrXorBits(High(x, n), Low(y, n));
    SameBits(High(h, n), High(x, n));
    SameBits(Low(h, n), Low(y, n));
  }

  /** The bits a byte b must have to carry `left` on top of whatever is below. */
  ghost predicate CarriesOnTop(b: byte, left: byte, n: nat) {
    forall k: nat :: k < 8 <= k + n ==> Bit(b, k) == Bit(left, k + n - 8)
  }

  lemma TopOfByte(b: byte, left: byte, n: byte)
    requires n <= 7 && CarriesOnTop(b, left, n)
    ensures High(b, n) == Carry(left, n)
  {
    ShiftBits(left, 8 - n);
    HalfBits(b, n);
    SameBits(High(b, n), Carry(left, n));
  }

  lemma TopShiftedDown(b: byte, left: byte, n: byte)
    requires n <= 7 && CarriesOnTop(b, left, n)
    ensures Shr(b, Reserved(n)) == Shr(Carry(left, n), Reserved(n))
  {
    ShiftBits(left, 8 - n);
    ShiftBits(b, 8 - n);
    ShiftBits(Carry(left, n), 8 - n);
    ByteHasNoHigherBits(b);
    SameBits(Shr(b, 8 - n), Shr(Carry(left, n), 8 - n));
  }

  lemma ByteHasNoHigherBits(b: byte)
    ensures forall k: nat :: Bit(b, k) ==> k < 8
  {
    ShiftBits(b, 0);
  }

  lemma BottomShiftedUp(b: byte, v: byte, n: byte)
    requires n <= 7 && forall k: nat :: k + n < 8 ==> Bit(b, k) == Bit(v, k + n)
    ensures Shl(b, n) == Shl(Shr(v, n), n)
  {
    ShiftBits(v, n);
    ShiftBits(b, n);
    ShiftBits(Shr(v, n), n);
    SameBits(Shl(b, n), Shl(Shr(v, n), n));
  }

  lemma MaskedByteBits(left: byte, v: byte, n: byte)
    requires n <= 7
    ensures var b := Or(Shr(v, n), Carry(left, n));
            CarriesOnTop(b, left, n) && forall k: nat :: k + n < 8 ==> Bit(b, k) == Bit(v, k + n)
  {
    ShiftBits(v, n);
    ShiftBits(left, 8 - n);
    OrXorBits(Shr(v, n), Carry(left, n));
  }

  /** A masked byte: its own high bits below, its left neighbour's low bits on top. */
  lemma MaskedByte(left: byte, v: byte, n: byte)
    requires n <= 7
    ensures var b := Or(Shr(v, n), Carry(left, n));
            && Shl(b, n) == Shl(Shr(v, n), n)
            && Shr(b, Reserved(n)) == Shr(Carry(left, n), Reserved(n))
            && High(b, n) == Carry(left, n)
  {
    var b := Or(Shr(v, n), Carry(left, n));
    MaskedByteBits(left, v, n);
    BottomShiftedUp(b, v, n);
    TopShiftedDown(b, left, n);
    TopOfByte(b, left, n);
  }

  lemma LastByteBits(left: byte, mask: byte, n: byte)
    requires n <= 7
    ensures var b := Or(Carry(left, n), Low(mask, n));
            CarriesOnTop(b, left, n) && forall k: nat :: k + n < 8 ==> Bit(b, k) == Bit(mask, k)
  {
    var high, low := Carry(left, n), Low(mask, n);
    HalfBits(mask, n);
    assert forall k: nat :: Bit(high, k) == (k < 8 <= k + n && Bit(left, k + n - 8)) by {
      ShiftBits(left, 8 - n);
    }
    OrXorBits(high, low);
  }

  lemma LastByte(left: byte, mask: byte, n: byte)
    requires n <= 7
    ensures var b := Or(Carry(left, n), Low(mask, n));
            && Shr(b, Reserved(n)) == Shr(Carry(left, n), Reserved(n))
            && High(b, n) == Carry(left, n) && Low(b, n) == Low(mask, n)
  {
    var b := Or(Carry(left, n), Low(mask, n));
    LastByteBits(left, mask, n);
    TopShiftedDown(b, left, n);
    TopOfByte(b, left, n);
    HalfBits(mask, n);
    HalfBits(b, n);
    SameBits(Low(b, n), Low(mask, n));
  }

  /** The unmasked join of a byte's shifted halves is the byte. */
  lemma Rejoin(v: byte, n: byte)
    requires n <= 7
    ensures Or(Shl(Shr(v, n), n), Shr(Carry(v, n), Reserved(n))) == v
  {
    var a, b := Shl(Shr(v, n), n), Shr(Carry(v, n), 8 - n);
    assert forall k: nat :: Bit(a, k) == (n <= k < 8 && Bit(v, k)) by {
      ShiftBits(v, n);
      ShiftBits(Shr(v, n), n);
    }
    assert forall k: nat :: Bit(b, k) == (k < n && Bit(v, k)) by {
      ShiftBits(v, 8 - n);
      ShiftBits(Carry(v, n), 8 - n);
    }
    ByteHasNoHigherBits(v);
    OrXorBits(a, b);
    SameBits(Or(a, b), v);
  }

  lemma JoinBits(a: byte, b: byte, n: byte)
    requires n <= 7
    ensures forall k: nat :: Bit(Join(a, b, n), k) == if k < n then Bit(b, k + 8 - n) else k < 8 && Bit(a, k - n)
  {
    ShiftBits(a, n);
    ShiftBits(b, 8 - n);
    OrXorBits(Shl(a, n), Shr(b, 8 - n));
  }

  lemma JoinedByte(a: byte, b: byte, n: byte)
    requires n <= 7
    ensures Shr(Join(a, b, n), n) == Low(a, n) && Carry(Join(a, b, n), n) == High(b, n)
  {
    JoinBits(a, b, n);
    hide Join, Bit, Shl, Shr;
    var d := Join(a, b, n);
    ByteHasNoHigherBits(a);
    assert Shr(d, n) == Low(a, n) by {
      ShiftBits(d, n);
      HalfBits(a, n);
      SameBits(Shr(d, n), Low(a, n));
    }
    assert Carry(d, n) == High(b, n) by {
      ShiftBits(d, 8 - n);
      HalfBits(b, n);
      SameBits(Carry(d, n), High(b, n));
    }
  }

  // ---------- they undo each other ----------

  /** The byte whose low bits are carried into position i. */
  function LeftOf(raw: bytes, mask: byte, n: byte, i: nat): byte
    requires i <= |raw|
  {
    if i == 0 then Shr(mask, Reserved(n)) else raw[i - 1]
  }

  lemma MaskedHidesMask(raw: bytes, mask: byte, n: byte)
    requires n <= 7
    ensures HiddenMask(Masked(raw, mask, n), n) == mask
  {
    var m := Masked(raw, mask, n);
    LastByte(LeftOf(raw, mask, n, |raw|), mask, n);
    if raw != [] {
      MaskedByte(LeftOf(raw, mask, n, 0), raw[0], n);
      WithZero(Or(Shr(raw[0], n), CarryInto(raw, mask, n, 0)));
    }
    assert High(m[0], n) == High(mask, n) && Low(m[|raw|], n) == Low(mask, n);
    JoinHalves(mask, n);
  }

  /** The interior XOR cancels: what remains is the shifted byte. */
  lemma MaskedPlain(raw: bytes, mask: byte, n: byte, i: nat)
    requires n <= 7 && i <= |raw|
    ensures Plain(Masked(raw, mask, n), n, i) ==
            if i == |raw| then Or(CarryInto(raw, mask, n, i), Low(mask, n))
            else Or(Shr(raw[i], n), CarryInto(raw, mask, n, i))
  {
    var m := Masked(raw, mask, n);
    MaskedHidesMask(raw, mask, n);
    if i == |raw| {
      WithZero(m[i]);
    } else {
      XorTwice(Or(Shr(raw[i], n), CarryInto(raw, mask, n, i)), Interior(i, |raw| - 1, mask));
    }
  }

  lemma UnmaskedByte(raw: bytes, mask: byte, n: byte, i: nat)
    requires n <= 7 && i < |raw|
    ensures var m := Masked(raw, mask, n); Join(Plain(m, n, i), Plain(m, n, i + 1), n) == raw[i]
  {
    var m := Masked(raw, mask, n);
    assert Shl(Plain(m, n, i), n) == Shl(Shr(raw[i], n), n) by {
      MaskedPlain(raw, mask, n, i);
      MaskedByte(LeftOf(raw, mask, n, i), raw[i], n);
    }
    assert Shr(Plain(m, n, i + 1), Reserved(n)) == Shr(Carry(raw[i], n), Reserved(n)) by {
      MaskedPlain(raw, mask, n, i + 1);
      if i + 1 == |raw| {
        LastByte(raw[i], mask, n);
      } else {
        MaskedByte(raw[i], raw[i + 1], n);
      }
    }
    Rejoin(raw[i], n);
  }

  /** Unmasking a masked array of any length gives back the mask and the data. */
  lemma UnmaskUndoesMask(raw: bytes, mask: byte, n: byte)
    requires n <= 7
    ensures HiddenMask(Masked(raw, mask, n), n) == mask
    ensures Unmasked(Masked(raw, mask, n), n) == raw
  {
    MaskedHidesMask(raw, mask, n);
    forall i | 0 <= i < |raw|
      ensures var m := Masked(raw, mask, n); Join(Plain(m, n, i), Plain(m, n, i + 1), n) == raw[i]
    {
      UnmaskedByte(raw, mask, n, i);
    }
  }

  lemma CarryIntoUnmasked(raw: bytes, n: byte, i: nat)
    requires n <= 7 && i < |raw|
    ensures CarryInto(Unmasked(raw, n), HiddenMask(raw, n), n, i) == High(Plain(raw, n, i), n)
  {
    if i == 0 {
      WithZero(raw[0]);
      HalvesOfJoin(raw[0], raw[|raw| - 1], n);
    } else {
      assert Unmasked(raw, n)[i - 1] == Join(Plain(raw, n, i - 1), Plain(raw, n, i), n);
      JoinedByte(Plain(raw, n, i - 1), Plain(raw, n, i), n);
    }
  }

  lemma RemaskedByte(raw: bytes, n: byte, i: nat)
    requires n <= 7 && i < |raw|
    ensures MaskedAt(Unmasked(raw, n), HiddenMask(raw, n), n, i) == raw[i]
  {
    var p, mask := Plain(raw, n, i), HiddenMask(raw, n);
    CarryIntoUnmasked(raw, n, i);
    JoinHalves(p, n);
    if i == |raw| - 1 {
      WithZero(raw[i]);
      HalvesOfJoin(raw[0], raw[i], n);
    } else {
      JoinedByte(p, Plain(raw, n, i + 1), n);
      XorTwice(raw[i], Interior(i, |raw| - 2, mask));
    }
  }

  /** Masking again what a nonempty array unmasks to gives back the array. */
  lemma MaskUndoesUnmask(raw: bytes, n: byte)
    requires n <= 7 && raw != []
    ensures Masked(Unmasked(raw, n), HiddenMask(raw, n), n) == raw
  {
    forall i | 0 <= i < |raw| ensures MaskedAt(Unmasked(raw, n), HiddenMask(raw, n), n, i) == raw[i] {
      RemaskedByte(raw, n, i);
    }
  }

  // ---------- bit by bit ----------

  /** Byte arithmetic: the reserved bits and n are 8 modulo 2^8. */
  lemma ReservedWraps(n: byte)
    ensures (Reserved(n) as nat + n as nat) % 0x100 == 8
  {
  }

  /** Masking shifts all bits by n: the first byte starts with the mask's top bits, the last one
      ends with its low bits, and the mask is added inside. */
  lemma MaskedBit(raw: bytes, mask: byte, n: byte, i: nat, k: nat)
    requires n <= 7 && i <= |raw| && k < 8
    ensures var shifted :=
              if k < 8 - n then (if i == |raw| then Bit(mask, k) else Bit(raw[i], k + n))
              else (if i == 0 then Bit(mask, k) else Bit(raw[i - 1], k + n - 8));
            Bit(Masked(raw, mask, n)[i], k) == (shifted != (1 < i < |raw| - 1 && Bit(mask, k)))
  {
    hide Bit, Shl, Shr, Xor, Or, High, Low;
    HalfBits(mask, n);
    ZeroBits(k);
    var carry := CarryInto(raw, mask, n, i);
    if i > 0 {
      ShiftBits(raw[i - 1], 8 - n);
    }
    if i == |raw| {
      OrXorBits(carry, Low(mask, n));
    } else {
      ShiftBits(raw[i], n);
      OrXorBits(Shr(raw[i], n), carry);
      OrXorBits(Or(Shr(raw[i], n), carry), Interior(i, |raw| - 1, mask));
    }
  }

  /** The mask is read from the top bits of the first byte and the low bits of the last one. */
  lemma HiddenBit(raw: bytes, n: byte, k: nat)
    requires n <= 7 && raw != [] && k < 8
    ensures Bit(HiddenMask(raw, n), k) == if k < 8 - n then Bit(raw[|raw| - 1], k) else Bit(raw[0], k)
  {
    hide Bit, Or, High, Low;
    HalfBits(raw[0], n);
    HalfBits(raw[|raw| - 1], n);
    OrXorBits(High(raw[0], n), Low(raw[|raw| - 1], n));
  }

  lemma PlainBit(raw: bytes, n: byte, i: nat, k: nat)
    requires n <= 7 && i < |raw| && k < 8
    ensures Bit(Plain(raw, n, i), k) == (Bit(raw[i], k) != (1 < i < |raw| - 2 && Bit(HiddenMask(raw, n), k)))
  {
    hide Bit, Xor, HiddenMask;
    ZeroBits(k);
    OrXorBits(raw[i], Interior(i, |raw| - 2, HiddenMask(raw, n)));
  }

  /** Unmasking takes the mask out of the inner bytes and shifts all bits back by n. */
  lemma UnmaskedBit(raw: bytes, n: byte, i: nat, k: nat)
    requires n <= 7 && i < |raw| - 1 && k < 8
    ensures var (j, b) := if k >= n then (i, k - n) else (i + 1, k + 8 - n);
            Bit(Unmasked(raw, n)[i], k) == (Bit(raw[j], b) != (1 < j < |raw| - 2 && Bit(HiddenMask(raw, n), b)))
  {
    hide Bit, Shl, Shr, Or, Plain, HiddenMask;
    var a, c := Plain(raw, n, i), Plain(raw, n, i + 1);
    ShiftBits(a, n);
    ShiftBits(c, 8 - n);
    OrXorBits(Shl(a, n), Shr(c, 8 - n));
    if k >= n {
      PlainBit(raw, n, i, k - n);
      ByteBits(c, k + 8 - n);
    } else {
      PlainBit(raw, n, i + 1, k + 8 - n);
    }
  }
}
