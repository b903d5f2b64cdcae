/** The Clove frame in plain numbers and bits. */
module CloveFramingWire {
  import opened Bytes
  import opened Bits
  import opened Packets
  import opened CloveFraming
  import opened CloveFramingTheorems

  // ---------- bits ----------

  lemma BitNext(n: nat, k: nat)
    ensures Bit(n, 0) == (n % 2 == 1) && Bit(n, k + 1) == Bit(n / 2, k)
  {
  }

  lemma {:induction false} AndPower(n: nat, k: nat)
    ensures And(n, Power(k)) == (if Bit(n, k) then Power(k) else 0)
    decreases k
  {
    hide And, Bit;
    AndStep(n, Power(k));
    BitNext(n, if k == 0 then 0 else k - 1);
    if k == 0 {
      AndStep(n / 2, 0);
    } else {
      AndPower(n / 2, k - 1);
    }
  }

  function Power(k: nat): nat {
    if k == 0 then 1 else 2 * Power(k - 1)
  }

  lemma AndOneBit(n: nat)
    ensures TestMask(n, 1) == Bit(n, 0) && TestMask(n, 2) == Bit(n, 1) && TestMask(n, 4) == Bit(n, 2)
  {
    hide And, Bit;
    AndPower(n, 0);
    AndPower(n, 1);
    AndPower(n, 2);
    assert Power(2) == 2 * Power(1) == 4 * Power(0) == 4;
  }

  lemma AndNext(n: nat, mask: nat)
    ensures And(n, 2 * mask) == 2 * And(n / 2, mask)
  {
    hide And;
    AndStep(n, 2 * mask);
    assert 2 * mask % 2 == 0 && 2 * mask / 2 == mask;
    assert n % 2 * 0 == 0;
  }

  /** Both feature bits. */
  lemma AndTwoBits(n: nat)
    ensures And(n, 0x88) == 0x88 <==> Bit(n, 3) && Bit(n, 7)
  {
    hide And, Bit;
    var a := n / 2;
    var b := a / 2;
    var c := b / 2;
    AndNext(n, 0x44);
    AndNext(a, 0x22);
    AndNext(b, 0x11);
    AndStep(c, 0x11);
    BitNext(n, 2);
    BitNext(a, 1);
    BitNext(b, 0);
    BitNext(c, 0);
    AndPower(c / 2, 3);
    BitNext(n, 6);
    BitNext(a, 5);
    BitNext(b, 4);
    BitNext(c, 3);
    assert Power(3) == 2 * Power(2) == 4 * Power(1) == 8 * Power(0) == 8;
  }

  lemma HighBits(f: byte)
    requires 0x88 <= f < 0x90
    ensures Bit(f, 7) && !Bit(f, 6) && !Bit(f, 5) && !Bit(f, 4) && Bit(f, 3)
    ensures Bit(f, 2) == ((f - 0x88) / 4 == 1) && Bit(f, 1) == ((f - 0x88) / 2 % 2 == 1) && Bit(f, 0) == (f % 2 == 1)
  {
    hide Bit;
    var a := f / 2;
    var b := a / 2;
    BitNext(f, 0);
    BitNext(f, 1);
    BitNext(f, 2);
    BitNext(a, 0);
    BitNext(a, 1);
    BitNext(b, 0);
    assert b / 2 == 0x11;
    BitNext(f, 3);
    BitNext(a, 2);
    BitNext(b, 1);
    BitNext(f, 4);
    BitNext(a, 3);
    BitNext(b, 2);
    BitNext(f, 5);
    BitNext(a, 4);
    BitNext(b, 3);
    BitNext(f, 6);
    BitNext(a, 5);
    BitNext(b, 4);
    BitsOf0x11();
  }

  lemma BitsOf0x11()
    ensures Bit(0x11, 4) && !Bit(0x11, 3) && !Bit(0x11, 2) && !Bit(0x11, 1) && Bit(0x11, 0)
  {
    assert Bit(0x11, 4) == Bit(8, 3) == Bit(4, 2) == Bit(2, 1) == Bit(1, 0);
    assert Bit(0x11, 3) == Bit(8, 2) == Bit(4, 1) == Bit(2, 0);
    assert Bit(0x11, 2) == Bit(8, 1) == Bit(4, 0);
    assert Bit(0x11, 1) == Bit(8, 0);
  }

  // ---------- what is written ----------

  /** The flag byte of every packaged packet: bits 7 and 3 mark the protocol, bit 0 says that
      compression is supported, bit 1 that the packet is encrypted and bit 2 compressed. */
  lemma FlagsWritten(p: Packet)
    requires p.Binary?
    ensures Package(p).Some?
    ensures var f := Package(p).value[0];
            && Bit(f, 7) && !Bit(f, 6) && !Bit(f, 5) && !Bit(f, 4) && Bit(f, 3)
            && Bit(f, 2) == p.compressed && Bit(f, 1) == p.encrypted && Bit(f, 0) == p.compressSupport
  {
    hide Bit, Or;
    var f := FlagByte(p);
    assert Package(p).value[0] == f;
    HighBits(f);
  }

  function ThreeBytes(a: nat, b: nat, c: nat): nat {
    a * 0x1_0000 + b * 0x100 + c
  }

  /** Behind it a byte with the two protocol numbers and three bytes with the length of header
      and payload, the highest first. */
  lemma Layout(p: Packet)
    requires Framable(p)
    ensures var s, n := Package(p).value, |p.raw| + 5;
            && |s| == n
            && s[1] == p.protocolType * 0x10 + p.protocolVer
            && ThreeBytes(s[2], s[3], s[4]) == n
            && s[5..] == p.raw
  {
    hide HeaderWord, FlagByte, PutUint, Or;
    PackagedHeader(p, []);
    var s, n := Packaged(p), |p.raw| + 5;
    assert s + [] == s && s[5..5 + |p.raw|] == s[5..];
    WordBytes(s);
    SameWord(s[1], ThreeBytes(s[2], s[3], s[4]), p.protocolType * 0x10 + p.protocolVer, n);
  }

  lemma ThreeBytesPut(n: nat)
    ensures var s := PutUint(BigEndian, n, 3); ThreeBytes(s[0], s[1], s[2]) == n % 0x100_0000
  {
    var a := n / 0x100;
    var b := a / 0x100;
    assert PutUint(BigEndian, b, 1) == [b % 0x100];
    assert PutUint(BigEndian, a, 2) == [b % 0x100, a % 0x100];
    assert PutUint(BigEndian, n, 3) == [b % 0x100, a % 0x100, n % 0x100];
    hide PutUint;
    assert n == (b / 0x100) * 0x100_0000 + ThreeBytes(b % 0x100, a % 0x100, n % 0x100);
    SameWord(n / 0x100_0000, n % 0x100_0000, b / 0x100, ThreeBytes(b % 0x100, a % 0x100, n % 0x100));
  }

  lemma TwiceBit(n: nat, k: nat)
    ensures Bit(2 * n, k) <==> k >= 1 && Bit(n, k - 1)
  {
    hide Bit;
    BitNext(2 * n, if k == 0 then 0 else k - 1);
  }

  /** The low bits of q * m + l, for l below m. */
  lemma {:induction false} LowPart(q: nat, l: nat, w: nat, k: nat)
    requires l < Power(w)
    ensures Bit(l, k) <==> k < w && Bit(q * Power(w) + l, k)
    decreases w
  {
    hide Bit;
    if w == 0 {
      ZeroBits(k);
    } else {
      var m := Power(w - 1);
      assert q * Power(w) == 2 * (q * m);
      var n := 2 * (q * m) + l;
      assert n / 2 == q * m + l / 2 && n % 2 == l % 2;
      BitNext(n, if k == 0 then 0 else k - 1);
      BitNext(l, if k == 0 then 0 else k - 1);
      if k > 0 {
        LowPart(q, l / 2, w - 1, k - 1);
      }
    }
  }

  lemma LowNibble(h: nat, l: nat)
    requires l < 0x10
    ensures (h * 0x10 + l) * 0x10 % 0x100 == 2 * (2 * (2 * (2 * l)))
  {
    assert (h * 0x10 + l) * 0x10 == h * 0x100 + l * 0x10;
  }

  lemma ProtocolBits(t: byte, k: nat)
    ensures Bit(t * 0x10 % 0x100, k) <==> 4 <= k < 8 && Bit(t, k - 4)
  {
    hide Bit;
    var h, l := t / 0x10, t % 0x10;
    LowNibble(h, l);
    assert t == h * 0x10 + l;
    TwiceBit(2 * (2 * (2 * l)), k);
    TwiceBit(2 * (2 * l), if k < 1 then 0 else k - 1);
    TwiceBit(2 * l, if k < 2 then 0 else k - 2);
    TwiceBit(l, if k < 3 then 0 else k - 3);
    assert Power(4) == 2 * Power(3) == 4 * Power(2) == 8 * Power(1) == 16 * Power(0) == 16;
    if k >= 4 {
      LowPart(h, l, 4, k - 4);
    }
  }

  /** The four bytes of any packet: numbers above a nibble and lengths above 24 bits run into
      each other, bit by bit. */
  lemma AnyLayout(p: Packet, k: nat)
    requires p.Binary?
    ensures var s, n := Package(p).value, (|p.raw| + 5) % 0x1_0000_0000;
            && (Bit(s[1], k) <==> Bit(n / 0x100_0000, k) || (4 <= k < 8 && Bit(p.protocolType, k - 4)) ||
                                  Bit(p.protocolVer, k))
            && ThreeBytes(s[2], s[3], s[4]) == n % 0x100_0000
            && s[5..] == p.raw
  {
    hide Bit, PutUint, FlagByte;
    var n := (|p.raw| + 5) % 0x1_0000_0000;
    var protocol := Or(p.protocolType * 0x10 % 0x100, p.protocolVer);
    OrXorBits(p.protocolType * 0x10 % 0x100, p.protocolVer);
    OrXorBits(n / 0x100_0000, protocol);
    ProtocolBits(p.protocolType, k);
    ThreeBytesPut(n);
    hide Or, ThreeBytes;
    var low := PutUint(BigEndian, n, 3);
    assert Package(p).value == [FlagByte(p), Or(n / 0x100_0000, protocol)] + low + p.raw;
  }

  lemma SameWord(a: nat, b: nat, c: nat, d: nat)
    requires b < 0x100_0000 && d < 0x100_0000 && a * 0x100_0000 + b == c * 0x100_0000 + d
    ensures a == c && b == d
  {
  }

  lemma WordBytes(s: bytes)
    requires |s| >= 5
    ensures HeaderWord(s) == (s[1] as nat) * 0x100_0000 + ThreeBytes(s[2], s[3], s[4])
  {
    var w := s[1..5];
    hide Uint;
    UintStep(w);
    UintStep(w[..3]);
    UintStep(w[..2]);
    UintStep(w[..1]);
    UintStep(w[..0]);
    assert w[..3][..2] == w[..2] && w[..2][..1] == w[..1] && w[..1][..0] == w[..0] == [];
  }

  lemma WordFields(a: nat, low: nat)
    requires a < 0x100 && low < 0x100_0000
    ensures var w := a * 0x100_0000 + low;
            && w % 0x100_0000 == low
            && w / 0x1000_0000 % 0x10 == a / 0x10 && w / 0x100_0000 % 0x10 == a % 0x10
  {
    WordParts(a / 0x10, a % 0x10, low);
    assert a == a / 0x10 * 0x10 + a % 0x10;
  }

  // ---------- what is read ----------

  /** What ParseFromBytes makes of any bytes. */
  lemma ParsedBits(s: bytes)
    ensures ParseFromBytes(s) ==
            if |s| < 5 then Failed(DataNotReady)
            else
              var n := ThreeBytes(s[2], s[3], s[4]);
              if n < 5 then Failed(DataIsDamage)
              else if !Bit(s[0], 7) || !Bit(s[0], 3) then Failed(DataNotMatch)
              else if n > |s| then Failed(DataNotReady)
              else Parsed(Binary(Bit(s[0], 1), Bit(s[0], 2), Bit(s[0], 0), s[1] / 0x10, s[1] % 0x10, s[5..n]), n)
  {
    hide Bit, And, Uint;
    if |s| >= 5 {
      WordBytes(s);
      WordFields(s[1], ThreeBytes(s[2], s[3], s[4]));
      AndOneBit(s[0]);
      AndTwoBits(s[0]);
      hide TestMask, HeaderWord;
    }
  }
}
