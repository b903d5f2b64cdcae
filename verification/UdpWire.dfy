/** Fragments in plain numbers: the datagram that is sent, and what the reader makes of any
    datagram. */
module UdpWire {
  import opened Bytes
  import opened Udp

  function TwoBytes(hi: nat, lo: nat): nat {
    hi * 0x100 + lo
  }

  lemma PutTwo(n: nat)
    requires n < 0x1_0000
    ensures var s := PutUint(BigEndian, n, 2); s == [s[0], s[1]] && TwoBytes(s[0], s[1]) == n
  {
    var a := n / 0x100;
    assert PutUint(BigEndian, a, 1) == [a % 0x100];
    assert PutUint(BigEndian, n, 2) == [a % 0x100, n % 0x100];
  }

  lemma UintTwo(s: bytes)
    requires |s| == 2
    ensures Uint(BigEndian, s) == TwoBytes(s[0], s[1])
  {
    assert s[..1][..0] == [] && s[..1][0] == s[0];
    assert Uint(BigEndian, s[..1]) == Uint(BigEndian, s[..1][..0]) * 0x100 + s[0] == s[0];
  }

  /** A fragment is sent as 0x81, its index, the count and its length in two bytes each, the
      higher first, 0x80 and the payload. */
  lemma Layout(idx: nat, count: nat, payload: bytes)
    requires idx < 0x1_0000 && count < 0x1_0000
    ensures var d := Datagram(idx, count, payload);
            && |d| == 8 + |payload| && d[0] == 0x81 && d[7] == 0x80 && d[8..] == payload
            && TwoBytes(d[1], d[2]) == idx && TwoBytes(d[3], d[4]) == count
            && TwoBytes(d[5], d[6]) == |payload| % 0x1_0000
  {
    hide PutUint, TwoBytes;
    PutTwo(idx);
    PutTwo(count);
    PutTwo(|payload| % 0x1_0000);
    var a, b, c := PutUint(BigEndian, idx, 2), PutUint(BigEndian, count, 2),
      PutUint(BigEndian, |payload| % 0x1_0000, 2);
    assert Datagram(idx, count, payload) ==
           [0x81, a[0], a[1], b[0], b[1], c[0], c[1], 0x80] + payload;
  }

  /** A datagram is cut to the reader's buffer. It is a fragment if it has a header with both
      marks whose length agrees with the datagram's modulo 2^16, and a packet of its own with all
      these bytes otherwise. */
  lemma Reads(d: bytes, fragmentSize: nat)
    ensures var t := if |d| <= fragmentSize + 8 then d else d[..fragmentSize + 8];
            Decoded(d, fragmentSize) ==
            if |t| >= 8 && t[0] == 0x81 && t[7] == 0x80 && (TwoBytes(t[5], t[6]) + 8) % 0x1_0000 == |t| % 0x1_0000
            then Part(Fragment(TwoBytes(t[5], t[6]), TwoBytes(t[1], t[2]), TwoBytes(t[3], t[4]), t[8..]))
            else Whole(t)
  {
    hide Uint, TwoBytes;
    var t := if |d| <= fragmentSize + 8 then d else d[..fragmentSize + 8];
    assert d[..|d|] == d;
    if |t| >= 8 {
      UintTwo(t[1..3]);
      UintTwo(t[3..5]);
      UintTwo(t[5..7]);
    }
  }
}
