/** Packaging and parsing Clove packets undo each other, and the framer gives the same packets
    however the bytes arrive. */
module CloveFramingTheorems {
  import opened Bytes
  import opened Bits
  import opened Packets
  import opened Delivery
  import opened CloveFraming

  // ---------- one packet ----------

  /** What the header can carry: two nibbles and a 24-bit length. */
  predicate Framable(p: Packet) {
    p.Binary? && p.protocolType < 0x10 && p.protocolVer < 0x10 && |p.raw| + HEADER_LENGTH <= PACKET_MAX_LENGTH
  }

  function Packaged(p: Packet): bytes {
    match Package(p) case Some(s) => s case None => []
  }

  lemma UintStep(s: bytes)
    ensures Uint(BigEndian, s) == if s == [] then 0 else Uint(BigEndian, s[..|s| - 1]) * 0x100 + s[|s| - 1]
  {
  }

  lemma Spread(first: nat, shift: nat, middle: nat, last: nat)
    ensures (first * shift + middle) * 0x100 + last == first * (shift * 0x100) + (middle * 0x100 + last)
  {
  }

  lemma {:induction false} UintHead(s: bytes, width: nat)
    requires |s| == width + 1
    ensures Uint(BigEndian, s) == s[0] * Shift(width) + Uint(BigEndian, s[1..])
    decreases width
  {
    hide Uint;
    UintStep(s);
    UintStep(s[1..]);
    if width != 0 {
      var front := s[..width];
      UintHead(front, width - 1);
      assert s[1..][..width - 1] == front[1..] && s[1..][width - 1] == s[width];
      Spread(s[0], Shift(width - 1), Uint(BigEndian, front[1..]), s[width]);
    }
  }

  function Shift(width: nat): nat {
    if width == 0 then 1 else Shift(width - 1) * 0x100
  }

  /** The four bytes after the flags: one byte of protocol and three of length. */
  lemma WordOfHeader(protocol: byte, length: nat)
    requires length <= PACKET_MAX_LENGTH
    ensures Uint(BigEndian, [protocol] + PutUint(BigEndian, length, 3)) == protocol * 0x100_0000 + length
  {
    var word := [protocol] + PutUint(BigEndian, length, 3);
    UintHead(word, 3);
    assert word[1..] == PutUint(BigEndian, length, 3);
    var a := length / 0x100;
    var b := a / 0x100;
    assert FitsWidth(length, 3) == FitsWidth(a, 2) == FitsWidth(b, 1) == (b / 0x100 == 0);
    UintPut(BigEndian, length, 3);
    assert Shift(3) == 0x100_0000;
  }

  lemma PackagedHeader(p: Packet, r: bytes)
    requires Framable(p)
    ensures var s := Packaged(p) + r;
            && |s| == HEADER_LENGTH + |p.raw| + |r|
            && s[0] == FlagByte(p)
            && HeaderWord(s) == (p.protocolType * 0x10 + p.protocolVer) * 0x100_0000 + (|p.raw| + HEADER_LENGTH)
            && s[HEADER_LENGTH..HEADER_LENGTH + |p.raw|] == p.raw
            && s[HEADER_LENGTH + |p.raw|..] == r
  {
    hide PutUint, Uint, FlagByte, Or;
    var s, length := Packaged(p) + r, |p.raw| + HEADER_LENGTH;
    var protocol := p.protocolType * 0x10 + p.protocolVer;
    OrNibbles(p.protocolType, p.protocolVer);
    assert length % TWO32 == length && length / 0x100_0000 == 0;
    assert s[1..HEADER_LENGTH] == [protocol] + PutUint(BigEndian, length, 3);
    WordOfHeader(protocol, length);
  }

  lemma WordParts(t: nat, v: nat, length: nat)
    requires t < 0x10 && v < 0x10 && length < 0x100_0000
    ensures var w := (t * 0x10 + v) * 0x100_0000 + length;
            w / 0x1000_0000 % 0x10 == t && w / 0x100_0000 % 0x10 == v && w % 0x100_0000 == length
  {
  }

  lemma AndStep(n: nat, mask: nat)
    ensures And(n, mask) == (n % 2) * (mask % 2) + 2 * And(n / 2, mask / 2)
    ensures And(n, 0) == 0
  {
  }

  lemma AndSingleBits(n: nat)
    ensures And(n, 1) == n % 2 && And(n, 2) == n / 2 % 2 * 2 && And(n, 4) == n / 2 / 2 % 2 * 4
  {
    hide And;
    var a := n / 2;
    var b := a / 2;
    AndStep(n, 1);
    AndStep(n, 2);
    AndStep(a, 1);
    AndStep(n, 4);
    AndStep(a, 2);
    AndStep(b, 1);
  }

  lemma AndFeature(n: nat)
    requires 0x88 <= n < 0x90
    ensures And(n, 0x88) == 0x88
  {
    var a := n / 2;
    var b := a / 2;
    assert And(0x11, 0x11) == 0x11;
    hide And;
    assert b / 2 == 0x11;
    AndStep(n, 0x88);
    AndStep(a, 0x44);
    AndStep(b, 0x22);
  }

  lemma FlagsRead(p: Packet)
    requires p.Binary?
    ensures var f := FlagByte(p);
            && And(f, MASK_FEATURE) == MASK_FEATURE
            && TestMask(f, MASK_ENCRYPT) == p.encrypted
            && TestMask(f, MASK_COMPRESSED) == p.compressed
            && TestMask(f, MASK_COMPRESS_SUPPORT) == p.compressSupport
  {
    hide And;
    var f := FlagByte(p);
    AndFeature(f);
    AndSingleBits(f);
  }

  /** A packaged packet, whatever follows it, parses to itself exactly when its protocol
      numbers fit in nibbles and its length in 24 bits. */
  lemma ParseUndoesPackage(p: Packet, r: bytes)
    requires p.Binary?
    ensures ParseFromBytes(Packaged(p) + r) == Parsed(p, HEADER_LENGTH + |p.raw|) <==> Framable(p)
  {
    hide FlagByte, HeaderWord, Or, And, Packaged;
    var s := Packaged(p) + r;
    if Framable(p) {
      PackagedHeader(p, r);
      FlagsRead(p);
      WordParts(p.protocolType, p.protocolVer, |p.raw| + HEADER_LENGTH);
      assert PacketLength(s) == |p.raw| + HEADER_LENGTH;
      assert ParseFromBytes(s).Parsed?;
    } else {
      assert |s| >= HEADER_LENGTH ==> PacketLength(s) < 0x100_0000;
    }
  }

  // ---------- streams ----------

  function Stream(ps: seq<Packet>): bytes {
    if ps == [] then [] else Packaged(ps[0]) + Stream(ps[1..])
  }

  ghost predicate AllFramable(ps: seq<Packet>) {
    ps != [] ==> Framable(ps[0]) && AllFramable(ps[1..])
  }

  /** Draining takes nothing: the first frame is incomplete, or claims to have no bytes. */
  predicate Idle(s: bytes) {
    Waiting(s) || PacketLength(s) == 0
  }

  /** Every whole frame of s parses, up to a frame shorter than its header, which is thrown
      away and ends the call, and behind which there is nothing to take. */
  predicate Steady(s: bytes)
    decreases |s|
  {
    Idle(s) ||
    var n := PacketLength(s);
    if n < HEADER_LENGTH then Idle(s[n..]) else ParseFromBytes(s[..n]).Parsed? && Steady(s[n..])
  }

  lemma HeaderKept(a: bytes, b: bytes)
    requires |a| >= HEADER_LENGTH
    ensures PacketLength(a + b) == PacketLength(a)
  {
    assert (a + b)[1..HEADER_LENGTH] == a[1..HEADER_LENGTH];
  }

  lemma IdleDrain(s: bytes)
    ensures Drain(s) == Drained(None, [], s) <==> Idle(s)
    ensures !Idle(s) ==> |Drain(s).rest| < |s|
    ensures !Waiting(s) && PacketLength(s) < HEADER_LENGTH ==> Drain(s) == Drained(None, [], s[PacketLength(s)..])
  {
    hide PacketLength;
    if !Waiting(s) && PacketLength(s) >= HEADER_LENGTH && ParseFromBytes(s[..PacketLength(s)]).Parsed? {
      RestNoLonger(s[PacketLength(s)..]);
    }
  }

  lemma {:induction false} RestNoLonger(s: bytes)
    ensures |Drain(s).rest| <= |s|
    decreases |s|
  {
    hide PacketLength;
    if !Waiting(s) && ParseFromBytes(s[..PacketLength(s)]).Parsed? {
      RestNoLonger(s[PacketLength(s)..]);
    }
  }

  lemma IdlePrefix(a: bytes, b: bytes)
    requires Idle(a + b)
    ensures Idle(a)
  {
    hide PacketLength;
    if !Waiting(a) {
      HeaderKept(a, b);
    }
  }

  /** Parsing a first part, then what it left together with the rest, parses the whole. */
  lemma {:induction false} SteadySplit(a: bytes, b: bytes)
    requires Steady(a + b)
    ensures var d := Drain(a);
            && d.error == None && Idle(d.rest) && Steady(d.rest + b)
            && Drain(a + b) == After(d.packets, Drain(d.rest + b))
    decreases |a|
  {
    hide ParseFromBytes, PacketLength;
    IdleDrain(a);
    if Idle(a) {
      assert After([], Drain(a + b)) == Drain(a + b);
      return;
    }
    HeaderKept(a, b);
    var n := PacketLength(a);
    assert (a + b)[..n] == a[..n] && (a + b)[n..] == a[n..] + b;
    if n < HEADER_LENGTH {
      IdleDrain(a + b);
      IdlePrefix(a[n..], b);
      IdleDrain(a[n..] + b);
      assert After([], Drain(a[n..] + b)) == Drain(a[n..] + b);
    } else {
      SteadySplit(a[n..], b);
      AfterAfter([ParseFromBytes(a[..n]).packet], Drain(a[n..]).packets, Drain(Drain(a[n..]).rest + b));
    }
  }

  /** The framer is indifferent to chunking: on steady bytes, any split gives the packets, in
      order, and the leftover of one delivery. */
  lemma {:induction false} ChunkIndependence(buffered: bytes, chunks: seq<bytes>)
    requires Idle(buffered) && Steady(buffered + Concat(chunks))
    ensures Feed(Drain, buffered, chunks) == Drain(buffered + Concat(chunks))
    decreases |chunks|
  {
    hide Idle, Steady, Drain;
    if chunks == [] {
      assert buffered + [] == buffered;
      IdleDrain(buffered);
    } else {
      var first, rest := buffered + chunks[0], Concat(chunks[1..]);
      assert buffered + Concat(chunks) == first + rest;
      SteadySplit(first, rest);
      ChunkIndependence(Drain(first).rest, chunks[1..]);
    }
  }

  /** A strict prefix of a packaged packet is waited for. */
  lemma IncompleteWaits(p: Packet, s: bytes)
    requires Framable(p) && IsStrictPrefix(s, Packaged(p))
    ensures Waiting(s)
  {
    hide HeaderWord, Packaged, FlagByte;
    if |s| >= HEADER_LENGTH {
      PackagedLength(p);
      assert Packaged(p) == s + Packaged(p)[|s|..];
      HeaderKept(s, Packaged(p)[|s|..]);
    }
  }

  lemma PackagedLength(p: Packet)
    requires Framable(p)
    ensures |Packaged(p)| == |p.raw| + HEADER_LENGTH && PacketLength(Packaged(p)) == |Packaged(p)|
    ensures ParseFromBytes(Packaged(p)) == Parsed(p, |Packaged(p)|)
  {
    hide HeaderWord, FlagByte, ParseFromBytes, Or, PutUint;
    PackagedHeader(p, []);
    WordParts(p.protocolType, p.protocolVer, |p.raw| + HEADER_LENGTH);
    assert Packaged(p) + [] == Packaged(p);
    ParseUndoesPackage(p, []);
  }

  /** The bytes s, a first part of the stream of ps, gave the packets that are whole in it and
      left exactly the incomplete one. */
  predicate Arrived(ps: seq<Packet>, s: bytes, d: Drained) {
    && d.error == None && d.packets <= ps
    && s == Stream(d.packets) + d.rest
    && if |d.packets| == |ps| then d.rest == []
       else var next := Packaged(ps[|d.packets|]); |d.rest| < |next| && d.rest == next[..|d.rest|]
  }

  lemma FirstDrained(first: bytes, r: bytes)
    requires |first| >= HEADER_LENGTH && PacketLength(first) == |first| && ParseFromBytes(first).Parsed?
    ensures Steady(r) ==> Steady(first + r)
    ensures Drain(first + r) == After([ParseFromBytes(first).packet], Drain(r))
  {
    hide ParseFromBytes, PacketLength;
    HeaderKept(first, r);
    assert (first + r)[..|first|] == first && (first + r)[|first|..] == r;
  }

  lemma WaitingDrain(s: bytes)
    requires Waiting(s)
    ensures Steady(s) && Drain(s) == Drained(None, [], s)
  {
  }

  /** Any first part of a stream of packaged packets drains to the whole packets in it and
      leaves exactly the incomplete one. */
  lemma {:induction false} PrefixDrains(ps: seq<Packet>, s: bytes)
    requires AllFramable(ps) && s <= Stream(ps)
    ensures Steady(s) && Arrived(ps, s, Drain(s))
    decreases |ps|
  {
    hide ParseFromBytes, PacketLength, Packaged, Framable, Steady, Drain;
    if ps == [] {
      assert s == [] && Stream([]) + [] == s;
      WaitingDrain(s);
      return;
    }
    var first := Packaged(ps[0]);
    if |s| < |first| {
      assert s == first[..|s|];
      IncompleteWaits(ps[0], s);
      WaitingDrain(s);
      assert Stream([]) + s == s;
    } else {
      var rest := s[|first|..];
      assert s == first + rest && rest <= Stream(ps[1..]);
      PackagedLength(ps[0]);
      FirstDrained(first, rest);
      PrefixDrains(ps[1..], rest);
      var d := Drain(rest);
      assert ([ps[0]] + d.packets)[1..] == d.packets;
      assert s == first + (Stream(d.packets) + d.rest) == Stream([ps[0]] + d.packets) + d.rest;
    }
  }

  /** Feeding any first part of a packaged stream, in any pieces, returns exactly the packets
      that have arrived, in order, and leaves exactly the incomplete tail. */
  lemma PackagedChunks(ps: seq<Packet>, chunks: seq<bytes>)
    requires AllFramable(ps) && Concat(chunks) <= Stream(ps)
    ensures Arrived(ps, Concat(chunks), Feed(Drain, [], chunks))
  {
    PrefixDrains(ps, Concat(chunks));
    assert [] + Concat(chunks) == Concat(chunks);
    ChunkIndependence([], chunks);
  }
}
