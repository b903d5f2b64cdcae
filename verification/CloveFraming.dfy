/** The Clove packet framer (network/clove.go): a five-byte header and a 24-bit length. */
module CloveFraming {
  import opened Bytes
  import opened Bits
  import opened Buffer
  import opened Delivery
  import opened Packets

  const HEADER_LENGTH := 5
  const MASK_COMPRESS_SUPPORT := 1
  const MASK_ENCRYPT := 2
  const MASK_COMPRESSED := 4
  const MASK_FEATURE := 0x88

  // ---------- one packet ----------

  datatype Parsed = Parsed(packet: Packet, length: nat) | Failed(error: NetError)

  /** The four header bytes after the flags. */
  function HeaderWord(s: bytes): nat
    requires |s| >= HEADER_LENGTH
  {
    Uint(BigEndian, s[1..HEADER_LENGTH])
  }

  function PacketLength(s: bytes): nat
    requires |s| >= HEADER_LENGTH
  {
    HeaderWord(s) % 0x100_0000
  }

  function ParseFromBytes(s: bytes): (r: Parsed)
    ensures r.Parsed? ==> HEADER_LENGTH <= r.length <= |s|
  {
    if |s| < HEADER_LENGTH then Failed(DataNotReady)
    else
      var opFlag, length := s[0], PacketLength(s);
      if length < HEADER_LENGTH then Failed(DataIsDamage)
      else if And(opFlag, MASK_FEATURE) != MASK_FEATURE then Failed(DataNotMatch)
      else if length > |s| then Failed(DataNotReady)
      else
        Parsed(Binary(TestMask(opFlag, MASK_ENCRYPT), TestMask(opFlag, MASK_COMPRESSED),
                      TestMask(opFlag, MASK_COMPRESS_SUPPORT),
                      HeaderWord(s) / 0x1000_0000 % 0x10, HeaderWord(s) / 0x100_0000 % 0x10,
                      s[HEADER_LENGTH..length]), length)
  }

  /** The flag byte: each option sets its own bit. */
  function FlagByte(p: Packet): byte
    requires p.Binary?
  {
    MASK_FEATURE + (if p.compressed then MASK_COMPRESSED else 0)
    + (if p.compressSupport then MASK_COMPRESS_SUPPORT else 0) + (if p.encrypted then MASK_ENCRYPT else 0)
  }

  /** The length and the protocol byte are combined with a bitwise or of their top bytes. */
  function Package(p: Packet): (r: Option<bytes>)
    ensures r.Some? <==> p.Binary?
    ensures r.Some? ==> |r.value| == HEADER_LENGTH + |p.raw|
  {
    if !p.Binary? then None
    else
      var length := (|p.raw| + HEADER_LENGTH) % TWO32;
      var protocol := Or(p.protocolType * 0x10 % 0x100, p.protocolVer);
      Some([FlagByte(p), Or(length / 0x100_0000, protocol)] + PutUint(BigEndian, length, 3) + p.raw)
  }

  // ---------- the buffer loop ----------

  /** Nothing to do until more bytes come. */
  predicate Waiting(s: bytes) {
    |s| < HEADER_LENGTH || PacketLength(s) > |s|
  }

  /** What ParseFromBuffer returns and leaves; a packet that is not ready after its bytes were
      taken ends the call without an error. */
  function Drain(s: bytes): Drained
    decreases |s|
  {
    if Waiting(s) then Drained(None, [], s)
    else
      var length := PacketLength(s);
      match ParseFromBytes(s[..length])
      case Failed(DataNotReady) => Drained(None, [], s[length..])
      case Failed(e) => Drained(Some(e), [], s[length..])
      case Parsed(p, _) =>
        After([p], Drain(s[length..]))
  }

  method ParseFromBuffer(b: StandardBuffer) returns (err: Option<NetError>, pcks: seq<Packet>)
    requires b.Valid()
    modifies b`off
    ensures b.Valid() && Drained(err, pcks, b.Contents()) == Drain(old(b.Contents()))
  {
    pcks := [];
    while true
      invariant b.Valid()
      invariant Drain(old(b.Contents())) == After(pcks, Drain(b.Contents()))
      decreases |b.Contents()|
    {
      ghost var s := b.Contents();
      var l := b.Len();
      var peekData, n := b.Peek(HEADER_LENGTH);
      if n < HEADER_LENGTH {
        return None, pcks;
      }
      assert peekData[1..HEADER_LENGTH] == s[1..HEADER_LENGTH];
      var packetLen := Uint(BigEndian, peekData[1..HEADER_LENGTH]) % 0x100_0000;
      if packetLen > l {
        return None, pcks;
      }
      var in_, taken := b.Next(packetLen);
      if taken != packetLen {
        return Some(DataIsDamage), pcks;
      }
      var p := ParseFromBytes(in_);
      if p.Failed? {
        if p.error == DataNotReady {
          return None, pcks;
        }
        return Some(p.error), pcks;
      }
      DrainNext(pcks, s);
      pcks := pcks + [p.packet];
    }
  }

  lemma DrainNext(pcks: seq<Packet>, s: bytes)
    requires !Waiting(s) && ParseFromBytes(s[..PacketLength(s)]).Parsed?
    ensures After(pcks, Drain(s)) ==
            After(pcks + [ParseFromBytes(s[..PacketLength(s)]).packet], Drain(s[PacketLength(s)..]))
  {
  }
}
