/** The scores of the parsers in plain numbers. */
module DetectionWire {
  import opened Bytes
  import opened Bits
  import opened CloveFraming
  import opened CloveFramingWire
  import opened Detection

  /** The Clove score of any bytes: -1 without a header, 0 without protocol numbers or for a frame
      the parser would refuse, 50 while the first frame is incomplete and 99 when it is whole. */
  lemma CloveScored(s: bytes)
    ensures CloveScore(s) ==
            if |s| < 5 then -1
            else
              var n := ThreeBytes(s[2], s[3], s[4]);
              if s[1] / 0x10 == 0 || s[1] % 0x10 == 0 || n < 5 || !Bit(s[0], 7) || !Bit(s[0], 3) then 0
              else if n > |s| then 50
              else 99
  {
    hide Bit, And, Uint;
    if |s| >= 5 {
      WordBytes(s);
      WordFields(s[1], ThreeBytes(s[2], s[3], s[4]));
      AndTwoBits(s[0]);
      hide HeaderWord;
    }
  }

  /** The first byte if it is ASCII, and 0 otherwise. */
  lemma AsciiRead(s: bytes)
    ensures s != [] && s[0] < 0x80 ==> ReadAsciiCode(s) == s[0]
    ensures s == [] || s[0] >= 0x80 ==> ReadAsciiCode(s) == 0
  {
  }

  /** Requests are read from 16 bytes on that start with a G or a P; other parsers score -1. */
  lemma OthersScored(p: Parser, s: bytes)
    requires !p.CloveParser?
    ensures Score(p, s) ==
            if (p.WebSocketParser? || p.HttpParser?) && |s| >= 16 && (s[0] == 'G' as int || s[0] == 'P' as int)
            then p.request(s) else -1
  {
  }

  /** Formats of the type unixmsg are never considered, and default formats are not scored. */
  lemma FormatsScored(f: Format)
    ensures Scored(f) <==> f.packetType != ['u', 'n', 'i', 'x', 'm', 's', 'g'] && !f.isDefault
  {
  }
}
