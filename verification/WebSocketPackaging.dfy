/** Packaging a text or binary packet as one frame and parsing it back. */
module WebSocketPackaging {
  import opened Bytes
  import opened Packets
  import opened WebSocket
  import opened WebSocketTheorems
  import opened WebSocketMessages

  function RawOf(p: Packet): bytes
    requires p.Text? || p.Binary? || p.Ping?
  {
    match p case Text(t) => t case Binary(_, _, _, _, _, raw) => raw case Ping(d) => d
  }

  function OpOf(p: Packet): nat {
    if p.Text? then 1 else if p.Binary? then 2 else if p.Ping? then 10 else 0
  }

  /** The frame Package lays out for a payload below 2^32 bytes. */
  function FrameOf(p: Packet): Frame
    requires p.Text? || p.Binary? || p.Ping?
  {
    var n := |RawOf(p)|;
    Frame(true, 0, OpOf(p), if n <= 125 then Short else if n <= 0xffff then Medium else Long, None, RawOf(p))
  }

  lemma PackagedFrame(p: Packet)
    requires (p.Text? || p.Binary? || p.Ping?) && |RawOf(p)| < TWO32
    ensures ValidFrame(FrameOf(p)) && Package(p) == Wire(FrameOf(p)) == Plain(FrameOf(p))
  {
    hide PutUint;
    var f := FrameOf(p);
    assert Header(f) + [] == Header(f);
  }

  lemma OneFrameMessage(f: Frame, r: bytes)
    requires ValidFrame(f) && f.fin && f.op in {1, 2, 9}
    ensures Parsing(Wire(f) + r) == WsParsed(None, Some(PacketOf(f.op, f.payload)), |Wire(f)|, Plain(f) + r)
  {
    hide Wire, Plain, PacketOf, Parsing;
    assert [f][1..] == [] && AllValid([f]);
    Reassembly([f], r);
    Unfolded([f], [], r);
    PayloadsUnfolded([f], []);
  }

  /** A payload of 2^32 bytes or more is announced with its low 32 bits only. */
  lemma LongPayloadCut(p: Packet, r: bytes)
    requires (p.Text? || p.Binary?) && |RawOf(p)| >= TWO32
    ensures Parsing(Package(p) + r).consumed < |Package(p)|
  {
    hide PutUint, Uint, Payload;
    var s, n := Package(p) + r, |RawOf(p)|;
    assert |Package(p)| == 10 + n;
    assert s[0] == 0x80 + OpOf(p) && s[1] == 127;
    assert HeadLength(s) == 10 && FrameLength(s).value < 10 + TWO32;
    assert CheckFinish(s) == Finished;
    FramesUnfolded([], s, None, false);
  }

  /** Package then ParseFromBytes returns the same payload as the same type, and consumes the
      whole frame and nothing else, exactly when the payload is below 2^32 bytes. */
  lemma ParseUndoesPackage(p: Packet, r: bytes)
    requires p.Text? || p.Binary?
    ensures Parsing(Package(p) + r) == WsParsed(None, Some(PacketOf(OpOf(p), RawOf(p))), |Package(p)|, Package(p) + r)
            <==> |RawOf(p)| < TWO32
  {
    hide Package, Parsing, Wire, Plain, PacketOf;
    if |RawOf(p)| < TWO32 {
      PackagedFrame(p);
      OneFrameMessage(FrameOf(p), r);
    } else {
      LongPayloadCut(p, r);
    }
  }

  /** No unmasked frame with the same payload is shorter. */
  lemma ShortestForm(p: Packet, f: Frame)
    requires (p.Text? || p.Binary?) && ValidFrame(f) && f.key == None && f.payload == RawOf(p)
    ensures |Package(p)| <= |Wire(f)|
  {
  }

  lemma LongPingRefused(p: Packet, r: bytes)
    requires p.Ping? && |p.data| >= TWO32
    ensures Parsing(Package(p) + r).error == Some(DataIsDamage)
  {
    hide PutUint, Uint, Payload;
    var s, n := Package(p) + r, |p.data|;
    assert |Package(p)| == 10 + n;
    assert s[0] == 0x8a && s[1] == 127;
    assert HeadLength(s) == 10 && FrameLength(s).value < 10 + TWO32;
    assert CheckFinish(s) == Finished;
    FramesUnfolded([], s, None, false);
  }

  /** A packaged ping carries opcode 10, which the parser refuses, however long the ping is. */
  lemma PackagedPingRefused(p: Packet, r: bytes)
    requires p.Ping?
    ensures Parsing(Package(p) + r).error == Some(DataIsDamage)
  {
    hide Package, Parsing, Wire, Plain;
    if |p.data| < TWO32 {
      PackagedFrame(p);
      FinalRefused(FrameOf(p), r);
    } else {
      LongPingRefused(p, r);
    }
  }

  /** Other packets are sent as an empty frame with opcode 0, which the parser refuses. */
  lemma OthersPackaged(p: Packet, r: bytes)
    requires p.Http? || p.UnixMsg?
    ensures Package(p) == [0x80, 0] && Parsing(Package(p) + r).error == Some(DataIsDamage)
  {
    var f := Frame(true, 0, 0, Short, None, []);
    assert Package(p) == Wire(f);
    hide Package, Parsing, Wire, Plain;
    FinalRefused(f, r);
  }
}
