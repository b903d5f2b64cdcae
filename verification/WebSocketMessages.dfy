/** Fragmented messages, RFC 6455 section 5.4: reassembly, and delivery in pieces. */
module WebSocketMessages {
  import opened Bytes
  import opened Packets
  import opened WebSocket
  import opened WebSocketTheorems

  ghost predicate AllValid(fs: seq<Frame>) {
    fs != [] ==> ValidFrame(fs[0]) && AllValid(fs[1..])
  }

  /** Continuation frames: opcode 0, the last one final. */
  ghost predicate Continuation(fs: seq<Frame>) {
    && fs != [] && AllValid(fs) && fs[0].op == 0
    && fs[0].fin == (|fs| == 1)
    && (|fs| > 1 ==> Continuation(fs[1..]))
  }

  /** A data or ping message: a first frame that names the type, then continuations. */
  ghost predicate Message(fs: seq<Frame>) {
    && fs != [] && AllValid(fs) && fs[0].op in {1, 2, 9}
    && fs[0].fin == (|fs| == 1)
    && (|fs| > 1 ==> Continuation(fs[1..]))
  }

  ghost function Wires(fs: seq<Frame>): bytes
    requires AllValid(fs)
  {
    if fs == [] then [] else Wire(fs[0]) + Wires(fs[1..])
  }

  ghost function Plains(fs: seq<Frame>): bytes
    requires AllValid(fs)
  {
    if fs == [] then [] else Plain(fs[0]) + Plains(fs[1..])
  }

  function Payloads(fs: seq<Frame>): bytes {
    if fs == [] then [] else fs[0].payload + Payloads(fs[1..])
  }

  function PacketOf(op: nat, payload: bytes): Packet {
    if op == 1 then Text(payload) else if op == 2 then Binary(false, false, false, 0, 0, payload) else Ping(payload)
  }

  // ---------- reassembly ----------

  lemma NonFinalSkipped(f: Frame, r: bytes)
    requires ValidFrame(f) && !f.fin
    ensures CheckFrames(Wire(f) + r) == CheckFrames(r)
  {
    hide Wire, FrameLength, Payload, HeadLength;
    WholeFrame(f, r);
    FirstByteRead(f);
  }

  lemma FinalSeen(f: Frame, s: bytes)
    requires ValidFrame(f) && f.fin && s != [] && s[0] == FirstByte(f)
    ensures CheckFrames(s) == Finished
  {
    FirstByteRead(f);
  }

  lemma {:induction false} ContinuationFinishes(fs: seq<Frame>, r: bytes)
    requires Continuation(fs)
    ensures CheckFrames(Wires(fs) + r) == Finished
  {
    var rest := Wires(fs[1..]) + r;
    assert Wires(fs) + r == Wire(fs[0]) + rest;
    hide Wire, CheckFrames;
    if |fs| > 1 {
      NonFinalSkipped(fs[0], rest);
      ContinuationFinishes(fs[1..], r);
    } else {
      WholeFrame(fs[0], rest);
      FinalSeen(fs[0], Wire(fs[0]) + rest);
    }
  }

  /** One whole frame in the loop. */
  lemma FrameTaken(f: Frame, front: bytes, r: bytes, packet: Option<Packet>, recombining: bool)
    requires ValidFrame(f) && (packet.Some? ==> front != [])
    ensures Frames(front, Wire(f) + r, packet, recombining) ==
            match Accept(f.op, recombining || !f.fin, packet, f.payload)
            case Refused(e) => WsParsed(Some(e), None, 0, front + Plain(f) + r)
            case Accepted(q) =>
              if f.fin then WsParsed(None, Some(q), |front + Plain(f)|, front + Plain(f) + r)
              else Frames(front + Plain(f), r, Some(q), true)
  {
    hide Wire, Plain, Accept, Frames, FrameLength, Payload, HeadLength, Incomplete;
    var s := Wire(f) + r;
    WholeFrame(f, r);
    FirstByteRead(f);
    assert front + s[..HeadLength(s)] + Payload(s) == front + Plain(f);
    FramesUnfolded(front, s, packet, recombining);
  }

  /** A lone final frame of any other opcode ends the connection: a close frame as the client's
      request, every other one as damage. Nothing is consumed. */
  lemma FinalRefused(f: Frame, r: bytes)
    requires ValidFrame(f) && f.fin && f.op !in {1, 2, 9}
    ensures Parsing(Wire(f) + r) ==
            WsParsed(Some(if f.op == 8 then ClientReqDisconnect else DataIsDamage), None, 0, Plain(f) + r)
  {
    hide Frames, Wire, Plain, CheckFrames;
    WholeFrame(f, r);
    FinalSeen(f, Wire(f) + r);
    FrameTaken(f, [], r, None, false);
    assert [] + Plain(f) == Plain(f);
  }

  lemma AcceptMore(op: nat, got: bytes, payload: bytes)
    requires op in {1, 2, 9}
    ensures Accept(0, true, Some(PacketOf(op, got)), payload) == Accepted(PacketOf(op, got + payload))
    ensures Accept(op, false, None, payload) == Accept(op, true, None, payload) == Accepted(PacketOf(op, payload))
  {
  }

  /** The first frame of a sequence, next to the rest of it. */
  lemma Unfolded(fs: seq<Frame>, front: bytes, r: bytes)
    requires fs != [] && AllValid(fs)
    ensures Wires(fs) + r == Wire(fs[0]) + (Wires(fs[1..]) + r)
    ensures front + Plains(fs) + r == front + Plain(fs[0]) + Plains(fs[1..]) + r
    ensures |Plains(fs)| == |Plain(fs[0])| + |Plains(fs[1..])|
    ensures |fs| == 1 ==> Wires(fs) == Wire(fs[0]) && Plains(fs) == Plain(fs[0]) && Wires(fs[1..]) + r == r
  {
    hide Wire, Plain;
    var w, p, ws, ps := Wire(fs[0]), Plain(fs[0]), Wires(fs[1..]), Plains(fs[1..]);
    assert Wires(fs) == w + ws && Plains(fs) == p + ps;
    if |fs| == 1 {
      assert fs[1..] == [] && w + [] == w && p + [] == p && [] + r == r;
    }
    hide Wires, Plains, AllValid;
    assert w + ws + r == w + (ws + r);
    assert front + (p + ps) + r == front + p + ps + r;
  }

  lemma PayloadsUnfolded(fs: seq<Frame>, got: bytes)
    requires fs != []
    ensures got + Payloads(fs) == got + fs[0].payload + Payloads(fs[1..])
    ensures |fs| == 1 ==> Payloads(fs) == fs[0].payload
  {
    var first, rest := fs[0].payload, Payloads(fs[1..]);
    assert Payloads(fs) == first + rest;
    assert got + (first + rest) == got + first + rest;
    if |fs| == 1 {
      assert fs[1..] == [] && first + [] == first;
    }
  }

  lemma {:induction false} ContinuationTaken(fs: seq<Frame>, front: bytes, r: bytes, op: nat, got: bytes)
    requires Continuation(fs) && op in {1, 2, 9} && front != []
    ensures Frames(front, Wires(fs) + r, Some(PacketOf(op, got)), true) ==
            WsParsed(None, Some(PacketOf(op, got + Payloads(fs))), |front| + |Plains(fs)|, front + Plains(fs) + r)
    decreases |fs|
  {
    hide Wire, Plain, Accept, Frames, Wires, Plains, PacketOf, Payloads;
    var f, rest := fs[0], Wires(fs[1..]) + r;
    Unfolded(fs, front, r);
    PayloadsUnfolded(fs, got);
    AcceptMore(op, got, f.payload);
    FrameTaken(f, front, rest, Some(PacketOf(op, got)), true);
    if |fs| > 1 {
      ContinuationTaken(fs[1..], front + Plain(f), r, op, got + f.payload);
    }
  }

  /** Any message, cut into frames with any masks and length forms and followed by any bytes,
      is returned whole; exactly its frames are consumed and only masked payloads change. */
  lemma Reassembly(fs: seq<Frame>, r: bytes)
    requires Message(fs)
    ensures Parsing(Wires(fs) + r) ==
            WsParsed(None, Some(PacketOf(fs[0].op, Payloads(fs))), |Wires(fs)|, Plains(fs) + r)
    ensures |Plains(fs)| == |Wires(fs)|
  {
    hide Wire, Plain, Accept, Frames, CheckFrames, Wires, Plains, PacketOf, Payloads;
    var f, rest := fs[0], Wires(fs[1..]) + r;
    var s := Wire(f) + rest;
    SameLengths(fs);
    Unfolded(fs, [], r);
    PayloadsUnfolded(fs, []);
    assert [] + Payloads(fs) == Payloads(fs) && [] + f.payload == f.payload;
    assert [] + Plain(f) == Plain(f) && [] + Plains(fs) == Plains(fs);
    WholeFrame(f, rest);
    AcceptMore(f.op, [], f.payload);
    FrameTaken(f, [], rest, None, false);
    if |fs| > 1 {
      ContinuationFinishes(fs[1..], r);
      NonFinalSkipped(f, rest);
      ContinuationTaken(fs[1..], Plain(f), r, f.op, f.payload);
    } else {
      FinalSeen(f, s);
    }
  }

  lemma {:induction false} SameLengths(fs: seq<Frame>)
    requires AllValid(fs)
    ensures |Plains(fs)| == |Wires(fs)| >= 2 * |fs|
  {
    hide Wire, Plain;
    if fs != [] {
      WholeFrame(fs[0], []);
      SameLengths(fs[1..]);
    }
  }
}
