/** Any frames up to a final one: which packet the parser makes of them, or which frame it
    refuses. */
module WebSocketFrames {
  import opened Bytes
  import opened Packets
  import opened WebSocket
  import opened WebSocketTheorems
  import opened WebSocketMessages

  /** Frames of which exactly the last is final. */
  ghost predicate Burst(fs: seq<Frame>) {
    && fs != [] && AllValid(fs)
    && fs[0].fin == (|fs| == 1)
    && (|fs| > 1 ==> Burst(fs[1..]))
  }

  /** A continuation, or the first frame of a text, binary or ping message. */
  predicate Readable(f: Frame) {
    f.op in {0, 1, 2, 9}
  }

  /** The last frame that starts a message, -1 if there is none. */
  function LastStart(fs: seq<Frame>): (k: int)
    ensures -1 <= k < |fs|
    ensures k >= 0 ==> fs[k].op != 0
    ensures forall i :: k < i < |fs| ==> fs[i].op == 0
  {
    if fs == [] then -1
    else
      var k := LastStart(fs[1..]);
      if k >= 0 then k + 1 else if fs[0].op != 0 then 0 else -1
  }

  lemma {:induction false} BurstFinishes(fs: seq<Frame>, r: bytes)
    requires Burst(fs)
    ensures CheckFrames(Wires(fs) + r) == Finished
    decreases |fs|
  {
    hide Wire, CheckFrames, Wires;
    var rest := Wires(fs[1..]) + r;
    Unfolded(fs, [], r);
    if |fs| > 1 {
      NonFinalSkipped(fs[0], rest);
      BurstFinishes(fs[1..], r);
    } else {
      WholeFrame(fs[0], rest);
      FinalSeen(fs[0], Wire(fs[0]) + rest);
    }
  }

  /** The frame loop takes the first frame. */
  lemma FirstTaken(fs: seq<Frame>, r: bytes)
    requires Burst(fs)
    ensures Plain(fs[0]) != []
    ensures var f, rest := fs[0], Wires(fs[1..]) + r;
            Parsing(Wires(fs) + r) ==
            match Accept(f.op, !f.fin, None, f.payload)
            case Refused(e) => WsParsed(Some(e), None, 0, Plain(f) + rest)
            case Accepted(q) =>
              if f.fin then WsParsed(None, Some(q), |Plain(f)|, Plain(f) + rest)
              else Frames(Plain(f), rest, Some(q), true)
  {
    hide Wire, Plain, Accept, Frames, CheckFrames, Wires, Parsing, CheckFinish;
    var f, rest := fs[0], Wires(fs[1..]) + r;
    Unfolded(fs, [], r);
    SameLengths(fs);
    BurstFinishes(fs, r);
    LongEnough(Wires(fs) + r);
    ParsingUnfolded(Wires(fs) + r);
    FrameTaken(f, [], rest, None, false);
    WholeFrame(f, rest);
    assert [] + Plain(f) == Plain(f);
  }

  lemma LongEnough(s: bytes)
    ensures |s| >= 2 ==> CheckFinish(s) == CheckFrames(s)
  {
  }

  lemma Starts(op: nat, packet: Option<Packet>, recombining: bool, payload: bytes)
    requires op in {1, 2, 9}
    ensures Accept(op, recombining, packet, payload) == Accepted(PacketOf(op, payload))
  {
  }

  /** What the loop returns for readable frames behind the start of a message. */
  ghost function Assembled(fs: seq<Frame>, op: nat, got: bytes): Packet {
    var k := LastStart(fs);
    if k < 0 then PacketOf(op, got + Payloads(fs)) else PacketOf(fs[k].op, Payloads(fs[k..]))
  }

  lemma AssembledNext(fs: seq<Frame>, op: nat, got: bytes)
    requires fs != []
    ensures var f := fs[0];
            Assembled(fs, op, got) ==
            if f.op == 0 then Assembled(fs[1..], op, got + f.payload) else Assembled(fs[1..], f.op, f.payload)
  {
    hide PacketOf, Payloads;
    PayloadsUnfolded(fs, got);
    PayloadsUnfolded(fs, []);
    assert [] + Payloads(fs) == Payloads(fs) && [] + fs[0].payload == fs[0].payload && fs[0..] == fs;
    var k := LastStart(fs[1..]);
    if k >= 0 {
      assert fs[1..][k..] == fs[k + 1..];
    }
  }

  lemma {:induction false} AllTaken(fs: seq<Frame>, front: bytes, r: bytes, op: nat, got: bytes)
    requires Burst(fs) && (forall f :: f in fs ==> Readable(f)) && op in {1, 2, 9} && front != []
    ensures Frames(front, Wires(fs) + r, Some(PacketOf(op, got)), true) ==
            WsParsed(None, Some(Assembled(fs, op, got)), |front| + |Plains(fs)|, front + Plains(fs) + r)
    decreases |fs|
  {
    hide Wire, Plain, Accept, Frames, Wires, Plains, PacketOf, Payloads, Assembled;
    var f, rest := fs[0], Wires(fs[1..]) + r;
    assert f in fs && forall g :: g in fs[1..] ==> g in fs;
    Unfolded(fs, front, r);
    AssembledNext(fs, op, got);
    FrameTaken(f, front, rest, Some(PacketOf(op, got)), true);
    var op', got' := if f.op == 0 then op else f.op, if f.op == 0 then got + f.payload else f.payload;
    if f.op == 0 {
      AcceptMore(op, got, f.payload);
    } else {
      Starts(f.op, Some(PacketOf(op, got)), true, f.payload);
    }
    if |fs| > 1 {
      AllTaken(fs[1..], front + Plain(f), r, op', got');
    } else {
      AssembledNone(op', got');
    }
  }

  lemma AssembledNone(op: nat, got: bytes)
    ensures Assembled([], op, got) == PacketOf(op, got)
  {
    assert got + [] == got;
  }

  /** Readable frames that begin with the start of a message give the last message started in
      them, with the payloads of its frames joined: a message that is interrupted by another
      start is lost. Exactly the frames are consumed. */
  lemma LastMessage(fs: seq<Frame>, r: bytes)
    requires Burst(fs) && (forall f :: f in fs ==> Readable(f)) && fs[0].op != 0
    ensures var k := LastStart(fs);
            Parsing(Wires(fs) + r) ==
            WsParsed(None, Some(PacketOf(fs[k].op, Payloads(fs[k..]))), |Wires(fs)|, Plains(fs) + r)
  {
    hide Wire, Plain, Accept, Frames, Wires, Plains, PacketOf, Payloads, Parsing;
    var f := fs[0];
    assert f in fs && forall g :: g in fs[1..] ==> g in fs;
    SameLengths(fs);
    Unfolded(fs, [], r);
    assert [] + Plain(f) == Plain(f) && [] + Plains(fs) == Plains(fs);
    FirstTaken(fs, r);
    Starts(f.op, None, !f.fin, f.payload);
    AssembledNext(fs, 0, []);
    if |fs| > 1 {
      AllTaken(fs[1..], Plain(f), r, f.op, f.payload);
    } else {
      AssembledNone(f.op, f.payload);
    }
  }

  // ---------- refused frames ----------

  /** The error for a frame that cannot be read. */
  function ErrorFor(op: nat): NetError {
    if op == 8 then ClientReqDisconnect else DataIsDamage
  }

  lemma Refuses(op: nat, recombining: bool, packet: Option<Packet>, payload: bytes)
    requires op !in {0, 1, 2, 9} || (op == 0 && packet == None)
    ensures Accept(op, recombining, packet, payload) == Refused(ErrorFor(op))
  {
  }

  /** The bytes when frame i was refused: the payloads up to it have been unmasked. */
  ghost function UnmaskedTo(fs: seq<Frame>, i: nat): bytes
    requires AllValid(fs) && i <= |fs|
  {
    if i == 0 then Wires(fs) else Plain(fs[0]) + UnmaskedTo(fs[1..], i - 1)
  }

  lemma UnmaskedFirst(fs: seq<Frame>, front: bytes, r: bytes, i: nat)
    requires AllValid(fs) && 0 < i <= |fs|
    ensures front + UnmaskedTo(fs, i) + r == front + Plain(fs[0]) + UnmaskedTo(fs[1..], i - 1) + r
  {
    hide Plain;
    var p, u := Plain(fs[0]), UnmaskedTo(fs[1..], i - 1);
    assert UnmaskedTo(fs, i) == p + u;
    hide UnmaskedTo;
    assert front + (p + u) + r == front + p + u + r;
  }

  lemma {:induction false} RefusedLater(fs: seq<Frame>, front: bytes, r: bytes, op: nat, got: bytes, i: nat)
    requires Burst(fs) && op in {1, 2, 9} && front != []
    requires i < |fs| && !Readable(fs[i]) && forall j :: 0 <= j < i ==> Readable(fs[j])
    ensures Frames(front, Wires(fs) + r, Some(PacketOf(op, got)), true) ==
            WsParsed(Some(ErrorFor(fs[i].op)), None, 0, front + UnmaskedTo(fs, i + 1) + r)
    decreases |fs|
  {
    hide Wire, Plain, Accept, Frames, Wires, Plains, PacketOf, UnmaskedTo;
    var f, rest := fs[0], Wires(fs[1..]) + r;
    Unfolded(fs, front, r);
    UnmaskedFirst(fs, front, r, i + 1);
    FrameTaken(f, front, rest, Some(PacketOf(op, got)), true);
    if i == 0 {
      Refuses(f.op, true, Some(PacketOf(op, got)), f.payload);
      NothingUnmasked(fs[1..]);
      assert front + Plain(f) + Wires(fs[1..]) + r == front + Plain(f) + rest;
    } else if f.op == 0 {
      AcceptMore(op, got, f.payload);
      RefusedLater(fs[1..], front + Plain(f), r, op, got + f.payload, i - 1);
    } else {
      Starts(f.op, Some(PacketOf(op, got)), true, f.payload);
      RefusedLater(fs[1..], front + Plain(f), r, f.op, f.payload, i - 1);
    }
  }

  lemma NothingUnmasked(fs: seq<Frame>)
    requires AllValid(fs)
    ensures UnmaskedTo(fs, 0) == Wires(fs)
  {
  }

  /** The first frame that is no continuation and starts no message that can be read, or a
      continuation of nothing, ends the connection: a close frame as the client's request, every
      other one as damage. Nothing is consumed and the messages before it are lost. */
  lemma FirstRefused(fs: seq<Frame>, r: bytes, i: nat)
    requires Burst(fs) && i < |fs|
    requires if i == 0 then !Readable(fs[0]) || fs[0].op == 0 else !Readable(fs[i]) && fs[0].op != 0
    requires forall j :: 0 <= j < i ==> Readable(fs[j])
    ensures Parsing(Wires(fs) + r) == WsParsed(Some(ErrorFor(fs[i].op)), None, 0, UnmaskedTo(fs, i + 1) + r)
  {
    hide Wire, Plain, Accept, Frames, Wires, PacketOf, UnmaskedTo, Parsing;
    var f, rest := fs[0], Wires(fs[1..]) + r;
    UnmaskedFirst(fs, [], r, i + 1);
    assert [] + Plain(f) == Plain(f) && [] + UnmaskedTo(fs, i + 1) == UnmaskedTo(fs, i + 1);
    FirstTaken(fs, r);
    if i == 0 {
      Refuses(f.op, !f.fin, None, f.payload);
      NothingUnmasked(fs[1..]);
      assert Plain(f) + Wires(fs[1..]) + r == Plain(f) + rest;
    } else {
      Starts(f.op, None, !f.fin, f.payload);
      RefusedLater(fs[1..], Plain(f), r, f.op, f.payload, i - 1);
    }
  }
}
