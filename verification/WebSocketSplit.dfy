/** What a delivery that ends inside the final frame of a fragmented message does. */
module WebSocketSplit {
  import opened Bytes
  import opened Bits
  import opened Packets
  import opened Delivery
  import opened WebSocket
  import opened WebSocketTheorems
  import opened WebSocketMessages
  import opened WebSocketDelivery

  /** A message of two or more frames. */
  ghost predicate Fragmented(m: seq<Frame>) {
    Message(m) && |m| > 1 && AllValid(Front(m)) && ValidFrame(Last(m))
  }

  // ---------- the frames before the final one ----------

  lemma {:induction false} NonFinalsSkipped(fs: seq<Frame>, u: bytes)
    requires NonFinals(fs)
    ensures CheckFrames(Wires(fs) + u) == CheckFrames(u)
  {
    hide Wire, CheckFrames;
    if fs == [] {
      assert [] + u == u;
    } else {
      Unfolded(fs, [], u);
      NonFinalSkipped(fs[0], Wires(fs[1..]) + u);
      NonFinalsSkipped(fs[1..], u);
    }
  }

  lemma {:induction false} NonFinalsTaken(fs: seq<Frame>, front: bytes, u: bytes, op: nat, got: bytes)
    requires NonFinals(fs) && (forall f :: f in fs ==> f.op == 0) && op in {1, 2, 9} && front != []
    ensures Frames(front, Wires(fs) + u, Some(PacketOf(op, got)), true) ==
            Frames(front + Plains(fs), u, Some(PacketOf(op, got + Payloads(fs))), true)
    decreases |fs|
  {
    hide Wire, Plain, Accept, Frames, PacketOf;
    if fs == [] {
      assert [] + u == u && front + [] == front && got + [] == got;
    } else {
      var f, rest := fs[0], Wires(fs[1..]) + u;
      Unfolded(fs, front, u);
      Unfolded(fs, front, []);
      assert front + Plains(fs) + [] == front + Plains(fs);
      assert front + Plain(f) + Plains(fs[1..]) + [] == front + Plain(f) + Plains(fs[1..]);
      PayloadsUnfolded(fs, got);
      AcceptMore(op, got, f.payload);
      FrameTaken(f, front, rest, Some(PacketOf(op, got)), true);
      NonFinalsTaken(fs[1..], front + Plain(f), u, op, got + f.payload);
    }
  }

  /** Parsing reaches the final frame with everything before it already unmasked in place. */
  lemma FrontTaken(m: seq<Frame>, u: bytes)
    requires Fragmented(m) && u != [] && u[0] == FirstByte(Last(m))
    ensures Parsing(Wires(Front(m)) + u) ==
            Frames(Plains(Front(m)), u, Some(PacketOf(m[0].op, Payloads(Front(m)))), true)
    ensures Plains(Front(m)) != []
  {
    hide Wire, Plain, Accept, Frames, CheckFrames, PacketOf, NonFinals;
    var fs, f := Front(m), m[0];
    var rest := Wires(fs[1..]) + u;
    MessageFront(m);
    FrontNonFinals(fs);
    NonFinalsSkipped(fs, u);
    FinalSeen(Last(m), u);
    Unfolded(fs, [], u);
    SameLengths(fs);
    assert |Wires(fs) + u| >= 2;
    AcceptMore(f.op, [], f.payload);
    FrameTaken(f, [], rest, None, false);
    WholeFrame(f, []);
    assert [] + Plain(f) == Plain(f);
    PayloadsUnfolded(fs, []);
    assert [] + Payloads(fs) == Payloads(fs) && [] + f.payload == f.payload;
    NonFinalsTaken(fs[1..], Plain(f), u, f.op, f.payload);
    assert Plain(f) + Plains(fs[1..]) == Plains(fs);
  }

  lemma FrontNonFinals(fs: seq<Frame>)
    requires NonFinals(fs) && fs != []
    ensures NonFinals(fs[1..]) && !fs[0].fin
  {
  }

  // ---------- a first part of the final frame ----------

  /** Two or more bytes of the final frame: the packet is returned without its last part. */
  lemma TruncatedPacket(m: seq<Frame>, u: bytes)
    requires Fragmented(m)
    requires |u| >= 2 && IsStrictPrefix(u, Wire(Last(m)))
    ensures Parsing(Wires(Front(m)) + u) ==
            WsParsed(None, Some(PacketOf(m[0].op, Payloads(Front(m)))), |Wires(Front(m))|, Plains(Front(m)) + u)
  {
    hide Wire, PacketOf, Frames, Parsing, Incomplete;
    PartialFrame(Last(m), u);
    FrontTaken(m, u);
    SameLengths(Front(m));
    FramesUnfolded(Plains(Front(m)), u, Some(PacketOf(m[0].op, Payloads(Front(m)))), true);
  }

  /** One byte of it: nothing is returned, but the earlier payloads are already unmasked. */
  lemma UnmaskedEarly(m: seq<Frame>, u: bytes)
    requires Fragmented(m)
    requires |u| == 1 && IsStrictPrefix(u, Wire(Last(m)))
    ensures Parsing(Wires(Front(m)) + u) == Nothing(Plains(Front(m)) + u)
  {
    hide Wire, PacketOf, Frames, Parsing, Incomplete;
    WholeFrame(Last(m), []);
    assert Wire(Last(m)) + [] == Wire(Last(m));
    assert u[0] == Wire(Last(m))[0];
    FrontTaken(m, u);
    FramesUnfolded(Plains(Front(m)), u, Some(PacketOf(m[0].op, Payloads(Front(m)))), true);
  }

  // ---------- the same message in two pieces ----------

  /** The final frame alone, once the packet before it is gone, is refused. */
  lemma OrphanRefused(f: Frame)
    requires ValidFrame(f) && f.fin && f.op == 0
    ensures DrainWs(Wire(f)).error == Some(DataIsDamage)
  {
    hide Parsing, Wire, Plain;
    assert Wire(f) + [] == Wire(f);
    FinalRefused(f, []);
  }

  /** A cut two or more bytes into the final frame ends in a damage error. */
  lemma LateCutFails(m: seq<Frame>, u: bytes, rest: bytes)
    requires Fragmented(m)
    requires |u| >= 2 && rest != [] && u + rest == Wire(Last(m))
    ensures Feed(DrainWs, [], [Wires(Front(m)) + u, rest]).error == Some(DataIsDamage)
  {
    hide Wire, Wires, Plains, PacketOf, Parsing, Payloads, Feed;
    var f, t := Last(m), Wires(Front(m)) + u;
    var p := PacketOf(m[0].op, Payloads(Front(m)));
    assert u == Wire(f)[..|u|];
    MessageFront(m);
    TruncatedPacket(m, u);
    SameLengths(Front(m));
    assert (Plains(Front(m)) + u)[|Wires(Front(m))|..] == u;
    assert DrainWs(t) == After([p], DrainWs(u));
    FinalWaits(f, u);
    OrphanRefused(f);
    FeedTwo(DrainWs, t, rest);
  }

  lemma FinalWaits(f: Frame, u: bytes)
    requires ValidFrame(f) && f.fin && |u| >= 2 && IsStrictPrefix(u, Wire(f))
    ensures DrainWs(u) == Drained(None, [], u)
  {
    hide Wire, FrameLength;
    PartialFrame(f, u);
    FirstByteRead(f);
    FramesUnfolded([], u, None, false);
    assert [] + u == u;
  }

  /** The payload of a frame whose bytes are unmasked twice. */
  function GarbledPayload(f: Frame): (r: bytes)
    requires ValidFrame(f)
    ensures |r| == |f.payload|
  {
    if f.key.Some? then XorKey(f.payload, f.key.value) else f.payload
  }

  function Garbled(f: Frame): Frame
    requires ValidFrame(f)
  {
    f.(payload := GarbledPayload(f))
  }

  ghost function GarbledFront(fs: seq<Frame>): (r: seq<Frame>)
    requires AllValid(fs)
    ensures |r| == |fs|
  {
    if fs == [] then [] else [Garbled(fs[0])] + GarbledFront(fs[1..])
  }

  lemma GarbledWire(f: Frame)
    requires ValidFrame(f)
    ensures ValidFrame(Garbled(f)) && Wire(Garbled(f)) == Plain(f)
  {
    hide XorKey;
    var g := Garbled(f);
    assert Header(g) == Header(f) by {
      assert FirstByte(g) == FirstByte(f) && SecondByte(g) == SecondByte(f) && Extension(g) == Extension(f);
    }
    if f.key.Some? {
      XorKeyTwice(f.payload, f.key.value);
    }
  }

  lemma {:induction false} GarbledWires(fs: seq<Frame>)
    requires AllValid(fs)
    ensures AllValid(GarbledFront(fs)) && Wires(GarbledFront(fs)) == Plains(fs)
  {
    hide Wire, Plain, Garbled;
    if fs != [] {
      GarbledWire(fs[0]);
      GarbledWires(fs[1..]);
      assert GarbledFront(fs)[1..] == GarbledFront(fs[1..]);
    }
  }

  lemma {:induction false} GarbledContinuation(fs: seq<Frame>)
    requires Continuation(fs) && AllValid(Front(fs)) && ValidFrame(Last(fs))
    ensures var g := GarbledFront(Front(fs)) + [Last(fs)]; Continuation(g)
    ensures var g := GarbledFront(Front(fs)) + [Last(fs)];
            && Wires(g) == Plains(Front(fs)) + Wire(Last(fs))
            && Payloads(g) == Payloads(GarbledFront(Front(fs))) + Last(fs).payload
    decreases |fs|
  {
    hide Wire, Plain, GarbledPayload;
    var g := GarbledFront(Front(fs)) + [Last(fs)];
    GarbledWires(Front(fs));
    if |fs| == 1 {
      assert Front(fs) == [] && g == fs;
      assert Front(g) == [] && Last(g) == fs[0];
      assert [] + Wire(fs[0]) == Wire(fs[0]);
    } else {
      GarbledWire(fs[0]);
      assert Front(fs)[1..] == Front(fs[1..]);
      GarbledContinuation(fs[1..]);
      assert g[1..] == GarbledFront(Front(fs[1..])) + [Last(fs[1..])];
      assert g[0] == Garbled(fs[0]);
    }
    WiresSplit(g);
    assert Front(g) == GarbledFront(Front(fs)) && Last(g) == Last(fs);
  }

  /** The message the parser sees after an early unmasking. */
  lemma GarbledMessage(m: seq<Frame>)
    requires Fragmented(m)
    ensures var g := GarbledFront(Front(m)) + [Last(m)];
            && Message(g) && g[0].op == m[0].op
            && Wires(g) == Plains(Front(m)) + Wire(Last(m))
            && Payloads(g) == Payloads(GarbledFront(Front(m))) + Last(m).payload
  {
    hide Wire, Plain, GarbledPayload, Wires, Plains;
    var g := GarbledFront(Front(m)) + [Last(m)];
    assert Front(m)[1..] == Front(m[1..]);
    MessageFront(m);
    WiresSplit(m[1..]);
    GarbledContinuation(m[1..]);
    assert GarbledFront(Front(m)) == [Garbled(m[0])] + GarbledFront(Front(m[1..]));
    assert g[1..] == GarbledFront(Front(m[1..])) + [Last(m[1..])];
    assert g[0] == Garbled(m[0]);
    GarbledWire(m[0]);
    GarbledWires(Front(m));
    WiresSplit(g);
    assert Front(g) == GarbledFront(Front(m)) && Last(g) == Last(m);
  }

  lemma EarlyFirstCall(m: seq<Frame>, u: bytes, rest: bytes)
    requires Fragmented(m) && |u| == 1 && u + rest == Wire(Last(m))
    ensures DrainWs(Wires(Front(m)) + u) == Drained(None, [], Plains(Front(m)) + u)
  {
    hide Wire, Wires, Plains, Parsing, DrainWs;
    assert (u + rest)[..1] == u;
    WholeFrame(Last(m), []);
    assert |u| < |Wire(Last(m))|;
    UnmaskedEarly(m, u);
    NothingLeft(Wires(Front(m)) + u);
  }

  lemma EarlySecondCall(m: seq<Frame>, u: bytes, rest: bytes)
    requires Fragmented(m) && u + rest == Wire(Last(m))
    ensures DrainWs(Plains(Front(m)) + u + rest) ==
            Drained(None, [PacketOf(m[0].op, Payloads(GarbledFront(Front(m))) + Last(m).payload)], [])
  {
    hide Wire, Wires, Plains, PacketOf, Payloads, GarbledFront, DrainWs;
    var g := GarbledFront(Front(m)) + [Last(m)];
    GarbledMessage(m);
    assert Plains(Front(m)) + u + rest == Plains(Front(m)) + (u + rest);
    assert Wires(g) + [] == Wires(g);
    MessageDrained(g, []);
    NothingDrained();
  }

  /** A cut one byte into the final frame delivers the earlier payloads masked once too often. */
  lemma EarlyCutGarbles(m: seq<Frame>, u: bytes, rest: bytes)
    requires Fragmented(m) && |u| == 1 && u + rest == Wire(Last(m))
    ensures Feed(DrainWs, [], [Wires(Front(m)) + u, rest]) ==
            Drained(None, [PacketOf(m[0].op, Payloads(GarbledFront(Front(m))) + Last(m).payload)], [])
  {
    hide Wire, Wires, Plains, PacketOf, Payloads, GarbledFront, DrainWs, Feed;
    EarlyFirstCall(m, u, rest);
    EarlySecondCall(m, u, rest);
    FeedTwo(DrainWs, Wires(Front(m)) + u, rest);
  }

  lemma NothingLeft(t: bytes)
    ensures Parsing(t).error == None && Parsing(t).packet == None && Parsing(t).consumed == 0 ==>
              DrainWs(t) == Drained(None, [], Parsing(t).data)
  {
    hide Parsing;
  }

  lemma SafeCutWorks(m: seq<Frame>, t: bytes, rest: bytes)
    requires Fragmented(m) && t + rest == Wires(m) && rest != [] && Safe(m, |t|)
    ensures Feed(DrainWs, [], [t, rest]) == Drained(None, [PacketOfMessage(m)], [])
  {
    hide DrainWs, Wires, Safe, PacketOfMessage, Feed;
    assert t == (t + rest)[..|t|];
    SafeWaits(m, t);
    assert t + rest == Wires(m) + [];
    MessageDrained(m, []);
    NothingDrained();
    FeedTwo(DrainWs, t, rest);
  }

  lemma DifferentPayloads(op: nat, a: bytes, b: bytes, last: bytes)
    requires op in {1, 2, 9} && |a| == |b|
    ensures PacketOf(op, a + last) == PacketOf(op, b + last) <==> a == b
  {
    assert (a + last)[..|a|] == a && (b + last)[..|b|] == b;
  }

  lemma {:induction false} GarbledLength(fs: seq<Frame>)
    requires AllValid(fs)
    ensures |Payloads(GarbledFront(fs))| == |Payloads(fs)|
  {
    if fs != [] {
      GarbledLength(fs[1..]);
      assert GarbledFront(fs)[1..] == GarbledFront(fs[1..]);
    }
  }

  lemma CutInside(front: bytes, last: bytes, t: bytes, rest: bytes)
    requires t + rest == front + last && |t| >= |front|
    ensures t == front + t[|front|..] && t[|front|..] + rest == last
  {
    assert t == (front + last)[..|t|];
    assert t + rest == front + (t[|front|..] + rest);
    assert last == (front + last)[|front|..];
  }

  // ---------- unmasking twice ----------

  /** Unmasking the frames before the final one a second time changes nothing: their keys are
      zero wherever they meet a payload byte. */
  ghost predicate Unharmed(m: seq<Frame>)
    requires m != []
  {
    forall f :: f in Front(m) ==> ZeroKey(f)
  }

  ghost predicate ZeroKey(f: Frame) {
    f.key.Some? ==> |f.key.value| == 4 && forall i :: 0 <= i < |f.payload| ==> f.key.value[i % 4] == 0
  }

  lemma XorChanges(a: byte, b: byte)
    ensures Xor(a, b) == a <==> b == 0
  {
    hide Xor;
    OrXorBits(a, b);
    if Xor(a, b) == a {
      forall k: nat ensures Bit(b, k) == Bit(0, k) {
        ZeroBits(k);
      }
      SameBits(b, 0);
    } else if b == 0 {
      forall k: nat ensures Bit(Xor(a, b), k) == Bit(a, k) {
        ZeroBits(k);
      }
      SameBits(Xor(a, b), a);
    }
  }

  lemma GarbledIff(f: Frame)
    requires ValidFrame(f)
    ensures GarbledPayload(f) == f.payload <==> ZeroKey(f)
  {
    hide Xor;
    if f.key.Some? {
      forall i | 0 <= i < |f.payload|
        ensures GarbledPayload(f)[i] == f.payload[i] <==> f.key.value[i % 4] == 0
      {
        XorChanges(f.payload[i], f.key.value[i % 4]);
      }
    }
  }

  lemma SameFirst(a: bytes, b: bytes, c: bytes, d: bytes)
    requires |a| == |c|
    ensures a + b == c + d <==> a == c && b == d
  {
    assert a == (a + b)[..|a|] && c == (c + d)[..|c|] && b == (a + b)[|a|..] && d == (c + d)[|c|..];
  }

  lemma {:induction false} GarbledFrontIff(fs: seq<Frame>)
    requires AllValid(fs)
    ensures Payloads(GarbledFront(fs)) == Payloads(fs) <==> forall f :: f in fs ==> ZeroKey(f)
    ensures (forall f :: f in fs ==> ZeroKey(f)) ==> GarbledFront(fs) == fs
  {
    hide GarbledPayload, ZeroKey;
    if fs != [] {
      var f, g, rest := fs[0], GarbledFront(fs), fs[1..];
      GarbledIff(f);
      GarbledFrontIff(rest);
      assert g[0] == Garbled(f) && g[1..] == GarbledFront(rest) && fs == [f] + rest;
      SameFirst(GarbledPayload(f), Payloads(GarbledFront(rest)), f.payload, Payloads(rest));
      assert Payloads(g) == GarbledPayload(f) + Payloads(GarbledFront(rest));
    }
  }

  /** The message that the parser sees after an early unmasking is the same one exactly if that
      was harmless. */
  lemma UnharmedIff(m: seq<Frame>)
    requires Fragmented(m)
    ensures Payloads(GarbledFront(Front(m))) == Payloads(Front(m)) <==> Unharmed(m)
    ensures Unharmed(m) ==> GarbledFront(Front(m)) == Front(m)
  {
    GarbledFrontIff(Front(m));
  }

  // ---------- any cut in two ----------

  /** A fragmented message in two pieces comes back exactly when the cut is not inside its
      final frame, or is one byte into it and a second unmasking changes nothing. */
  lemma TwoPieces(m: seq<Frame>, t: bytes, rest: bytes)
    requires Fragmented(m) && t + rest == Wires(m) && rest != []
    ensures Feed(DrainWs, [], [t, rest]) == Drained(None, [PacketOfMessage(m)], []) <==>
            || Safe(m, |t|)
            || (|t| == |Wires(Front(m))| + 1 && Unharmed(m))
  {
    hide DrainWs, Wires, Feed, PacketOf, GarbledFront, Unharmed;
    var front := Wires(Front(m));
    WiresSplit(m);
    UnharmedIff(m);
    if Safe(m, |t|) {
      SafeCutWorks(m, t, rest);
    } else {
      var u := t[|front|..];
      CutInside(front, Wire(Last(m)), t, rest);
      if |u| == 1 {
        EarlyCutGarbles(m, u, rest);
        GarbledLength(Front(m));
        DifferentPayloads(m[0].op, Payloads(GarbledFront(Front(m))), Payloads(Front(m)), Last(m).payload);
      } else {
        LateCutFails(m, u, rest);
      }
    }
  }
}
