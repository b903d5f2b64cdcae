/** Any delivery of WebSocket messages in pieces: it gives what one delivery gives if and only if
    every cut is harmless. */
module WebSocketCuts {
  import opened Bytes
  import opened Packets
  import opened Delivery
  import opened WebSocket
  import opened WebSocketTheorems
  import opened WebSocketMessages
  import opened WebSocketDelivery
  import opened WebSocketSplit

  // ---------- the messages at a position of the stream ----------

  /** What remains of the messages after q bytes, the one being received included. */
  ghost function Rest(ms: seq<seq<Frame>>, q: nat): (r: seq<seq<Frame>>)
    requires AllMessages(ms)
    ensures AllMessages(r)
  {
    if ms != [] && q >= |Wires(ms[0])| then Rest(ms[1..], q - |Wires(ms[0])|) else ms
  }

  /** How many bytes of the message being received there are. */
  ghost function At(ms: seq<seq<Frame>>, q: nat): nat
    requires AllMessages(ms)
  {
    if ms != [] && q >= |Wires(ms[0])| then At(ms[1..], q - |Wires(ms[0])|) else q
  }

  /** The packets of the messages that are whole. */
  ghost function Whole(ms: seq<seq<Frame>>, q: nat): seq<Packet>
    requires AllMessages(ms)
  {
    if ms != [] && q >= |Wires(ms[0])| then [PacketOfMessage(ms[0])] + Whole(ms[1..], q - |Wires(ms[0])|) else []
  }

  lemma {:induction false} WholeDrained(ms: seq<seq<Frame>>, s: bytes, x: bytes)
    requires AllMessages(ms) && s + x <= Stream(ms)
    ensures At(ms, |s|) <= |s|
    ensures var r := s[|s| - At(ms, |s|)..];
            && DrainWs(s + x) == After(Whole(ms, |s|), DrainWs(r + x))
            && r + x <= Stream(Rest(ms, |s|))
    ensures var left := Rest(ms, |s|);
            if left == [] then At(ms, |s|) == 0 else At(ms, |s|) < |Wires(left[0])|
    decreases |ms|
  {
    hide DrainWs, Wires, PacketOfMessage;
    if ms != [] && |s| >= |Wires(ms[0])| {
      var w := Wires(ms[0]);
      var u := s[|w|..];
      CutAfter(s, x, w, Stream(ms[1..]));
      MessageDrained(ms[0], u + x);
      WholeDrained(ms[1..], u, x);
      var k := At(ms[1..], |u|);
      assert u[|u| - k..] == s[|s| - k..];
      AfterAfter([PacketOfMessage(ms[0])], Whole(ms[1..], |u|), DrainWs(u[|u| - k..] + x));
    } else {
      assert s[0..] == s && After([], DrainWs(s + x)) == DrainWs(s + x);
    }
  }

  lemma {:induction false} SafeRest(ms: seq<seq<Frame>>, q: nat, n: nat)
    requires AllMessages(ms)
    ensures SafeCut(ms, q + n) <==> SafeCut(Rest(ms, q), At(ms, q) + n)
    decreases |ms|
  {
    hide Wires, Safe;
    if ms != [] && q >= |Wires(ms[0])| {
      SafeRest(ms[1..], q - |Wires(ms[0])|, n);
    }
  }

  // ---------- harmless cuts ----------

  /** The cut is not inside the final frame of a fragmented message, or one byte into it and
      harmless there. */
  ghost predicate Harmless(ms: seq<seq<Frame>>, p: nat)
    requires AllMessages(ms)
  {
    ms != [] ==>
      || Safe(ms[0], p)
      || (AllValid(Front(ms[0])) && p == |Wires(Front(ms[0]))| + 1 && Unharmed(ms[0]))
  }

  /** Every cut of a delivery that starts with p bytes of the first message is harmless. */
  ghost predicate Intact(ms: seq<seq<Frame>>, p: nat, chunks: seq<bytes>)
    requires AllMessages(ms)
    decreases |chunks|
  {
    chunks != [] ==>
      var q := p + |chunks[0]|;
      Harmless(Rest(ms, q), At(ms, q)) && Intact(Rest(ms, q), At(ms, q), chunks[1..])
  }

  // ---------- the call that ends at a cut ----------

  lemma Position(m: seq<Frame>, r: bytes, rest: bytes)
    requires Message(m) && r <= Wires(m) + rest && |r| < |Wires(m)| && !Safe(m, |r|)
    ensures Fragmented(m) && Wires(m) == Wires(Front(m)) + Wire(Last(m))
    ensures var front := Wires(Front(m));
            var u := r[|front|..];
            |r| > |front| && r == front + u && |u| < |Wire(Last(m))| && u == Wire(Last(m))[..|u|]
  {
    hide Wire, Wires;
    WiresSplit(m);
    var front, last := Wires(Front(m)), Wire(Last(m));
    assert r == (front + last + rest)[..|r|];
    assert front + last + rest == front + (last + rest);
  }

  /** A harmless cut leaves nothing but what it found. */
  lemma HarmlessCall(ms: seq<seq<Frame>>, r: bytes)
    requires AllMessages(ms) && r <= Stream(ms) && Harmless(ms, |r|)
    requires if ms == [] then r == [] else |r| < |Wires(ms[0])|
    ensures DrainWs(r) == Drained(None, [], r)
  {
    hide DrainWs, Wires, Safe;
    if ms == [] {
      NothingDrained();
      return;
    }
    var m := ms[0];
    assert r == Wires(m)[..|r|];
    if Safe(m, |r|) {
      SafeWaits(m, r);
    } else {
      Position(m, r, Stream(ms[1..]));
      var u := r[|Wires(Front(m))|..];
      EarlyFirstCall(m, u, Wire(Last(m))[|u|..]);
      UnharmedIff(m);
      GarbledWires(Front(m));
    }
  }

  /** The rest of a torn message is refused as soon as its final frame is whole. */
  lemma {:induction false} OrphanBreaks(f: Frame, u: bytes, chunks: seq<bytes>)
    requires ValidFrame(f) && f.fin && f.op == 0 && 2 <= |u| < |Wire(f)| && Wire(f) <= u + Concat(chunks)
    ensures chunks != [] && Feed(DrainWs, u, chunks).error == Some(DataIsDamage)
    decreases |chunks|
  {
    hide DrainWs, Wire;
    assert u + [] == u;
    var s, later := u + chunks[0], Concat(chunks[1..]);
    assert u + Concat(chunks) == s + later;
    if |s| < |Wire(f)| {
      assert s == (s + later)[..|s|] == Wire(f)[..|s|];
      FinalWaits(f, s);
      OrphanBreaks(f, s, chunks[1..]);
    } else {
      var r := s[|Wire(f)|..];
      assert s == Wire(f) + r;
      OrphanDrained(f, r);
    }
  }

  lemma OrphanDrained(f: Frame, r: bytes)
    requires ValidFrame(f) && f.fin && f.op == 0
    ensures DrainWs(Wire(f) + r).error == Some(DataIsDamage)
  {
    hide Wire, Plain, Parsing;
    FinalRefused(f, r);
  }

  lemma Inside(front: bytes, last: bytes, tail: bytes, r: bytes, t: bytes)
    requires r + t <= front + last + tail && |front| < |r| < |front + last| <= |r + t|
    ensures var u := r[|front|..];
            r == front + u && IsStrictPrefix(u, last) && last <= u + t && u + t <= last + tail
  {
    var u := r[|front|..];
    var all := front + last + tail;
    assert r == all[..|r|] == front + u;
    assert u + t == (r + t)[|front|..] == all[|front|..|r + t|];
    assert last == all[|front|..|front + last|] && last + tail == all[|front|..];
  }

  /** A cut two or more bytes into the final frame: the message is returned without its end, and
      the connection breaks when the rest arrives. */
  lemma LateBreaks(m: seq<Frame>, r: bytes, chunks: seq<bytes>, tail: bytes)
    requires Fragmented(m) && |Wires(Front(m))| + 2 <= |r| < |Wires(m)| <= |r| + |Concat(chunks)|
    requires r + Concat(chunks) <= Wires(m) + tail
    ensures DrainWs(r).error == None && Feed(DrainWs, DrainWs(r).rest, chunks).error == Some(DataIsDamage)
  {
    hide Wires, Wire, Feed, DrainWs;
    WiresSplit(m);
    MessageFront(m);
    var f, front := Last(m), Wires(Front(m));
    Inside(front, Wire(f), tail, r, Concat(chunks));
    TornCall(m, r[|front|..]);
    OrphanBreaks(f, r[|front|..], chunks);
  }

  lemma TornCall(m: seq<Frame>, u: bytes)
    requires Fragmented(m) && |u| >= 2 && IsStrictPrefix(u, Wire(Last(m)))
    ensures var d := DrainWs(Wires(Front(m)) + u); d.error == None && d.rest == u
  {
    hide Wires, Wire, Plains, Parsing, PacketOf;
    TruncatedPacket(m, u);
    SameLengths(Front(m));
    MessageFront(m);
    assert (Plains(Front(m)) + u)[|Wires(Front(m))|..] == u;
    FinalWaits(Last(m), u);
  }

  /** The message with the payloads of its earlier frames unmasked twice. */
  ghost function GarbledOf(m: seq<Frame>): seq<Frame>
    requires Fragmented(m)
  {
    GarbledFront(Front(m)) + [Last(m)]
  }

  lemma GarbledShape(m: seq<Frame>)
    requires Fragmented(m)
    ensures var g := GarbledOf(m);
            && Message(g) && |g| == |m| && Fragmented(g) && |Wires(g)| == |Wires(m)|
            && |Wires(Front(g))| == |Wires(Front(m))| && Last(g) == Last(m)
            && Wires(g) == Plains(Front(m)) + Wire(Last(m))
            && (!Unharmed(m) ==> PacketOfMessage(g) != PacketOfMessage(m))
  {
    hide Wires, Plains, Wire, PacketOf;
    var g := GarbledOf(m);
    GarbledMessage(m);
    assert Front(g) == GarbledFront(Front(m)) && Last(g) == Last(m);
    WiresSplit(m);
    WiresSplit(g);
    SameLengths(Front(m));
    GarbledLength(Front(m));
    UnharmedIff(m);
    DifferentPayloads(m[0].op, Payloads(GarbledFront(Front(m))), Payloads(Front(m)), Last(m).payload);
  }

  /** A cut one byte into the final frame that is not harmless: the message comes back with
      another payload, or the connection breaks. */
  lemma EarlyHarms(m: seq<Frame>, r: bytes, chunks: seq<bytes>, tail: bytes)
    requires Fragmented(m) && |Wires(Front(m))| + 1 == |r| < |Wires(m)| <= |r| + |Concat(chunks)| && !Unharmed(m)
    requires r + Concat(chunks) <= Wires(m) + tail && (forall c :: c in chunks ==> c != [])
    ensures var d := DrainWs(r);
            && d.error == None && d.packets == []
            && var e := Feed(DrainWs, d.rest, chunks);
               e.error == None ==> e.packets != [] && e.packets[0] != PacketOfMessage(m)
  {
    hide Wires, Wire, Plains, DrainWs, PacketOfMessage, Unharmed, Feed;
    WiresSplit(m);
    var front, last, u := Wires(Front(m)), Wire(Last(m)), r[|Wires(Front(m))|..];
    Inside(front, last, tail, r, Concat(chunks));
    assert u + last[|u|..] == last;
    EarlyFirstCall(m, u, last[|u|..]);
    GarbledShape(m);
    SameLengths(Front(m));
    var r' := Plains(Front(m)) + u;
    Onto(Plains(Front(m)), u, Concat(chunks), last, tail);
    NextHarms(GarbledOf(m), r', chunks, tail);
  }

  lemma Onto(front: bytes, u: bytes, t: bytes, last: bytes, tail: bytes)
    requires u + t <= last + tail
    ensures front + u + t <= front + last + tail
  {
    assert front + u + t == front + (u + t) && front + last + tail == front + (last + tail);
  }

  lemma NextHarms(g: seq<Frame>, r: bytes, chunks: seq<bytes>, tail: bytes)
    requires Fragmented(g) && |Wires(Front(g))| + 1 == |r| < |Wires(g)| <= |r| + |Concat(chunks)|
    requires r + Concat(chunks) <= Wires(g) + tail && (forall c :: c in chunks ==> c != [])
    ensures var e := Feed(DrainWs, r, chunks);
            e.error == None ==> e.packets != [] && e.packets[0] == PacketOfMessage(g)
  {
    hide Wires, Wire, DrainWs, PacketOfMessage;
    assert chunks[0] in chunks;
    var s, t := r + chunks[0], Concat(chunks[1..]);
    assert r + Concat(chunks) == s + t;
    var d := DrainWs(s);
    if |s| < |Wires(g)| {
      LateBreaks(g, s, chunks[1..], tail);
    } else {
      CutAfter(s, t, Wires(g), tail);
      MessageDrained(g, s[|Wires(g)|..]);
      assert d.packets[0] == PacketOfMessage(g);
    }
  }

  // ---------- any delivery ----------

  lemma EndsBeyond(ms: seq<seq<Frame>>, p: nat, e: nat)
    requires AllMessages(ms) && ms != [] && !Safe(ms[0], p) && p <= e && SafeCut(ms, e)
    ensures |Wires(ms[0])| <= e
  {
  }

  lemma AfterSame(pcks: seq<Packet>, d: Drained, e: Drained)
    ensures After(pcks, d) == After(pcks, e) <==> d == e
  {
    if After(pcks, d) == After(pcks, e) {
      assert d.packets == (pcks + d.packets)[|pcks|..] && e.packets == (pcks + e.packets)[|pcks|..];
    }
  }

  lemma EndHarmless(ms: seq<seq<Frame>>, p: nat)
    requires AllMessages(ms) && SafeCut(ms, p) && (ms != [] ==> p < |Wires(ms[0])|)
    ensures Harmless(ms, p)
  {
  }

  /** What no later bytes make good for. */
  lemma CutHarms(ms: seq<seq<Frame>>, v: bytes, chunks: seq<bytes>)
    requires AllMessages(ms) && v + Concat(chunks) <= Stream(ms) && (forall c :: c in chunks ==> c != [])
    requires SafeCut(ms, |v| + |Concat(chunks)|) && !Harmless(ms, |v|)
    requires if ms == [] then v == [] else |v| < |Wires(ms[0])|
    ensures DrainWs(v).error == None
    ensures After(DrainWs(v).packets, Feed(DrainWs, DrainWs(v).rest, chunks)) != DrainWs(v + Concat(chunks))
  {
    hide DrainWs, Wires, Safe, SafeCut, PacketOfMessage, Feed, Unharmed, Harmless, Stream, Concat, Fragmented,
      AllMessages;
    HarmfulShape(ms, v, Concat(chunks));
    PrefixIsClean(ms, v + Concat(chunks));
    HarmfulCut(ms[0], v, chunks, Stream(ms[1..]));
  }

  /** One call of a delivery, pcks being the packets of the whole messages and v what is left of
      its bytes behind them. */
  lemma FeedCall(r: bytes, chunks: seq<bytes>, pcks: seq<Packet>, v: bytes)
    requires chunks != [] && DrainWs(r + chunks[0]) == After(pcks, DrainWs(v)) && DrainWs(v).error == None
    ensures var d := DrainWs(v);
            Feed(DrainWs, r, chunks) == After(pcks, After(d.packets, Feed(DrainWs, d.rest, chunks[1..])))
  {
    hide DrainWs;
    var d := DrainWs(v);
    AfterAfter(pcks, d.packets, Feed(DrainWs, d.rest, chunks[1..]));
  }

  /** The first call: the whole messages it completes, and the bytes of the next one. */
  lemma FirstCall(ms: seq<seq<Frame>>, r: bytes, chunk: bytes, t: bytes) returns (v: bytes)
    requires AllMessages(ms) && r + chunk + t <= Stream(ms) && SafeCut(ms, |r + chunk| + |t|)
    ensures var q, pcks := |r + chunk|, Whole(ms, |r + chunk|);
            var left := Rest(ms, q);
            && |v| == At(ms, q) && v + t <= Stream(left) && SafeCut(left, |v| + |t|)
            && (if left == [] then v == [] else |v| < |Wires(left[0])|)
            && DrainWs(r + chunk) == After(pcks, DrainWs(v))
            && DrainWs(r + chunk + t) == After(pcks, DrainWs(v + t))
  {
    hide DrainWs, Wires, Stream, Safe, SafeCut, Whole, Rest, At;
    var s := r + chunk;
    StartOf(s, t, Stream(ms));
    assert s + [] == s;
    WholeDrained(ms, s, t);
    WholeDrained(ms, s, []);
    v := s[|s| - At(ms, |s|)..];
    assert v + [] == v;
    SafeRest(ms, |s|, |t|);
  }

  /** From r, the first bytes of the message being received, on. */
  lemma {:induction false} CutsFrom(ms: seq<seq<Frame>>, r: bytes, chunks: seq<bytes>)
    requires AllMessages(ms) && r + Concat(chunks) <= Stream(ms) && (forall c :: c in chunks ==> c != [])
    requires SafeCut(ms, |r| + |Concat(chunks)|)
    requires if ms == [] then r == [] else |r| < |Wires(ms[0])|
    ensures Feed(DrainWs, r, chunks) == DrainWs(r + Concat(chunks)) <==> Intact(ms, |r|, chunks)
    decreases |chunks|
  {
    hide DrainWs, Wires, Stream, Safe, SafeCut, Whole, Rest, At, Harmless, AllMessages;
    if chunks == [] {
      assert r + [] == r;
      EndHarmless(ms, |r|);
      HarmlessCall(ms, r);
      return;
    }
    var t, q := Concat(chunks[1..]), |r + chunks[0]|;
    assert r + Concat(chunks) == r + chunks[0] + t;
    assert forall c :: c in chunks[1..] ==> c in chunks;
    var v := FirstCall(ms, r, chunks[0], t);
    var pcks, later := Whole(ms, q), chunks[1..];
    if Harmless(Rest(ms, q), |v|) {
      HarmlessStep(Rest(ms, q), v, t);
      FeedCall(r, chunks, pcks, v);
      CutsFrom(Rest(ms, q), v, later);
      AfterSame(pcks, Feed(DrainWs, v, later), DrainWs(v + t));
    } else {
      CutHarms(Rest(ms, q), v, later);
      FeedCall(r, chunks, pcks, v);
      AfterSame(pcks, After(DrainWs(v).packets, Feed(DrainWs, DrainWs(v).rest, later)), DrainWs(v + t));
    }
  }

  lemma HarmlessStep(ms: seq<seq<Frame>>, v: bytes, t: bytes)
    requires AllMessages(ms) && v + t <= Stream(ms) && Harmless(ms, |v|)
    requires if ms == [] then v == [] else |v| < |Wires(ms[0])|
    ensures DrainWs(v) == Drained(None, [], v)
    ensures forall d: Drained :: After([], d) == d
  {
    hide DrainWs, Wires, Stream, Harmless;
    StartOf(v, t, Stream(ms));
    HarmlessCall(ms, v);
  }

  lemma HarmfulShape(ms: seq<seq<Frame>>, v: bytes, t: bytes)
    requires AllMessages(ms) && v + t <= Stream(ms) && SafeCut(ms, |v| + |t|) && !Harmless(ms, |v|)
    requires if ms == [] then v == [] else |v| < |Wires(ms[0])|
    ensures ms != [] && Message(ms[0]) && AllMessages(ms[1..]) && v + t <= Wires(ms[0]) + Stream(ms[1..])
    ensures Fragmented(ms[0]) && |Wires(Front(ms[0]))| < |v| && |Wires(ms[0])| <= |v| + |t|
    ensures |v| == |Wires(Front(ms[0]))| + 1 ==> !Unharmed(ms[0])
  {
    Harmful(ms, |v|);
    hide Harmless, Unharmed, Wires;
    EndsBeyond(ms, |v|, |v| + |t|);
    hide Safe, SafeCut;
    StreamFirst(ms);
    StartOf(v, t, Stream(ms));
    hide Stream;
    Position(ms[0], v, Stream(ms[1..]));
  }

  lemma Harmful(ms: seq<seq<Frame>>, p: nat)
    requires AllMessages(ms) && !Harmless(ms, p)
    ensures ms != [] && !Safe(ms[0], p)
    ensures AllValid(Front(ms[0])) && p == |Wires(Front(ms[0]))| + 1 ==> !Unharmed(ms[0])
  {
  }

  lemma StreamFirst(ms: seq<seq<Frame>>)
    requires AllMessages(ms) && ms != []
    ensures Stream(ms) == Wires(ms[0]) + Stream(ms[1..])
  {
  }

  lemma StartOf(a: bytes, b: bytes, c: bytes)
    requires a + b <= c
    ensures a <= c
  {
    assert a == (a + b)[..|a|];
  }

  lemma HarmfulCut(m: seq<Frame>, v: bytes, chunks: seq<bytes>, tail: bytes)
    requires Fragmented(m) && |Wires(Front(m))| < |v| < |Wires(m)| <= |v| + |Concat(chunks)|
    requires v + Concat(chunks) <= Wires(m) + tail && (forall c :: c in chunks ==> c != [])
    requires |v| == |Wires(Front(m))| + 1 ==> !Unharmed(m)
    ensures DrainWs(v).error == None
    ensures var e, all := Feed(DrainWs, DrainWs(v).rest, chunks), DrainWs(v + Concat(chunks));
            all.error == None ==> After(DrainWs(v).packets, e) != all
  {
    hide DrainWs, Wires, PacketOfMessage, Feed, Unharmed;
    FirstPacket(m, v + Concat(chunks), tail);
    if |v| == |Wires(Front(m))| + 1 {
      EarlyHarms(m, v, chunks, tail);
      var e := Feed(DrainWs, DrainWs(v).rest, chunks);
      assert [] + e.packets == e.packets;
    } else {
      LateBreaks(m, v, chunks, tail);
    }
  }

  lemma FirstPacket(m: seq<Frame>, s: bytes, tail: bytes)
    requires Message(m) && |Wires(m)| <= |s| && s <= Wires(m) + tail
    ensures DrainWs(s).packets != [] && DrainWs(s).packets[0] == PacketOfMessage(m)
  {
    hide DrainWs, Wires, PacketOfMessage;
    assert s + [] == s;
    CutAfter(s, [], Wires(m), tail);
    MessageDrained(m, s[|Wires(m)|..]);
  }

  /** A cut at position q of the stream is harmless. */
  ghost predicate HarmlessAt(ms: seq<seq<Frame>>, q: nat)
    requires AllMessages(ms)
  {
    Harmless(Rest(ms, q), At(ms, q))
  }

  lemma {:induction false} RestOfRest(ms: seq<seq<Frame>>, q: nat, n: nat)
    requires AllMessages(ms)
    ensures Rest(ms, q + n) == Rest(Rest(ms, q), At(ms, q) + n) && At(ms, q + n) == At(Rest(ms, q), At(ms, q) + n)
    decreases |ms|
  {
    hide Wires;
    if ms != [] && q >= |Wires(ms[0])| {
      RestOfRest(ms[1..], q - |Wires(ms[0])|, n);
    }
  }

  /** All cuts of a delivery from position q on. */
  ghost predicate HarmlessDelivery(ms: seq<seq<Frame>>, q: nat, chunks: seq<bytes>)
    requires AllMessages(ms)
    decreases |chunks|
  {
    chunks != [] ==> HarmlessAt(ms, q + |chunks[0]|) && HarmlessDelivery(ms, q + |chunks[0]|, chunks[1..])
  }

  lemma {:induction false} IntactIff(ms: seq<seq<Frame>>, q: nat, chunks: seq<bytes>)
    requires AllMessages(ms)
    ensures Intact(Rest(ms, q), At(ms, q), chunks) <==> HarmlessDelivery(ms, q, chunks)
    decreases |chunks|
  {
    hide Harmless, Rest, At;
    if chunks != [] {
      RestOfRest(ms, q, |chunks[0]|);
      IntactIff(ms, q + |chunks[0]|, chunks[1..]);
    }
  }

  /** Messages delivered in any pieces, up to a position that splits no final frame of a
      fragmented message: the packets, their order and the leftover are those of one delivery if
      and only if every cut on the way is harmless. */
  lemma DeliveryIffHarmless(ms: seq<seq<Frame>>, chunks: seq<bytes>)
    requires AllMessages(ms) && Concat(chunks) <= Stream(ms) && (forall c :: c in chunks ==> c != [])
    requires SafeCut(ms, |Concat(chunks)|)
    ensures Feed(DrainWs, [], chunks) == DrainWs(Concat(chunks)) <==> HarmlessDelivery(ms, 0, chunks)
  {
    hide DrainWs, SafeCut, Stream, HarmlessAt;
    assert [] + Concat(chunks) == Concat(chunks);
    MessagesNonempty(ms);
    CutsFrom(ms, [], chunks);
    IntactIff(ms, 0, chunks);
  }

  lemma MessagesNonempty(ms: seq<seq<Frame>>)
    requires AllMessages(ms)
    ensures ms != [] ==> |Wires(ms[0])| > 0
  {
    if ms != [] {
      SameLengths(ms[0]);
    }
  }
}
