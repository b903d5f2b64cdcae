/** WebSocket connections: the upgrade, and frames from any number of concurrent senders to the
    receiving connection. */
module TcpWebSocket {
  import opened Bytes
  import opened Packets
  import opened Delivery
  import opened Detection
  import opened WebSocket
  import opened WebSocketTheorems
  import opened WebSocketMessages
  import opened WebSocketDelivery
  import opened WebSocketPackaging
  import opened TcpController
  import opened TcpConservation
  import opened TcpStreams
  import opened TcpTheorems
  import Receiver = TcpReceiver

  // ---------- the upgrade ----------

  /** Once the format is WebSocket, reading is feeding its parser, and nothing is answered. */
  lemma {:induction false} FramesReceived(formats: seq<Format>, ws: Format, buffered: bytes, chunks: seq<bytes>)
    requires ws.parser.WebSocketParser?
    ensures var r := Receiver.Received(formats, Some(ws), buffered, chunks);
            Receiver.AsDrained(r) == Feed(DrainWs, buffered, chunks) && r.ack == []
    decreases |chunks|
  {
    hide DrainWs, Receiver.PacketsParsed;
    if chunks != [] {
      Receiver.UsesFormat(formats, ws, buffered + chunks[0]);
      FramesReceived(formats, ws, DrainWs(buffered + chunks[0]).rest, chunks[1..]);
    }
  }

  /** The read that completes the request, with all that is in the buffer then. */
  ghost predicate Upgrades(formats: seq<Format>, ws: Format, s: bytes, answer: bytes) {
    && ws.parser.WebSocketParser? && Determined(formats, s) == Some(ws)
    && ws.preprocessor.Some? && ws.preprocessor.value(s) == Ack(answer)
  }

  /** The upgrade answers the request and empties the buffer: what came behind the request in
      the same read is lost, and the parser sees the later reads only. */
  lemma UpgradeDrops(formats: seq<Format>, ws: Format, buffered: bytes, answer: bytes, chunks: seq<bytes>)
    requires chunks != [] && Upgrades(formats, ws, buffered + chunks[0], answer)
    ensures var r := Receiver.Received(formats, None, buffered, chunks);
            && Receiver.AsDrained(r) == Feed(DrainWs, [], chunks[1..])
            && r.ack == answer && r.format == Some(ws)
  {
    hide DrainWs, Feed, Determined;
    var r := Receiver.PacketsParsed(formats, None, buffered + chunks[0]);
    assert r == Receiver.Outcome(None, [], answer, Some(ws), []);
    FramesReceived(formats, ws, [], chunks[1..]);
    FormatKept(formats, ws, [], chunks[1..]);
    var later := Receiver.Received(formats, Some(ws), [], chunks[1..]);
    assert [] + later.packets == later.packets && answer + [] == answer;
  }

  lemma {:induction false} FormatKept(formats: seq<Format>, f: Format, buffered: bytes, chunks: seq<bytes>)
    ensures Receiver.Received(formats, Some(f), buffered, chunks).format == Some(f)
    decreases |chunks|
  {
    hide Receiver.PacketsParsed;
    if chunks != [] {
      Receiver.UsesFormat(formats, f, buffered + chunks[0]);
      FormatKept(formats, f, Receiver.PacketsParsed(formats, Some(f), buffered + chunks[0]).rest, chunks[1..]);
    }
  }

  /** A client that sends messages right behind its request: those whole in the read that
      completes the request are lost, and the messages after them arrive. */
  lemma EarlyMessagesLost(formats: seq<Format>, ws: Format, request: bytes, answer: bytes, early: seq<seq<Frame>>,
                          late: seq<seq<Frame>>, chunks: seq<bytes>)
    requires AllMessages(early) && AllMessages(late)
    requires Upgrades(formats, ws, request + Stream(early), answer)
    requires Concat(chunks) <= Stream(late) && SafeDelivery(late, 0, chunks)
    ensures Arrived(late, Concat(chunks),
                    Receiver.AsDrained(Receiver.Received(formats, None, [], [request + Stream(early)] + chunks)))
  {
    hide Arrived, SafeDelivery, DrainWs, Feed, Upgrades, Stream;
    var all := [request + Stream(early)] + chunks;
    assert all[1..] == chunks && [] + all[0] == request + Stream(early);
    UpgradeDrops(formats, ws, [], answer, all);
    ChunkIndependence(late, chunks);
  }

  // ---------- frames that are written ----------

  /** What the packager makes a frame of that the parser reads. */
  predicate Sendable(p: Packet) {
    (p.Text? || p.Binary?) && |RawOf(p)| < TWO32
  }

  /** What a SendBytes call may carry here: one packaged packet, or the empty close request. */
  ghost predicate CarriesFrame(data: bytes) {
    data == [] || exists p :: Sendable(p) && data == Package(p)
  }

  ghost function Packaged(data: bytes): (p: Packet)
    requires CarriesFrame(data) && data != []
    ensures Sendable(p) && data == Package(p)
  {
    var p :| Sendable(p) && data == Package(p);
    p
  }

  /** The messages in a list of writes, in the order of the writes: each is one frame. */
  ghost function MessagesIn(ws: seq<bytes>): (ms: seq<seq<Frame>>)
    requires forall w :: w in ws ==> CarriesFrame(w)
  {
    if ws == [] then []
    else if ws[0] == [] then MessagesIn(ws[1..])
    else [[FrameOf(Packaged(ws[0]))]] + MessagesIn(ws[1..])
  }

  ghost predicate Singles(ms: seq<seq<Frame>>) {
    AllMessages(ms) && forall m :: m in ms ==> |m| == 1
  }

  lemma {:induction false} SinglesSafe(ms: seq<seq<Frame>>, n: nat)
    requires Singles(ms)
    ensures SafeCut(ms, n)
    decreases |ms|
  {
    hide Wires;
    if ms != [] {
      assert ms[0] in ms && forall m :: m in ms[1..] ==> m in ms;
      if n >= |Wires(ms[0])| {
        SinglesSafe(ms[1..], n - |Wires(ms[0])|);
      }
    }
  }

  lemma {:induction false} SinglesSafelyCut(ms: seq<seq<Frame>>, n: nat, chunks: seq<bytes>)
    requires Singles(ms)
    ensures SafeDelivery(ms, n, chunks)
    decreases |chunks|
  {
    hide SafeCut, Singles;
    assert AllMessages(ms) by {
      SinglesAreMessages(ms);
    }
    SinglesSafe(ms, n);
    if chunks != [] {
      SinglesSafelyCut(ms, n + |chunks[0]|, chunks[1..]);
    }
  }

  lemma SinglesAreMessages(ms: seq<seq<Frame>>)
    requires Singles(ms)
    ensures AllMessages(ms)
  {
  }

  lemma OneFrame(p: Packet)
    requires Sendable(p)
    ensures Message([FrameOf(p)]) && Wires([FrameOf(p)]) == Package(p)
    ensures PacketOfMessage([FrameOf(p)]) == PacketOf(OpOf(p), RawOf(p))
  {
    hide Wire, Package;
    PackagedFrame(p);
    var m := [FrameOf(p)];
    assert m[1..] == [] && AllValid(m);
    Unfolded(m, [], []);
    PayloadsUnfolded(m, []);
  }

  lemma {:induction false} FlattenFirst(ws: seq<bytes>)
    requires ws != []
    ensures Flatten(ws) == ws[0] + Flatten(ws[1..])
    decreases |ws|
  {
    if |ws| == 1 {
      assert ws[..0] == [] && ws[1..] == [];
      assert Flatten([]) + ws[0] == ws[0] + Flatten([]);
    } else {
      var front := ws[..|ws| - 1];
      FlattenFirst(front);
      assert front[1..] == ws[1..][..|ws| - 2] && ws[1..][|ws| - 2] == ws[|ws| - 1];
    }
  }

  /** The writes, end to end, are the stream of the messages in them. */
  lemma {:induction false} WritesAreFrames(ws: seq<bytes>)
    requires forall w :: w in ws ==> CarriesFrame(w)
    ensures Singles(MessagesIn(ws)) && Stream(MessagesIn(ws)) == Flatten(ws)
    decreases |ws|
  {
    hide Package, Message, CarriesFrame;
    if ws != [] {
      assert ws[0] in ws && forall w :: w in ws[1..] ==> w in ws;
      var rest := MessagesIn(ws[1..]);
      WritesAreFrames(ws[1..]);
      FlattenFirst(ws);
      if ws[0] == [] {
        assert [] + Flatten(ws[1..]) == Flatten(ws[1..]);
      } else {
        var p := Packaged(ws[0]);
        OneFrame(p);
        assert ([[FrameOf(p)]] + rest)[1..] == rest;
      }
    }
  }

  // ---------- from end to end ----------

  /** In every run in which one call wrote the bytes of a handshake first and all later ones
      carry packaged packets: what the parser returns from any pieces of the wire behind the
      handshake is exactly the messages whole in it, first ones in write order, if these bytes
      are a first part of the writes, as they always are when no write overwrote bytes in the
      loop's hands. */
  lemma EndToEnd(t: seq<Step>, handshake: bytes, chunks: seq<bytes>)
    requires Runs(INIT, t)
    requires var s := Final(INIT, t);
             && s.written != [] && s.written[0] == handshake && handshake + Concat(chunks) <= s.wire
             && forall w :: w in s.written[1..] ==> CarriesFrame(w)
    ensures var s := Final(INIT, t);
            var ms := MessagesIn(s.written[1..]);
            && AllMessages(ms)
            && (handshake + Concat(chunks) <= Flatten(s.written) ==>
                  Arrived(ms, Concat(chunks), Feed(DrainWs, [], chunks)))
            && (NeverOverwrites(INIT, t) ==> handshake + Concat(chunks) <= Flatten(s.written))
  {
    hide DrainWs, Feed, CarriesFrame, MessagesIn, Runs, Final, NeverOverwrites, AlwaysInOrder, Arrived, SafeDelivery;
    var s := Final(INIT, t);
    var ms := MessagesIn(s.written[1..]);
    BytesConserved(t);
    WritesAreFrames(s.written[1..]);
    FlattenFirst(s.written);
    if handshake + Concat(chunks) <= Flatten(s.written) {
      SameFront(handshake, Concat(chunks), Stream(ms));
      SinglesSafelyCut(ms, 0, chunks);
      ChunkIndependence(ms, chunks);
    }
  }

  lemma SameFront(a: bytes, b: bytes, c: bytes)
    requires a + b <= a + c
    ensures b <= c
  {
    assert b == (a + b)[|a|..] && c == (a + c)[|a|..];
  }

  /** The same through a connection that is upgraded by these bytes: the reads behind the one
      that completed the request deliver the messages. */
  lemma EndToEndUpgraded(t: seq<Step>, formats: seq<Format>, ws: Format, request: bytes, answer: bytes,
                         chunks: seq<bytes>)
    requires Runs(INIT, t) && NeverOverwrites(INIT, t) && Upgrades(formats, ws, request, answer)
    requires var s := Final(INIT, t);
             && s.written != [] && s.written[0] == request && request + Concat(chunks) <= s.wire
             && forall w :: w in s.written[1..] ==> CarriesFrame(w)
    ensures var ms := MessagesIn(Final(INIT, t).written[1..]);
            && AllMessages(ms)
            && Arrived(ms, Concat(chunks),
                       Receiver.AsDrained(Receiver.Received(formats, None, [], [request] + chunks)))
  {
    hide DrainWs, Feed, CarriesFrame, MessagesIn, Runs, Final, NeverOverwrites, Arrived, Upgrades;
    EndToEnd(t, request, chunks);
    var all := [request] + chunks;
    assert all[1..] == chunks && [] + all[0] == request;
    UpgradeDrops(formats, ws, [], answer, all);
  }
}
