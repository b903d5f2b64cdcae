/** From any number of concurrent senders of Clove packets to the receiving connection. */
module TcpEndToEnd {
  import opened Bytes
  import opened Buffer
  import opened Packets
  import opened Delivery
  import opened Detection
  import CloveFraming
  import opened CloveFramingTheorems
  import opened TcpController
  import opened TcpConservation
  import opened TcpScripts
  import opened TcpStreams
  import opened TcpTheorems
  import Receiver = TcpReceiver

  /** What a SendBytes call may carry here: one packaged packet, or the empty close request. */
  ghost predicate CarriesPacket(data: bytes) {
    data == [] || exists p :: Framable(p) && data == Packaged(p)
  }

  ghost predicate AllCarry(t: seq<Step>) {
    forall e :: e in t && e.Call? ==> CarriesPacket(e.data)
  }

  /** The packets in a list of writes, in the order of the writes. */
  function PacketsIn(ws: seq<bytes>): seq<Packet> {
    if ws == [] then []
    else
      var front, last := PacketsIn(ws[..|ws| - 1]), CloveFraming.ParseFromBytes(ws[|ws| - 1]);
      if last.Parsed? then front + [last.packet] else front
  }

  ghost predicate Carried(s: State) {
    && (forall x :: x in s.senders ==> CarriesPacket(x.data))
    && forall w :: w in s.written ==> CarriesPacket(w)
  }

  lemma LoopLeaves(s: State, e: LoopStep)
    requires LoopCan(s, e)
    ensures LoopDoes(s, e).senders == s.senders && LoopDoes(s, e).written == s.written
  {
    hide InFlight;
    match e
    case TestFlag => case TakeNext => case WriteSome(_) => case WriteFails(_) => case Handle(_) => case Notice =>
    case Exit => case TestClosing => case ResetBuffers => case CloseSend => case CloseClosed => case Wait =>
    case SetClosed => case Leave =>
  }

  lemma SenderCarries(s: State, i: nat, e: SenderStep)
    requires Carried(s) && SenderCan(s, i, e)
    ensures Carried(SenderDoes(s, i, e))
  {
    hide CarriesPacket, WrittenTo, LoopAfter;
    assert s.senders[i] in s.senders;
  }

  lemma StepCarries(s: State, e: Step)
    requires Carried(s) && Can(s, e) && (e.Call? ==> CarriesPacket(e.data))
    ensures Carried(Does(s, e))
  {
    hide CarriesPacket;
    match e
    case OfSender(i, x) =>
      SenderCarries(s, i, x);
      hide Carried, SenderDoes;
    case OfLoop(x) =>
      LoopLeaves(s, x);
      hide LoopDoes;
    case OfReader(x) =>
      ReaderLeaves(s, x);
      hide ReaderDoes;
    case Call(data) => case SetFlag(b) => case UpdateFlag(j) => case Lost => case AliveEnds =>
  }

  lemma ReaderLeaves(s: State, e: ReaderStep)
    requires ReaderCan(s, e)
    ensures ReaderDoes(s, e).senders == s.senders && ReaderDoes(s, e).written == s.written
  {
    match e
    case Read => case RaiseFlag => case Determine => case Parsed => case Fail => case ExitAndNotify =>
  }

  lemma {:induction false} RunCarries(s: State, t: seq<Step>)
    requires Carried(s) && Runs(s, t) && AllCarry(t)
    ensures Carried(Final(s, t))
    decreases |t|
  {
    hide Carried, Can, Does, CarriesPacket;
    if t != [] {
      assert t[0] in t;
      StepCarries(s, t[0]);
      assert forall e :: e in t[1..] ==> e in t;
      RunCarries(Does(s, t[0]), t[1..]);
    }
  }

  lemma {:induction false} StreamJoin(ps: seq<Packet>, p: Packet)
    ensures Stream(ps + [p]) == Stream(ps) + Packaged(p)
    ensures AllFramable(ps) && Framable(p) ==> AllFramable(ps + [p])
    decreases |ps|
  {
    hide Packaged, Framable;
    if ps == [] {
      assert [p][1..] == [];
    } else {
      assert (ps + [p])[1..] == ps[1..] + [p];
      StreamJoin(ps[1..], p);
    }
  }

  /** The writes, end to end, are the stream of the packets in them. */
  lemma {:induction false} WritesAreStream(ws: seq<bytes>)
    requires forall w :: w in ws ==> CarriesPacket(w)
    ensures AllFramable(PacketsIn(ws)) && Stream(PacketsIn(ws)) == Flatten(ws)
    decreases |ws|
  {
    hide Packaged, Framable;
    if ws != [] {
      var last := ws[|ws| - 1];
      WritesAreStream(ws[..|ws| - 1]);
      if last == [] {
        assert Flatten(ws[..|ws| - 1]) + [] == Flatten(ws[..|ws| - 1]);
      } else {
        assert last in ws;
        var p :| Framable(p) && last == Packaged(p);
        PackagedLength(p);
        StreamJoin(PacketsIn(ws[..|ws| - 1]), p);
      }
    }
  }

  lemma {:induction false} StreamSplit(ps: seq<Packet>, n: nat)
    requires n <= |ps|
    ensures Stream(ps) == Stream(ps[..n]) + Stream(ps[n..])
    decreases n
  {
    hide Packaged;
    if n == 0 {
      assert ps[..0] == [] && ps[0..] == ps;
    } else {
      StreamSplit(ps[1..], n - 1);
      assert ps[..n][1..] == ps[1..][..n - 1] && ps[n..] == ps[1..][n - 1..];
    }
  }

  /** Only a first part of the stream can have arrived. */
  lemma ArrivedIsPart(ps: seq<Packet>, s: bytes, d: Drained)
    requires Arrived(ps, s, d)
    ensures s <= Stream(ps)
  {
    hide Packaged;
    var n := |d.packets|;
    StreamSplit(ps, n);
    assert ps[..n] == d.packets;
    if n < |ps| {
      assert ps[n..][0] == ps[n];
    }
  }

  /** In every run in which all calls carry packaged packets, whatever part of the wire has
      reached the framer, in whatever pieces: the framer returned exactly the packets that are
      whole in it, the first ones in the order in which they were written to bufSend, if and only
      if these bytes are a first part of the writes, as they always are when no write overwrote
      bytes in the loop's hands. */
  lemma EndToEnd(t: seq<Step>, chunks: seq<bytes>)
    requires Runs(INIT, t) && AllCarry(t) && Concat(chunks) <= Final(INIT, t).wire
    ensures var s := Final(INIT, t);
            Arrived(PacketsIn(s.written), Concat(chunks), Feed(CloveFraming.Drain, [], chunks)) <==>
            Concat(chunks) <= Flatten(s.written)
    ensures NeverOverwrites(INIT, t) ==> Concat(chunks) <= Flatten(Final(INIT, t).written)
  {
    hide Arrived, CloveFraming.Drain, Feed;
    var s := Final(INIT, t);
    RunCarries(INIT, t);
    WritesAreStream(s.written);
    BytesConserved(t);
    var ps, d := PacketsIn(s.written), Feed(CloveFraming.Drain, [], chunks);
    if Concat(chunks) <= Stream(ps) {
      PackagedChunks(ps, chunks);
    } else if Arrived(ps, Concat(chunks), d) {
      ArrivedIsPart(ps, Concat(chunks), d);
    }
  }

  /** Once everything written is on the wire and has been read, every packet has arrived. */
  lemma AllArrive(t: seq<Step>, chunks: seq<bytes>)
    requires Runs(INIT, t) && AllCarry(t) && NeverOverwrites(INIT, t)
    requires var s := Final(INIT, t);
             Concat(chunks) == s.wire && !s.failed && s.loop == Selecting && Unread(s.bufSend) == []
    ensures Feed(CloveFraming.Drain, [], chunks) == Drained(None, PacketsIn(Final(INIT, t).written), [])
  {
    hide CloveFraming.Drain, Runs, Final, AllCarry, Feed, NeverOverwrites, AlwaysInOrder;
    var s := Final(INIT, t);
    EndToEnd(t, chunks);
    BytesConserved(t);
    assert s.wire + [] + [] == s.wire;
    RunCarries(INIT, t);
    WritesAreStream(s.written);
    WholeStream(PacketsIn(s.written), Feed(CloveFraming.Drain, [], chunks));
  }

  /** Two calls send p and q, and q is written while the loop still holds p: the receiver gets q
      twice and p never, in whatever pieces it reads. */
  lemma PacketOverwritten(p: Packet, q: Packet, chunks: seq<bytes>)
    requires Framable(p) && Framable(q) && 27 < |p.raw| == |q.raw| <= 59
    requires Concat(chunks) == Packaged(q) + Packaged(q)
    ensures Runs(INIT, OverwritingRun(Packaged(p), Packaged(q)))
    ensures var s := Final(INIT, OverwritingRun(Packaged(p), Packaged(q)));
            && s.wire == Concat(chunks) && PacketsIn(s.written) == [p, q]
            && Feed(CloveFraming.Drain, [], chunks) == Drained(None, [q, q], [])
  {
    hide CloveFraming.Drain, Packaged, OverwritingRun, Runs, Final, Feed, CloveFraming.ParseFromBytes;
    PackagedLength(p);
    PackagedLength(q);
    Overwritten(Packaged(p), Packaged(q));
    TwoPackets(p, q);
    TwoPackets(q, q);
    PackagedChunks([q, q], chunks);
    WholeStream([q, q], Feed(CloveFraming.Drain, [], chunks));
  }

  lemma TwoPackets(p: Packet, q: Packet)
    requires Framable(p) && Framable(q)
    ensures AllFramable([p, q]) && Stream([p, q]) == Packaged(p) + Packaged(q)
    ensures PacketsIn([Packaged(p), Packaged(q)]) == [p, q]
  {
    hide CloveFraming.ParseFromBytes, Packaged, Framable;
    PackagedLength(p);
    PackagedLength(q);
    StreamJoin([], p);
    StreamJoin([p], q);
    PacketsJoin([], p);
    PacketsJoin([Packaged(p)], q);
    assert [] + Packaged(p) == Packaged(p) && [] + [p] == [p] && [p] + [q] == [p, q];
    assert [] + [Packaged(p)] == [Packaged(p)] && [Packaged(p)] + [Packaged(q)] == [Packaged(p), Packaged(q)];
  }

  lemma PacketsJoin(ws: seq<bytes>, p: Packet)
    requires Framable(p)
    ensures PacketsIn(ws + [Packaged(p)]) == PacketsIn(ws) + [p]
  {
    PackagedLength(p);
    hide CloveFraming.ParseFromBytes, Packaged, Framable;
    assert (ws + [Packaged(p)])[..|ws|] == ws;
  }

  lemma WholeStream(ps: seq<Packet>, d: Drained)
    requires Arrived(ps, Stream(ps), d)
    ensures d == Drained(None, ps, [])
  {
    hide Packaged;
    assert ps[..|d.packets|] == d.packets;
    if |d.packets| < |ps| {
      StreamPrefix(ps, |d.packets|);
    }
  }

  lemma {:induction false} StreamPrefix(ps: seq<Packet>, n: nat)
    requires n < |ps|
    ensures |Stream(ps)| >= |Stream(ps[..n])| + |Packaged(ps[n])|
    decreases n
  {
    hide Packaged;
    if n > 0 {
      StreamPrefix(ps[1..], n - 1);
      assert ps[..n][1..] == ps[1..][..n - 1];
    }
  }

  /** The same through a connection that first has to determine the format: it also takes that
      the connection learns it. */
  lemma EndToEndDetected(t: seq<Step>, formats: seq<Format>, clove: Format, chunks: seq<bytes>)
    requires Runs(INIT, t) && AllCarry(t) && Concat(chunks) <= Final(INIT, t).wire
    requires CloveRegistered(formats, clove) && clove.preprocessor == None
    requires var d := LastDefault(formats);
             d.Some? ==> d.value.parser == TextParser && d.value.preprocessor == None
    requires chunks != [] && forall c :: c in chunks ==> c != []
    ensures PacketsIn(Final(INIT, t).written) != []
    ensures Arrived(PacketsIn(Final(INIT, t).written), Concat(chunks),
                    Receiver.AsDrained(Receiver.Received(formats, None, [], chunks))) <==>
            && Concat(chunks) <= Flatten(Final(INIT, t).written)
            && Receiver.Learns(formats, PacketsIn(Final(INIT, t).written), chunks)
    ensures NeverOverwrites(INIT, t) ==> Concat(chunks) <= Flatten(Final(INIT, t).written)
  {
    hide Arrived, CloveRegistered, LastDefault, Receiver.Received, Receiver.Learns;
    var s := Final(INIT, t);
    RunCarries(INIT, t);
    WritesAreStream(s.written);
    BytesConserved(t);
    BytesCounted(t);
    assert chunks[0] in chunks;
    var ps := PacketsIn(s.written);
    var d := Receiver.AsDrained(Receiver.Received(formats, None, [], chunks));
    if Concat(chunks) <= Stream(ps) {
      Receiver.StreamReceived(formats, clove, ps, chunks);
    } else if Arrived(ps, Concat(chunks), d) {
      ArrivedIsPart(ps, Concat(chunks), d);
    }
  }
}
