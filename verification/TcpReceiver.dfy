/** The receiving half of the TCP controller (tcp/controller.go): every read is buffered, the
    packet format is determined once, and its parser drains the buffer. */
module TcpReceiver {
  import opened Bytes
  import opened Buffer
  import opened Packets
  import opened Delivery
  import opened Detection
  import CloveFraming
  import opened CloveFramingTheorems
  import opened Parsers

  // ---------- one call ----------

  /** What parsePacket reports, what it hands to ReceivePackets and to SendBytes, the format it
      settled on and the bytes it leaves. */
  datatype Outcome = Outcome(error: Option<NetError>, packets: seq<Packet>, ack: bytes,
                             format: Option<Format>, rest: bytes)

  /** On an error the packets parsed in the same call are dropped. */
  function ParsedWith(f: Format, s: bytes): Outcome {
    var d := Drains(f.parser, s);
    Outcome(d.error, if d.error.Some? then [] else d.packets, [], Some(f), d.rest)
  }

  ghost function PacketsParsed(formats: seq<Format>, format: Option<Format>, s: bytes): Outcome {
    if format.Some? then ParsedWith(format.value, s)
    else
      match Determined(formats, s)
      case None => Outcome(None, [], [], None, s)
      case Some(f) =>
        if f.preprocessor == None then ParsedWith(f, s)
        else
          match f.preprocessor.value(s)
          case NoAck(e) => Outcome(Some(e), [], [], Some(f), s)
          case Ack(ack) => Outcome(None, [], ack, Some(f), [])
  }

  class Controller {
    const packetFmtMgr: seq<Format>
    const bufRecv: StandardBuffer
    var packetFmt: Option<Format>

    constructor (formats: seq<Format>)
      ensures bufRecv.Valid() && bufRecv.Contents() == [] && packetFmt == None && packetFmtMgr == formats
    {
      packetFmtMgr := formats;
      bufRecv := new StandardBuffer();
      packetFmt := None;
    }

    method ParsePacket() returns (err: Option<NetError>, pcks: seq<Packet>, ack: bytes)
      requires bufRecv.Valid()
      modifies this`packetFmt, bufRecv, bufRecv.buf
      ensures bufRecv.Valid()
      ensures Outcome(err, pcks, ack, packetFmt, bufRecv.Contents())
              == PacketsParsed(packetFmtMgr, old(packetFmt), old(bufRecv.Contents()))
      decreases packetFmt == None
    {
      hide Drains;
      ack := [];
      if packetFmt.Some? {
        err, pcks := ParseFromBuffer(packetFmt.value.parser, bufRecv);
        if err.Some? {
          pcks := [];
        }
        return;
      }
      packetFmt := DetermineFromBuffer(packetFmtMgr, bufRecv);
      ChoiceUnique(packetFmtMgr, bufRecv.Contents(), packetFmt, Determined(packetFmtMgr, bufRecv.Contents()));
      err, pcks := None, [];
      if packetFmt.Some? {
        if packetFmt.value.preprocessor.Some? {
          var l := bufRecv.Len();
          var peekData, n := bufRecv.Peek(l);
          assert peekData == bufRecv.Contents();
          var h := packetFmt.value.preprocessor.value(peekData);
          if h.NoAck? {
            return Some(h.error), [], [];
          }
          bufRecv.Reset();
          ack := h.ack;
        } else {
          err, pcks, ack := ParsePacket();
        }
      }
    }

    /** The body of processRead's loop for one successful conn.Read. */
    method ProcessRead(chunk: bytes) returns (err: Option<NetError>, pcks: seq<Packet>, ack: bytes)
      requires bufRecv.Valid()
      modifies this`packetFmt, bufRecv, bufRecv.buf
      ensures bufRecv.Valid()
      ensures Outcome(err, pcks, ack, packetFmt, bufRecv.Contents())
              == PacketsParsed(packetFmtMgr, old(packetFmt), old(bufRecv.Contents()) + chunk)
    {
      var n := bufRecv.Write(chunk);
      err, pcks, ack := ParsePacket();
    }
  }

  // ---------- a connection ----------

  /** All reads of a connection, up to the first error. */
  ghost function Received(formats: seq<Format>, format: Option<Format>, buffered: bytes, chunks: seq<bytes>): Outcome
    decreases |chunks|
  {
    if chunks == [] then Outcome(None, [], [], format, buffered)
    else
      var r := PacketsParsed(formats, format, buffered + chunks[0]);
      if r.error.Some? then r
      else
        var later := Received(formats, r.format, r.rest, chunks[1..]);
        Outcome(later.error, r.packets + later.packets, r.ack + later.ack, later.format, later.rest)
  }

  function AsDrained(r: Outcome): Drained {
    Drained(r.error, r.packets, r.rest)
  }

  /** Once the format is Clove, reading is feeding the framer. */
  lemma {:induction false} CloveReceives(formats: seq<Format>, clove: Format, buffered: bytes, chunks: seq<bytes>)
    requires clove.parser == CloveParser
    ensures AsDrained(Received(formats, Some(clove), buffered, chunks)) == Feed(CloveFraming.Drain, buffered, chunks)
    decreases |chunks|
  {
    hide CloveFraming.Drain, PacketsParsed;
    if chunks != [] {
      assert PacketsParsed(formats, Some(clove), buffered + chunks[0]) == ParsedWith(clove, buffered + chunks[0]) by {
        UsesFormat(formats, clove, buffered + chunks[0]);
      }
      CloveReceives(formats, clove, CloveFraming.Drain(buffered + chunks[0]).rest, chunks[1..]);
    }
  }

  lemma UsesFormat(formats: seq<Format>, f: Format, s: bytes)
    ensures PacketsParsed(formats, Some(f), s) == ParsedWith(f, s)
  {
  }

  /** Both protocol numbers are set, without which a packet does not score as Clove. */
  predicate Recognizable(p: Packet) {
    p.Binary? && p.protocolType != 0 && p.protocolVer != 0
  }

  /** A packaged stream whose format is not yet determined: Clove is found as soon as a
      recognizable first packet is whole, and nothing is lost by then. If the first packet is
      not recognizable, no format is found, and all bytes stay in the buffer. */
  lemma {:induction false} CloveFound(formats: seq<Format>, clove: Format, ps: seq<Packet>, buffered: bytes,
                                      chunks: seq<bytes>)
    requires CloveRegistered(formats, clove) && clove.preprocessor == None
    requires ps != [] && AllFramable(ps)
    requires buffered + Concat(chunks) <= Stream(ps)
    requires Recognizable(ps[0]) ==> |buffered| < |Packaged(ps[0])|
    requires LastDefault(formats) == None || (chunks != [] ==> |buffered + chunks[0]| >= CloveFraming.HEADER_LENGTH)
    requires forall c :: c in chunks ==> c != []
    ensures AsDrained(Received(formats, None, buffered, chunks)) ==
            if Recognizable(ps[0]) then CloveFraming.Drain(buffered + Concat(chunks))
            else Drained(None, [], buffered + Concat(chunks))
    decreases |chunks|
  {
    hide CloveFraming.Drain, Packaged, AllFramable, Determined, CloveRegistered, Recognizable, LastDefault,
      ParsedWith;
    if chunks == [] {
      assert buffered + Concat(chunks) == buffered;
      if Recognizable(ps[0]) {
        FirstWaits(ps, buffered);
      }
      return;
    }
    var s, rest := buffered + chunks[0], Concat(chunks[1..]);
    assert buffered + Concat(chunks) == s + rest;
    assert s <= Stream(ps);
    FoundYet(formats, clove, ps, s);
    if |s| < |Packaged(ps[0])| || !Recognizable(ps[0]) {
      assert forall c :: c in chunks[1..] ==> c in chunks;
      CloveFound(formats, clove, ps, s, chunks[1..]);
    } else {
      FoundNow(formats, clove, ps, s, chunks[1..]);
    }
  }

  lemma FoundYet(formats: seq<Format>, clove: Format, ps: seq<Packet>, s: bytes)
    requires CloveRegistered(formats, clove) && ps != [] && AllFramable(ps) && s <= Stream(ps)
    requires LastDefault(formats) == None || |s| >= CloveFraming.HEADER_LENGTH
    ensures Determined(formats, s) ==
            if |s| >= |Packaged(ps[0])| && Recognizable(ps[0]) then Some(clove) else None
    ensures |s| < CloveFraming.HEADER_LENGTH ==> |s| < |Packaged(ps[0])|
  {
    hide Packaged, Determined, CloveRegistered, LastDefault;
    if |s| < CloveFraming.HEADER_LENGTH {
      ShortReadTakesDefault(formats, s, Determined(formats, s));
      StreamLonger(ps, s);
    } else {
      StreamDetected(formats, clove, ps, s, Determined(formats, s));
    }
  }

  lemma FoundNow(formats: seq<Format>, clove: Format, ps: seq<Packet>, s: bytes, chunks: seq<bytes>)
    requires CloveRegistered(formats, clove) && clove.preprocessor == None && Determined(formats, s) == Some(clove)
    requires ps != [] && AllFramable(ps) && s + Concat(chunks) <= Stream(ps)
    ensures var r := PacketsParsed(formats, None, s);
            var later := Received(formats, r.format, r.rest, chunks);
            && r.error == None
            && Drained(later.error, r.packets + later.packets, later.rest) == CloveFraming.Drain(s + Concat(chunks))
  {
    hide CloveFraming.Drain, Packaged, AllFramable, Determined, Received;
    IsClove(formats, clove);
    PrefixDrains(ps, s + Concat(chunks));
    SteadySplit(s, Concat(chunks));
    ChunkIndependence(CloveFraming.Drain(s).rest, chunks);
    CloveReceives(formats, clove, CloveFraming.Drain(s).rest, chunks);
  }

  lemma IsClove(formats: seq<Format>, clove: Format)
    requires CloveRegistered(formats, clove)
    ensures clove.parser == CloveParser
  {
  }

  lemma StreamLonger(ps: seq<Packet>, s: bytes)
    requires ps != [] && AllFramable(ps) && |s| < CloveFraming.HEADER_LENGTH
    ensures |s| < |Packaged(ps[0])|
  {
  }

  lemma FirstWaits(ps: seq<Packet>, s: bytes)
    requires ps != [] && AllFramable(ps) && s <= Stream(ps) && |s| < |Packaged(ps[0])|
    ensures CloveFraming.Drain(s) == Drained(None, [], s)
  {
    hide Packaged, CloveFraming.PacketLength, Framable;
    assert s == Packaged(ps[0])[..|s|];
    IncompleteWaits(ps[0], s);
  }

  /** When a connection learns in time that a packaged stream is one: no short first read sends
      it to the default format, and a whole first packet is recognizable. */
  predicate Learns(formats: seq<Format>, ps: seq<Packet>, chunks: seq<bytes>)
    requires ps != [] && chunks != []
  {
    && (|chunks[0]| >= CloveFraming.HEADER_LENGTH || LastDefault(formats) == None)
    && (|Concat(chunks)| < |Packaged(ps[0])| || Recognizable(ps[0]))
  }

  /** A connection on which a packaged stream arrives, in any pieces, delivers exactly the
      packets that have arrived and keeps exactly the incomplete one, if and only if it learns
      the format. */
  lemma StreamReceived(formats: seq<Format>, clove: Format, ps: seq<Packet>, chunks: seq<bytes>)
    requires CloveRegistered(formats, clove) && clove.preprocessor == None
    requires var d := LastDefault(formats);
             d.Some? ==> d.value.parser == TextParser && d.value.preprocessor == None
    requires ps != [] && AllFramable(ps)
    requires chunks != [] && (forall c :: c in chunks ==> c != []) && Concat(chunks) <= Stream(ps)
    ensures Arrived(ps, Concat(chunks), AsDrained(Received(formats, None, [], chunks)))
            <==> Learns(formats, ps, chunks)
  {
    hide CloveRegistered, CloveFraming.Drain, Packaged, Framable;
    var s := Concat(chunks);
    assert [] + s == s && [] + chunks[0] == chunks[0];
    if |chunks[0]| >= CloveFraming.HEADER_LENGTH || LastDefault(formats) == None {
      StreamLonger(ps, []);
      CloveFound(formats, clove, ps, [], chunks);
      if Recognizable(ps[0]) {
        PrefixDrains(ps, s);
      } else {
        assert Stream([]) + s == s;
      }
    } else {
      ShortReadTakesDefault(formats, chunks[0], Determined(formats, chunks[0]));
      TextFirst(formats, ps, chunks);
    }
  }

  /** After a short first read its bytes are a text packet, which nobody sent. */
  lemma TextFirst(formats: seq<Format>, ps: seq<Packet>, chunks: seq<bytes>)
    requires ps != [] && AllFramable(ps) && chunks != []
    requires var d := Determined(formats, chunks[0]);
             d.Some? && d.value.parser == TextParser && d.value.preprocessor == None
    ensures !Arrived(ps, Concat(chunks), AsDrained(Received(formats, None, [], chunks)))
  {
    hide Determined, Packaged;
    var r := Received(formats, None, [], chunks);
    assert [] + chunks[0] == chunks[0];
    assert PacketsParsed(formats, None, chunks[0]).packets == [Text(chunks[0])];
    assert r.packets[0] == Text(chunks[0]);
  }

  /** A packet without a protocol type or version, as the WebSocket parser makes them, is never
      delivered when it comes first, however much follows it. */
  lemma NeverRecognized(formats: seq<Format>, clove: Format, p: Packet, later: seq<Packet>, chunks: seq<bytes>)
    requires CloveRegistered(formats, clove) && clove.preprocessor == None && LastDefault(formats) == None
    requires Framable(p) && !Recognizable(p) && AllFramable(later)
    requires (forall c :: c in chunks ==> c != []) && Concat(chunks) <= Stream([p] + later)
    ensures AsDrained(Received(formats, None, [], chunks)) == Drained(None, [], Concat(chunks))
  {
    hide CloveRegistered, Packaged, Framable;
    assert ([p] + later)[1..] == later && [] + Concat(chunks) == Concat(chunks);
    CloveFound(formats, clove, [p] + later, [], chunks);
  }
}
