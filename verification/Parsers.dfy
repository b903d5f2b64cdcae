/** One call of a registered parser's ParseFromBuffer, whichever parser it is. */
module Parsers {
  import opened Bytes
  import opened Buffer
  import opened Packets
  import opened Delivery
  import opened Detection
  import CloveFraming
  import WebSocket

  function Drains(p: Parser, s: bytes): Drained {
    match p
    case CloveParser => CloveFraming.Drain(s)
    case WebSocketParser(_) => WebSocket.DrainWs(s)
    case HttpParser(_, drain) => RequestsDrained(drain(s), s)
    case TextParser => Drained(None, [Text(s)], [])
    case FdParser => Drained(None, [], s)
  }

  function RequestsDrained(d: Requests, s: bytes): Drained {
    Drained(d.error, d.packets, s[if d.taken < |s| then d.taken else |s|..])
  }

  method ParseFromBuffer(p: Parser, b: StandardBuffer) returns (err: Option<NetError>, pcks: seq<Packet>)
    requires b.Valid()
    modifies b`off, b.buf
    ensures b.Valid() && Drained(err, pcks, b.Contents()) == Drains(p, old(b.Contents()))
  {
    hide CloveFraming.Drain, WebSocket.DrainWs, RequestsDrained;
    match p
    case CloveParser => err, pcks := CloveFraming.ParseFromBuffer(b);
    case WebSocketParser(_) => err, pcks := WebSocket.ParseFromBuffer(b);
    case HttpParser(_, drain) => err, pcks := ParseRequests(drain, b);
    case TextParser => err, pcks := ParseText(b);
    case FdParser => err, pcks := None, [];
  }

  method ParseRequests(drain: bytes -> Requests, b: StandardBuffer)
    returns (err: Option<NetError>, pcks: seq<Packet>)
    requires b.Valid()
    modifies b`off
    ensures b.Valid()
    ensures Drained(err, pcks, b.Contents()) == RequestsDrained(drain(old(b.Contents())), old(b.Contents()))
  {
    var l := b.Len();
    var peekData, n := b.Peek(l);
    assert peekData == b.Contents();
    var d := drain(peekData);
    var in_, k := b.Next(d.taken);
    err, pcks := d.error, d.packets;
  }

  /** All that is unread is one text packet. */
  method ParseText(b: StandardBuffer) returns (err: Option<NetError>, pcks: seq<Packet>)
    requires b.Valid()
    modifies b`off
    ensures b.Valid() && err == None && pcks == [Text(old(b.Contents()))] && b.Contents() == []
  {
    var l := b.Len();
    var in_, n := b.Next(l);
    assert in_ == old(b.Contents());
    err, pcks := None, [Text(in_)];
  }
}
