/** A byte stream delivered in pieces to a parser that drains a buffer after each piece. */
module Delivery {
  import opened Bytes
  import opened Packets

  /** One call of a parser's ParseFromBuffer: what it returns and what it leaves buffered. */
  datatype Drained = Drained(error: Option<NetError>, packets: seq<Packet>, rest: bytes)

  function After(pcks: seq<Packet>, d: Drained): Drained {
    Drained(d.error, pcks + d.packets, d.rest)
  }

  lemma AfterAfter(front: seq<Packet>, pcks: seq<Packet>, d: Drained)
    ensures After(front, After(pcks, d)) == After(front + pcks, d)
  {
    assert front + (pcks + d.packets) == front + pcks + d.packets;
  }

  function Concat(chunks: seq<bytes>): bytes {
    if chunks == [] then [] else chunks[0] + Concat(chunks[1..])
  }

  /** One Write and one ParseFromBuffer for each piece. An error closes the connection, and
      the packets parsed in the same call are not delivered (tcp/controller.go:144-150). */
  function Feed(drain: bytes -> Drained, buffered: bytes, chunks: seq<bytes>): Drained
    decreases |chunks|
  {
    if chunks == [] then Drained(None, [], buffered)
    else
      var d := drain(buffered + chunks[0]);
      if d.error.Some? then Drained(d.error, [], d.rest)
      else After(d.packets, Feed(drain, d.rest, chunks[1..]))
  }

  /** Two pieces are two calls. */
  lemma FeedTwo(drain: bytes -> Drained, t: bytes, rest: bytes)
    requires drain(t).error == None
    ensures var d := drain(t);
            var e := drain(d.rest + rest);
            Feed(drain, [], [t, rest]) ==
            Drained(e.error, if e.error.Some? then d.packets else d.packets + e.packets, e.rest)
  {
    assert [] + t == t;
    assert [t, rest][1..] == [rest] && [rest][1..] == [];
    var d := drain(t);
    var e := drain(d.rest + rest);
    assert Feed(drain, [], [t, rest]) == After(d.packets, Feed(drain, d.rest, [rest]));
    if e.error.Some? {
      assert Feed(drain, d.rest, [rest]) == Drained(e.error, [], e.rest);
      assert d.packets + [] == d.packets;
    } else {
      assert Feed(drain, d.rest, [rest]) == After(e.packets, Feed(drain, e.rest, []));
      assert e.packets + [] == e.packets;
    }
  }
}
