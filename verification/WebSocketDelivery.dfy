/** WebSocket messages delivered in pieces: when the packets do not depend on the pieces, and
    what happens when a final frame is split. */
module WebSocketDelivery {
  import opened Bytes
  import opened Packets
  import opened Delivery
  import opened WebSocket
  import opened WebSocketTheorems
  import opened WebSocketMessages

  ghost predicate AllMessages(ms: seq<seq<Frame>>) {
    ms != [] ==> Message(ms[0]) && AllMessages(ms[1..])
  }

  ghost function Stream(ms: seq<seq<Frame>>): bytes
    requires AllMessages(ms)
  {
    if ms == [] then [] else Wires(ms[0]) + Stream(ms[1..])
  }

  ghost function PacketOfMessage(m: seq<Frame>): Packet
    requires Message(m)
  {
    PacketOf(m[0].op, Payloads(m))
  }

  // ---------- where a delivery may be cut ----------

  /** The frames before the final one. */
  ghost function Front(m: seq<Frame>): seq<Frame>
    requires m != []
  {
    m[..|m| - 1]
  }

  ghost function Last(m: seq<Frame>): Frame
    requires m != []
  {
    m[|m| - 1]
  }

  lemma {:induction false} WiresSplit(fs: seq<Frame>)
    requires fs != [] && AllValid(fs)
    ensures AllValid(Front(fs)) && ValidFrame(Last(fs)) && Wires(fs) == Wires(Front(fs)) + Wire(Last(fs))
    ensures Payloads(fs) == Payloads(Front(fs)) + Last(fs).payload
  {
    hide Wire;
    if |fs| == 1 {
      assert Front(fs) == [];
      assert fs[1..] == [];
    } else {
      WiresSplit(fs[1..]);
      assert Front(fs)[1..] == Front(fs[1..]);
    }
  }

  /** n bytes of m are short of its final frame, or m has only that frame. */
  ghost predicate Safe(m: seq<Frame>, n: nat)
    requires Message(m)
  {
    |m| == 1 || (AllValid(Front(m)) && n <= |Wires(Front(m))|)
  }

  /** A delivery that ends after p bytes of the stream does not split such a final frame. */
  ghost predicate SafeCut(ms: seq<seq<Frame>>, p: nat)
    requires AllMessages(ms)
  {
    ms != [] ==>
      if p >= |Wires(ms[0])| then SafeCut(ms[1..], p - |Wires(ms[0])|) else Safe(ms[0], p)
  }

  ghost predicate SafeDelivery(ms: seq<seq<Frame>>, p: nat, chunks: seq<bytes>)
    requires AllMessages(ms)
    decreases |chunks|
  {
    SafeCut(ms, p) && (chunks != [] ==> SafeDelivery(ms, p + |chunks[0]|, chunks[1..]))
  }

  // ---------- an incomplete message is waited for ----------

  ghost predicate NonFinals(fs: seq<Frame>) {
    AllValid(fs) && (fs != [] ==> !fs[0].fin && NonFinals(fs[1..]))
  }

  lemma {:induction false} ContinuationFront(fs: seq<Frame>)
    requires Continuation(fs)
    ensures NonFinals(Front(fs)) && Last(fs).fin && Last(fs).op == 0
    ensures forall f :: f in Front(fs) ==> f.op == 0
  {
    if |fs| == 1 {
      assert Front(fs) == [];
    } else {
      ContinuationFront(fs[1..]);
      assert Front(fs)[1..] == Front(fs[1..]);
      assert Front(fs) == [fs[0]] + Front(fs[1..]);
    }
  }

  lemma MessageFront(m: seq<Frame>)
    requires Message(m) && |m| > 1
    ensures NonFinals(Front(m)) && Last(m).fin && Last(m).op == 0
    ensures Front(m) != [] && Front(m)[0] == m[0]
    ensures forall f :: f in Front(m)[1..] ==> f.op == 0
  {
    ContinuationFront(m[1..]);
    assert Front(m)[1..] == Front(m[1..]);
  }

  lemma {:induction false} NonFinalsUnfinished(fs: seq<Frame>, t: bytes)
    requires NonFinals(fs) && t <= Wires(fs)
    ensures CheckFrames(t) != Finished
  {
    hide Wire, Incomplete, FrameLength;
    if fs != [] {
      var w := Wire(fs[0]);
      FirstByteRead(fs[0]);
      if |t| < |w| {
        if |t| >= 2 {
          assert t == w[..|t|];
          PartialFrame(fs[0], t);
        } else if |t| == 1 {
          WholeFrame(fs[0], []);
          assert w + [] == w && t[0] == w[0];
        }
      } else {
        var u := t[|w|..];
        assert t == w + u && u <= Wires(fs[1..]);
        NonFinalSkipped(fs[0], u);
        NonFinalsUnfinished(fs[1..], u);
      }
    }
  }

  /** A first part of a message that does not reach into its final frame returns nothing and
      changes nothing. */
  lemma SafeWaits(m: seq<Frame>, t: bytes)
    requires Message(m) && IsStrictPrefix(t, Wires(m)) && Safe(m, |t|)
    ensures Parsing(t) == Nothing(t) && DrainWs(t) == Drained(None, [], t)
  {
    hide Wire, FrameLength;
    if |t| >= 2 {
      if |m| == 1 {
        assert Wires(m) == Wire(m[0]) by {
          Unfolded(m, [], []);
        }
        PartialFrame(m[0], t);
        FirstByteRead(m[0]);
        FramesUnfolded([], t, None, false);
        assert [] + t == t;
      } else {
        MessageFront(m);
        WiresSplit(m);
        assert t <= Wires(Front(m));
        NonFinalsUnfinished(Front(m), t);
      }
    }
  }

  // ---------- whole messages ----------

  lemma MessageDrained(m: seq<Frame>, r: bytes)
    requires Message(m)
    ensures DrainWs(Wires(m) + r) == After([PacketOfMessage(m)], DrainWs(r))
  {
    hide Parsing, Wires, Plains, PacketOf, Payloads;
    Reassembly(m, r);
    assert (Plains(m) + r)[|Plains(m)|..] == r;
  }

  ghost function PacketsOf(ms: seq<seq<Frame>>): (r: seq<Packet>)
    requires AllMessages(ms)
    ensures |r| == |ms|
  {
    if ms == [] then [] else [PacketOfMessage(ms[0])] + PacketsOf(ms[1..])
  }

  /** s, a first part of the stream, gave the packets of the messages whole in it, and the
      incomplete one is left, byte for byte. */
  ghost predicate Arrived(ms: seq<seq<Frame>>, s: bytes, d: Drained)
    requires AllMessages(ms)
  {
    && d.error == None
    && if ms != [] && |s| >= |Wires(ms[0])|
       then d.packets != [] && d.packets[0] == PacketOfMessage(ms[0])
            && Arrived(ms[1..], s[|Wires(ms[0])|..], Drained(None, d.packets[1..], d.rest))
       else d.packets == [] && d.rest == s
  }

  lemma {:induction false} PrefixDrains(ms: seq<seq<Frame>>, s: bytes)
    requires AllMessages(ms) && s <= Stream(ms) && SafeCut(ms, |s|)
    ensures Arrived(ms, s, DrainWs(s))
    decreases |ms|
  {
    hide DrainWs, Wires, PacketOfMessage, Safe;
    if ms == [] {
      assert s == [];
      NothingDrained();
    } else {
      var w := Wires(ms[0]);
      if |s| < |w| {
        assert s == w[..|s|];
        SafeWaits(ms[0], s);
      } else {
        var u := s[|w|..];
        assert s == w + u && u <= Stream(ms[1..]);
        MessageDrained(ms[0], u);
        PrefixDrains(ms[1..], u);
        assert DrainWs(s).packets[1..] == DrainWs(u).packets;
      }
    }
  }

  lemma NothingDrained()
    ensures DrainWs([]) == Drained(None, [], [])
  {
  }

  lemma CutAfter(a: bytes, b: bytes, w: bytes, r: bytes)
    requires a + b <= w + r && |a| >= |w|
    ensures a == w + a[|w|..] && a[|w|..] + b <= r && a + b == w + (a[|w|..] + b)
  {
    assert a == (a + b)[..|a|] && (a + b)[..|w|] == (w + r)[..|w|] == w;
    var u := a[|w|..];
    assert a == w + u;
    assert a + b == w + (u + b);
    assert u + b == (a + b)[|w|..];
  }

  /** Parsing a safe first part, then what it left with more of the stream, parses both. */
  lemma {:induction false} SafeSplit(ms: seq<seq<Frame>>, a: bytes, b: bytes)
    requires AllMessages(ms) && a + b <= Stream(ms) && SafeCut(ms, |a|)
    ensures var d := DrainWs(a);
            d.error == None && DrainWs(a + b) == After(d.packets, DrainWs(d.rest + b))
    decreases |ms|
  {
    hide DrainWs, Wires, PacketOfMessage, Safe;
    if ms == [] {
      assert a == [] && b == [] && a + b == [];
      NothingDrained();
    } else {
      var w := Wires(ms[0]);
      if |a| < |w| {
        assert a == (a + b)[..|a|] == Stream(ms)[..|a|] == w[..|a|];
        SafeWaits(ms[0], a);
        assert After([], DrainWs(a + b)) == DrainWs(a + b);
      } else {
        var u := a[|w|..];
        CutAfter(a, b, w, Stream(ms[1..]));
        MessageDrained(ms[0], u);
        MessageDrained(ms[0], u + b);
        SafeSplit(ms[1..], u, b);
        AfterAfter([PacketOfMessage(ms[0])], DrainWs(u).packets, DrainWs(DrainWs(u).rest + b));
      }
    }
  }

  lemma {:induction false} FeedFrom(ms: seq<seq<Frame>>, done: bytes, chunks: seq<bytes>)
    requires AllMessages(ms) && done + Concat(chunks) <= Stream(ms) && SafeDelivery(ms, |done|, chunks)
    ensures var d := DrainWs(done);
            After(d.packets, Feed(DrainWs, d.rest, chunks)) == DrainWs(done + Concat(chunks))
    decreases |chunks|
  {
    hide DrainWs, SafeCut, Stream;
    var d := DrainWs(done);
    if chunks == [] {
      assert done + [] == done;
      assert done <= Stream(ms);
      PrefixIsClean(ms, done);
    } else {
      var next := done + chunks[0];
      assert done + Concat(chunks) == next + Concat(chunks[1..]);
      assert next <= Stream(ms);
      SafeSplit(ms, done, chunks[0]);
      var e := DrainWs(d.rest + chunks[0]);
      PrefixIsClean(ms, next);
      FeedFrom(ms, next, chunks[1..]);
      AfterAfter(d.packets, e.packets, Feed(DrainWs, e.rest, chunks[1..]));
    }
  }

  lemma PrefixIsClean(ms: seq<seq<Frame>>, s: bytes)
    requires AllMessages(ms) && s <= Stream(ms) && SafeCut(ms, |s|)
    ensures DrainWs(s).error == None
  {
    PrefixDrains(ms, s);
  }

  /** Messages delivered in any pieces that do not split the final frame of a fragmented one:
      the packets, in order, and the leftover are those of one delivery. */
  lemma ChunkIndependence(ms: seq<seq<Frame>>, chunks: seq<bytes>)
    requires AllMessages(ms) && Concat(chunks) <= Stream(ms) && SafeDelivery(ms, 0, chunks)
    ensures Feed(DrainWs, [], chunks) == DrainWs(Concat(chunks))
    ensures Arrived(ms, Concat(chunks), Feed(DrainWs, [], chunks))
  {
    hide DrainWs, SafeCut, Stream;
    NothingDrained();
    assert [] + Concat(chunks) == Concat(chunks);
    FeedFrom(ms, [], chunks);
    assert After([], Feed(DrainWs, [], chunks)) == Feed(DrainWs, [], chunks);
    LastCutSafe(ms, 0, chunks);
    PrefixDrains(ms, Concat(chunks));
  }

  lemma {:induction false} LastCutSafe(ms: seq<seq<Frame>>, p: nat, chunks: seq<bytes>)
    requires AllMessages(ms) && SafeDelivery(ms, p, chunks)
    ensures SafeCut(ms, p + |Concat(chunks)|)
    decreases |chunks|
  {
    if chunks != [] {
      LastCutSafe(ms, p + |chunks[0]|, chunks[1..]);
    }
  }
}
