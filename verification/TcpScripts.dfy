/** Runs of the TCP controller that show what the send path does not promise. */
module TcpScripts {
  import opened Bytes
  import opened Buffer
  import opened TcpController
  import opened TcpConservation
  import opened TcpStreams
  import opened TcpTheorems

  // ---------- scripts ----------

  predicate Reaches(s: State, t: seq<Step>, n: State) {
    Runs(s, t) && Final(s, t) == n
  }

  lemma Then(s: State, t: seq<Step>, m: State, u: seq<Step>, n: State)
    requires Reaches(s, t, m) && Reaches(m, u, n)
    ensures Reaches(s, t + u, n)
  {
    RunJoin(s, t, u);
  }

  /** A SendBytes call up to its Write. */
  function WriteSteps(i: nat, data: bytes, capacity: nat): seq<Step> {
    [Call(data), OfSender(i, Check), OfSender(i, Write(capacity))]
  }

  /** The loop takes the token of a call. */
  function TakeSteps(i: nat): seq<Step> {
    [OfLoop(TestFlag), OfSender(i, HandOver), OfLoop(TakeNext)]
  }

  lemma SameLoopAfter(s: State, n: State, data: bytes)
    requires n.loop == s.loop && n.bufSend == s.bufSend
    ensures LoopAfter(n, data) == LoopAfter(s, data)
  {
    SameInFlight(s, n);
  }

  lemma Writes(s: State, data: bytes, capacity: nat)
    requires s.flag.open
    ensures Reaches(s, WriteSteps(|s.senders|, data, capacity),
                    s.(senders := s.senders + [Handing(data)], bufSend := WrittenTo(s.bufSend, data, capacity),
                       loop := LoopAfter(s, data), written := s.written + [data]))
  {
    hide WrittenTo, LoopAfter, InFlight;
    var i := |s.senders|;
    var a, b, c := Call(data), OfSender(i, Check), OfSender(i, Write(capacity));
    var s1 := Does(s, a);
    var s2 := Does(s1, b);
    assert s2.senders == s.senders + [Writing(data)];
    var s3 := Does(s2, c);
    assert s3.senders == s.senders + [Handing(data)];
    SameLoopAfter(s, s2, data);
    hide Does, Can;
    TwoSteps(s1, b, c);
    assert [a, b, c][1..] == [b, c];
  }

  lemma Takes(s: State, i: nat)
    requires s.flag.open && s.loop == Testing && !s.sendClosed && i < |s.senders| && s.senders[i].Handing?
    ensures var d := s.senders[i].data;
            Reaches(s, TakeSteps(i), Taken(s.(senders := s.senders[i := Sent(d)], loop := Took(|d|)), |d|))
  {
    hide Taken;
    var a, b, c := OfLoop(TestFlag), OfSender(i, HandOver), OfLoop(TakeNext);
    var s1 := Does(s, a);
    var s2 := Does(s1, b);
    assert s2 == s.(senders := s.senders[i := Sent(s.senders[i].data)], loop := Took(|s.senders[i].data|));
    assert Can(s2, c) && Does(s2, c) == Taken(s2, |s.senders[i].data|);
    hide Does, Can;
    TwoSteps(s1, b, c);
    assert [a, b, c][1..] == [b, c];
  }

  /** The loop takes a token and sends that many bytes at once, or exits for an empty token. */
  function SendSteps(i: nat, n: nat): seq<Step> {
    TakeSteps(i) + [OfLoop(if n == 0 then Exit else WriteSome(n))]
  }

  lemma Sends(s: State, i: nat)
    requires s.flag.open && s.connected && s.loop == Testing && !s.sendClosed
    requires i < |s.senders| && s.senders[i].Handing? && |s.senders[i].data| <= |Unread(s.bufSend)|
    ensures var n, st := |s.senders[i].data|, s.bufSend;
            Reaches(s, SendSteps(i, n),
                    s.(senders := s.senders[i := Sent(s.senders[i].data)], connected := n > 0,
                       bufSend := Block(st.cells, st.off + n, st.end), wire := s.wire + Unread(st)[..n]))
  {
    var d, n := s.senders[i].data, |s.senders[i].data|;
    var took := s.(senders := s.senders[i := Sent(d)], loop := Took(n));
    Takes(s, i);
    TakenBytes(took);
    var held, e := Taken(took, n), if n == 0 then Exit else WriteSome(n);
    assert InFlight(held)[..n] == InFlight(held) && s.wire + [] == s.wire;
    assert LoopCan(held, e);
    RunOne(held, OfLoop(e));
    Then(s, TakeSteps(i), held, [OfLoop(e)], Does(held, OfLoop(e)));
  }

  lemma UnreadAfter(st: Storage, n: nat)
    requires n <= |Unread(st)|
    ensures Unread(Block(st.cells, st.off + n, st.end)) == Unread(st)[n..]
  {
  }

  /** A call up to its Write, while the loop sends nothing. */
  function AfterWrite(s: State, data: bytes, capacity: nat): State {
    s.(senders := s.senders + [Handing(data)], bufSend := WrittenTo(s.bufSend, data, capacity),
       written := s.written + [data])
  }

  lemma QuietWrite(s: State, data: bytes, capacity: nat)
    requires s.flag.open && !s.loop.Sending?
    ensures Reaches(s, WriteSteps(|s.senders|, data, capacity), AfterWrite(s, data, capacity))
    ensures Unread(AfterWrite(s, data, capacity).bufSend) == Unread(s.bufSend) + data
  {
    Writes(s, data, capacity);
    WriteAppends(s.bufSend, data, capacity);
  }

  function AfterSend(s: State, i: nat): State
    requires i < |s.senders| && |s.senders[i].data| <= |Unread(s.bufSend)|
  {
    var n, st := |s.senders[i].data|, s.bufSend;
    s.(senders := s.senders[i := Sent(s.senders[i].data)], connected := n > 0,
       bufSend := Block(st.cells, st.off + n, st.end), wire := s.wire + Unread(st)[..n])
  }

  // ---------- overtaking ----------

  function TwoWritten(x: bytes, y: bytes, c: nat, d: nat): State {
    var s2 := AfterWrite(AfterWrite(INIT, x, c), y, d);
    if |y| <= |Unread(s2.bufSend)| then AfterSend(s2, 1) else s2
  }

  lemma TwoWrites(x: bytes, y: bytes, c: nat, d: nat)
    requires y != []
    ensures var s := TwoWritten(x, y, c, d);
            && Reaches(INIT, WriteSteps(0, x, c) + WriteSteps(1, y, d) + SendSteps(1, |y|), s)
            && s.flag.open && s.connected && s.loop == Testing && !s.sendClosed
            && s.wire == (x + y)[..|y|] && Unread(s.bufSend) == (x + y)[|y|..]
            && s.senders == [Handing(x), Sent(y)]
  {
    var s2 := AfterWrite(AfterWrite(INIT, x, c), y, d);
    BothWrite(x, y, c, d);
    hide Can, Does, Reaches, Runs, Final, WriteSteps, SendSteps, AfterWrite, Unread;
    Sends(s2, 1);
    UnreadAfter(s2.bufSend, |y|);
    assert [Handing(x), Handing(y)][1 := Sent(y)] == [Handing(x), Sent(y)];
    Then(INIT, WriteSteps(0, x, c) + WriteSteps(1, y, d), s2, SendSteps(1, |y|), AfterSend(s2, 1));
  }

  lemma BothWrite(x: bytes, y: bytes, c: nat, d: nat)
    ensures var s := AfterWrite(AfterWrite(INIT, x, c), y, d);
            && Reaches(INIT, WriteSteps(0, x, c) + WriteSteps(1, y, d), s)
            && Unread(s.bufSend) == x + y && s.senders == [Handing(x), Handing(y)]
            && s.flag.open && s.connected && s.loop == Testing && !s.sendClosed && s.wire == []
  {
    hide Reaches, WriteSteps, WrittenTo, Can, Does;
    TwoQuiet(INIT, x, y, c, d);
    assert [] + x == x;
  }

  lemma TwoQuiet(s: State, x: bytes, y: bytes, c: nat, d: nat)
    requires s.flag.open && !s.loop.Sending?
    ensures var i, n := |s.senders|, AfterWrite(AfterWrite(s, x, c), y, d);
            && Reaches(s, WriteSteps(i, x, c) + WriteSteps(i + 1, y, d), n)
            && Unread(n.bufSend) == Unread(s.bufSend) + x + y
  {
    hide Reaches, WriteSteps, WrittenTo;
    var i, m := |s.senders|, AfterWrite(s, x, c);
    QuietWrite(s, x, c);
    QuietWrite(m, y, d);
    Then(s, WriteSteps(i, x, c), m, WriteSteps(i + 1, y, d), AfterWrite(m, y, d));
  }

  /** An empty call closes the connection. */
  function AfterClose(s: State): State {
    var n := AfterWrite(s, [], 0);
    n.(senders := s.senders + [Sent([])], connected := false)
  }

  lemma Closing(s: State)
    requires s.flag.open && s.connected && s.loop == Testing && !s.sendClosed
    ensures var i := |s.senders|;
            Reaches(s, WriteSteps(i, [], 0) + SendSteps(i, 0), AfterClose(s))
    ensures var n := AfterClose(s);
            n.wire == s.wire && Unread(n.bufSend) == Unread(s.bufSend) && n.senders == s.senders + [Sent([])]
            && !n.connected
  {
    var i, n := |s.senders|, AfterWrite(s, [], 0);
    QuietWrite(s, [], 0);
    hide Reaches, Runs, Final, Can, Does, WriteSteps, SendSteps, WrittenTo;
    Sends(n, i);
    assert n.wire + Unread(n.bufSend)[..0] == s.wire && n.senders[i := Sent([])] == s.senders + [Sent([])];
    Then(s, WriteSteps(i, [], 0), n, SendSteps(i, 0), AfterClose(s));
  }

  /** The steps of two calls that write, of which the second sends and closes. */
  function OvertakingRun(x: bytes, y: bytes, c: nat, d: nat): seq<Step> {
    WriteSteps(0, x, c) + WriteSteps(1, y, d) + SendSteps(1, |y|) + (WriteSteps(2, [], 0) + SendSteps(2, 0))
  }

  lemma Overtakes(x: bytes, y: bytes, c: nat, d: nat)
    requires y != []
    ensures Reaches(INIT, OvertakingRun(x, y, c, d), AfterClose(TwoWritten(x, y, c, d)))
    ensures var s := AfterClose(TwoWritten(x, y, c, d));
            && s.wire == (x + y)[..|y|] && !s.connected && Unread(s.bufSend) == (x + y)[|y|..]
            && s.senders == [Handing(x), Sent(y), Sent([])]
  {
    var s3 := TwoWritten(x, y, c, d);
    TwoWrites(x, y, c, d);
    hide Reaches, WriteSteps, SendSteps, TwoWritten, AfterClose, Unread;
    Closing(s3);
    Then(INIT, WriteSteps(0, x, c) + WriteSteps(1, y, d) + SendSteps(1, |y|), s3,
         WriteSteps(2, [], 0) + SendSteps(2, 0), AfterClose(s3));
  }

  /** One call has written x but not handed over its token when another one writes y and closes:
      the token of y takes the first bytes of both, and the connection is closed with the rest
      unsent, although the closing calls return true. */
  lemma CloseOvertakes(x: bytes, y: bytes, c: nat, d: nat)
    requires y != []
    ensures Runs(INIT, OvertakingRun(x, y, c, d))
    ensures var s := Final(INIT, OvertakingRun(x, y, c, d));
            && s.wire == (x + y)[..|y|] && !s.connected && Unread(s.bufSend) == (x + y)[|y|..]
            && s.senders == [Handing(x), Sent(y), Sent([])]
  {
    hide Reaches, TwoWritten, AfterClose, Unread, OvertakingRun, Runs, Final;
    Overtakes(x, y, c, d);
    ReachesEnd(INIT, OvertakingRun(x, y, c, d), AfterClose(TwoWritten(x, y, c, d)));
  }

  lemma ReachesEnd(s: State, t: seq<Step>, n: State)
    requires Reaches(s, t, n)
    ensures Runs(s, t) && Final(s, t) == n
  {
  }

  // ---------- overwriting ----------

  /** The loop holds x, all that the array of 64 cells had unread. */
  function Holding(x: bytes): State
    requires |x| <= 64
  {
    INIT.(senders := [Sent(x)], bufSend := Block(x + Zeros(64 - |x|), |x|, |x|),
          loop := Sending(Shared(0, |x|)), written := [x])
  }

  /** After y was written and the loop sent the cells it holds. */
  function Resent(x: bytes, y: bytes): State
    requires |x| <= 64
  {
    Holding(x).(senders := [Sent(x), Handing(y)], bufSend := WrittenTo(Holding(x).bufSend, y, 0),
                loop := Testing, written := [x, y], wire := y)
  }

  lemma Holds(x: bytes)
    requires 0 < |x| <= 64
    ensures Reaches(INIT, WriteSteps(0, x, 64) + TakeSteps(0), Holding(x))
  {
    var s1 := AfterWrite(INIT, x, 64);
    QuietWrite(INIT, x, 64);
    FirstArray(x);
    Takes(s1, 0);
    assert s1.senders == [Handing(x)] && s1.written == [x] && s1.senders[0 := Sent(x)] == [Sent(x)];
    hide Reaches, WriteSteps, TakeSteps, WrittenTo, Zeros;
    Then(INIT, WriteSteps(0, x, 64), s1, TakeSteps(0), Holding(x));
  }

  lemma Resends(x: bytes, y: bytes)
    requires 32 < |x| == |y| <= 64
    ensures Reaches(Holding(x), WriteSteps(1, y, 0) + [OfLoop(WriteSome(|x|))], Resent(x, y))
    ensures Unread(Resent(x, y).bufSend) == y
  {
    var s, n := Holding(x), |x|;
    Writes(s, y, 0);
    Reused(Block(s.bufSend.cells, 0, n), x, y);
    var held := Resent(x, y).(loop := s.loop, wire := []);
    assert s.senders + [Handing(y)] == [Sent(x), Handing(y)] && s.written + [y] == [x, y];
    assert Reaches(s, WriteSteps(1, y, 0), held) && InFlight(held) == y;
    assert [] + y == y && y[..n] == y;
    hide Reaches, WriteSteps, WrittenTo;
    ReachesOne(held, OfLoop(WriteSome(n)));
    assert Does(held, OfLoop(WriteSome(n))) == Resent(x, y);
    Then(s, WriteSteps(1, y, 0), held, [OfLoop(WriteSome(n))], Resent(x, y));
  }

  lemma ReachesOne(s: State, e: Step)
    requires Can(s, e)
    ensures Reaches(s, [e], Does(s, e))
  {
    RunOne(s, e);
  }

  /** The steps of two calls of which the second writes while the loop sends the first. */
  function OverwritingRun(x: bytes, y: bytes): seq<Step> {
    WriteSteps(0, x, 64) + TakeSteps(0) + (WriteSteps(1, y, 0) + [OfLoop(WriteSome(|x|))] + SendSteps(1, |y|))
  }

  /** x is still in the loop's hands when y is written. Both fit the array, but not behind each
      other, so y is put where x lies: the wire gets y twice, and x never. */
  lemma Overwritten(x: bytes, y: bytes)
    requires 32 < |x| == |y| <= 64
    ensures Runs(INIT, OverwritingRun(x, y))
    ensures var s := Final(INIT, OverwritingRun(x, y));
            && s.wire == y + y && s.written == [x, y] && s.senders == [Sent(x), Sent(y)]
            && s.connected && !s.failed && s.loop == Testing && Unread(s.bufSend) == []
  {
    Holds(x);
    Resends(x, y);
    hide Reaches, Unread, Runs, Final, WrittenTo, Can, Does, WriteSteps, TakeSteps, SendSteps;
    var s := Resent(x, y);
    var n := AfterSend(s, 1);
    Sends(s, 1);
    UnreadAfter(s.bufSend, |y|);
    assert y[..|y|] == y && y[|y|..] == [] && n.senders == [Sent(x), Sent(y)];
    var u := WriteSteps(1, y, 0) + [OfLoop(WriteSome(|x|))];
    Then(Holding(x), u, s, SendSteps(1, |y|), n);
    Then(INIT, WriteSteps(0, x, 64) + TakeSteps(0), Holding(x), u + SendSteps(1, |y|), n);
    ReachesEnd(INIT, OverwritingRun(x, y), n);
  }

  lemma FirstArray(x: bytes)
    requires 0 < |x| <= 64
    ensures WrittenTo(EMPTY, x, 64) == Block(x + Zeros(64 - |x|), 0, |x|)
  {
    assert [] + x == x;
  }

  /** An array of 64 cells whose bytes are all read is written from its front. */
  lemma Reused(st: Storage, x: bytes, y: bytes)
    requires 32 < |x| == |y| <= 64 && st == Block(x + Zeros(64 - |x|), 0, |x|)
    ensures var n := |x|;
            var after := WrittenTo(Block(st.cells, n, n), y, 0);
            && RoomFor(Block(st.cells, n, n), n) == Front
            && after.off == 0 && after.end == n && |after.cells| == 64 && after.cells[0..n] == y
  {
    assert [] + y == y;
  }
}
