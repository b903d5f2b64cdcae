/** The process loop's handling of one token (tcp/controller.go), as it is written: take a range
    of bufSend's array and write it, reslicing what a short write leaves, while other calls write
    to the same buffer and the connection may be closed. It is a run of the machine's steps. */
module TcpSendLoop {
  import opened Bytes
  import opened Buffer
  import opened TcpController
  import opened TcpConservation

  /** What happens next: the connection answers a Write of the loop, or its SetWriteDeadline, or
      a call that has passed its check writes to bufSend, or the connection is closed. */
  datatype Event = Accepts(n: nat) | Fails(n: nat) | Sends(i: nat, data: bytes) | Loses

  /** A closed connection accepts nothing, and a call writes what it was given, once. */
  predicate Possible(senders: seq<Sender>, connected: bool, events: seq<Event>)
    decreases |events|
  {
    events == [] ||
    match events[0]
    case Accepts(_) => connected && Possible(senders, connected, events[1..])
    case Fails(n) => connected || n == 0
    case Sends(i, data) =>
      && i < |senders| && senders[i] == Writing(data)
      && Possible(senders[i := Handing(data)], connected, events[1..])
    case Loses => Possible(senders, false, events[1..])
  }

  function Min(a: nat, b: nat): nat {
    if a < b then a else b
  }

  /** The loop holds the range lo..hi of an array, bufSend's or one that it has given up. */
  ghost predicate Holding(s: State, bufSend: StandardBuffer, a: array<byte>, lo: nat, hi: nat)
    reads bufSend, bufSend.buf, a
  {
    && bufSend.Valid() && s.bufSend == bufSend.Backing() && lo < hi <= a.Length
    && s.loop == Sending(if a == bufSend.buf then Shared(lo, hi) else Own(a[lo..hi]))
  }

  lemma HeldBytes(s: State, bufSend: StandardBuffer, a: array<byte>, lo: nat, hi: nat)
    requires Holding(s, bufSend, a, lo, hi)
    ensures InFlight(s) == a[lo..hi]
  {
  }

  /** The run so far, by its last state. */
  predicate Led(s: State, run: seq<Step>, now: State) {
    Runs(s, run) && Final(s, run) == now
  }

  lemma LedNowhere(s: State)
    ensures Led(s, [], s)
  {
  }

  lemma LedOn(s: State, run: seq<Step>, now: State, e: Step)
    requires Led(s, run, now) && Can(now, e)
    ensures Led(s, run + [e], Does(now, e))
  {
    RunOne(now, e);
    RunJoin(s, run, [e]);
  }

  /** Only the loop sends, only other calls write, and the connection may be lost. */
  predicate SendingStep(e: Step) {
    match e
    case OfLoop(x) => x == TakeNext || x.WriteSome? || x.WriteFails?
    case OfSender(_, x) => x.Write?
    case Lost => true
    case _ => false
  }

  // ---------- one event ----------

  lemma WriteUnder(s: State, i: nat, data: bytes, capacity: nat)
    requires s.loop.Sending? && i < |s.senders| && s.senders[i] == Writing(data)
    ensures var n := SenderDoes(s, i, Write(capacity));
            && n.bufSend == WrittenTo(s.bufSend, data, capacity) && n.wire == s.wire && n.connected == s.connected
            && n.senders == s.senders[i := Handing(data)]
            && n.loop == if RoomFor(s.bufSend, |data|) == Fresh then Sending(Own(InFlight(s))) else s.loop
  {
    hide WrittenTo, InFlight;
  }

  lemma LoopSends(s: State, e: LoopStep)
    requires LoopCan(s, e) && (e.WriteSome? || e.WriteFails?)
    ensures var n := LoopDoes(s, e);
            && n.bufSend == s.bufSend && n.wire == s.wire + InFlight(s)[..e.n]
            && n.connected == s.connected && n.senders == s.senders
            && n.loop == if e.WriteFails? then Exiting
                         else if e.n < |InFlight(s)| then Sending(Advanced(s.loop.slice, e.n)) else Testing
  {
    hide InFlight;
  }

  /** Another call's write, with the range held. */
  method SendUnder(ghost s: State, bufSend: StandardBuffer, a: array<byte>, lo: nat, hi: nat, i: nat, data: bytes)
    returns (ghost step: Step, ghost now: State)
    requires Holding(s, bufSend, a, lo, hi) && i < |s.senders| && s.senders[i] == Writing(data)
    modifies bufSend, bufSend.buf
    ensures bufSend.buf == old(bufSend.buf) || fresh(bufSend.buf)
    ensures Can(s, step) && Does(s, step) == now && SendingStep(step)
    ensures Holding(now, bufSend, a, lo, hi)
    ensures now.senders == s.senders[i := Handing(data)] && now.wire == s.wire && now.connected == s.connected
  {
    hide WrittenTo, InFlight, SenderDoes, Copied;
    HeldBytes(s, bufSend, a, lo, hi);
    var written := bufSend.Write(data);
    step := OfSender(i, Write(bufSend.buf.Length));
    WriteUnder(s, i, data, bufSend.buf.Length);
    now := Does(s, step);
  }

  /** A Write of the loop: n bytes of the range are accepted, with an error or without. */
  lemma LoopSendsRange(s: State, bufSend: StandardBuffer, a: array<byte>, lo: nat, hi: nat, n: nat, fails: bool)
    requires Holding(s, bufSend, a, lo, hi) && n <= hi - lo && (s.connected || (fails && n == 0))
    ensures var step := if fails then WriteFails(n) else WriteSome(n);
            && LoopCan(s, step)
            && var now := LoopDoes(s, step);
               now.wire == s.wire + a[lo..lo + n] && now.bufSend == s.bufSend && now.senders == s.senders
               && now.connected == s.connected
               && (fails ==> now.loop == Exiting) && (!fails && lo + n == hi ==> now.loop == Testing)
               && (!fails && lo + n < hi ==> Holding(now, bufSend, a, lo + n, hi))
  {
    hide InFlight, LoopDoes;
    HeldBytes(s, bufSend, a, lo, hi);
    assert a[lo..hi][..n] == a[lo..lo + n] && a[lo..hi][n..] == a[lo + n..hi];
    LoopSends(s, if fails then WriteFails(n) else WriteSome(n));
  }

  function Disconnected(s: State): State {
    s.(connected := false)
  }

  /** One event; `sent` is what the connection accepted. */
  method OneEvent(ghost s: State, bufSend: StandardBuffer, a: array<byte>, lo: nat, hi: nat, ghost events: seq<Event>,
                  e: Event)
    returns (sent: bytes, ghost step: Step, ghost now: State)
    requires Holding(s, bufSend, a, lo, hi)
    requires events != [] && events[0] == e && Possible(s.senders, s.connected, events)
    modifies bufSend, bufSend.buf
    ensures bufSend.Valid() && now.bufSend == bufSend.Backing()
    ensures bufSend.buf == old(bufSend.buf) || fresh(bufSend.buf)
    ensures Can(s, step) && Does(s, step) == now && SendingStep(step)
    ensures |sent| <= hi - lo && now.wire == s.wire + sent
    ensures if e.Fails? then now.loop == Exiting
            else
              && Possible(now.senders, now.connected, events[1..])
              && if lo + |sent| == hi then now.loop == Testing else Holding(now, bufSend, a, lo + |sent|, hi)
  {
    hide InFlight, LoopCan, LoopDoes, SenderDoes;
    sent := [];
    assert s.wire + [] == s.wire;
    match e {
      case Sends(i, data) =>
        step, now := SendUnder(s, bufSend, a, lo, hi, i, data);
      case Loses =>
        step, now := Lost, Disconnected(s);
      case _ =>
        var n := Min(e.n, hi - lo);
        LoopSendsRange(s, bufSend, a, lo, hi, n, e.Fails?);
        step := OfLoop(if e.Fails? then WriteFails(n) else WriteSome(n));
        now := LoopDoes(s, step.loop);
        sent := a[lo..lo + n];
    }
  }

  /** The write loop; `run` is what it and the others did. */
  method WriteConn(ghost s: State, bufSend: StandardBuffer, a: array<byte>, from: nat, to: nat, events: seq<Event>)
    returns (exit: bool, sent: bytes, ghost run: seq<Step>, ghost now: State)
    requires Holding(s, bufSend, a, from, to) && a == bufSend.buf && Possible(s.senders, s.connected, events)
    modifies bufSend, bufSend.buf
    ensures bufSend.Valid() && now.bufSend == bufSend.Backing()
    ensures Led(s, run, now) && forall e :: e in run ==> SendingStep(e)
    ensures now.wire == s.wire + sent && |sent| <= to - from
    ensures exit <==> now.loop == Exiting
    ensures |sent| == to - from && !exit ==> now.loop == Testing
  {
    hide Led, Does, Can, Possible, SendingStep;
    sent, run, now := [], [], s;
    LedNowhere(s);
    var lo, k := from, 0;
    while k < |events|
      invariant k <= |events| && from <= lo < to && |sent| == lo - from
      invariant bufSend.buf == old(bufSend.buf) || fresh(bufSend.buf)
      invariant Holding(now, bufSend, a, lo, to)
      invariant Possible(now.senders, now.connected, events[k..])
      invariant Led(s, run, now) && forall e :: e in run ==> SendingStep(e)
      invariant now.wire == s.wire + sent
    {
      assert events[k..][1..] == events[k + 1..];
      ghost var was := now;
      ghost var step;
      var accepted;
      accepted, step, now := OneEvent(was, bufSend, a, lo, to, events[k..], events[k]);
      LedOn(s, run, was, step);
      run := run + [step];
      sent, lo := sent + accepted, lo + |accepted|;
      if events[k].Fails? {
        return true, sent, run, now;
      }
      if lo == to {
        return false, sent, run, now;
      }
      k := k + 1;
    }
    exit := false;
  }

  /** One token: `exit` says that the loop calls Exit next. The bytes are the range of bufSend's
      array that Next returned, and what is sent is what the range holds at that moment. */
  method SendToken(ghost s: State, bufSend: StandardBuffer, isentBytes: nat, events: seq<Event>)
    returns (exit: bool, sent: bytes, ghost run: seq<Step>, ghost now: State)
    requires bufSend.Valid() && s.bufSend == bufSend.Backing() && s.loop == Took(isentBytes)
    requires Possible(s.senders, s.connected, events)
    modifies bufSend, bufSend.buf
    ensures bufSend.Valid() && now.bufSend == bufSend.Backing()
    ensures Led(s, run, now) && forall e :: e in run ==> SendingStep(e)
    ensures now.wire == s.wire + sent && (exit <==> now.loop == Exiting)
  {
    ghost var took := Taken(s, isentBytes);
    TakeLed(s, isentBytes);
    hide Led, Taken, Possible, Copied;
    sent, run, now := [], [OfLoop(TakeNext)], took;
    assert s.wire + [] == s.wire;
    if isentBytes <= 0 {
      return true, sent, run, now;
    }
    var sentBytes, n := bufSend.Next(isentBytes);
    if n != isentBytes {
      return true, sent, run, now;
    }
    if |sentBytes| == 0 {
      return true, sent, run, now;
    }
    ghost var more;
    exit, sent, more, now := WriteConn(took, bufSend, bufSend.buf, bufSend.off - n, bufSend.off, events);
    LedAfter(s, run, took, more, now);
    run := run + more;
  }

  lemma TakeLed(s: State, token: nat)
    requires s.loop == Took(token)
    ensures Led(s, [OfLoop(TakeNext)], Taken(s, token))
    ensures var n, st := Taken(s, token), s.bufSend;
            var k := Min(token, st.end - st.off);
            && n.wire == s.wire && n.senders == s.senders && n.connected == s.connected
            && n.bufSend == Block(st.cells, st.off + k, st.end)
            && n.loop == if token == 0 || k != token then Exiting else Sending(Shared(st.off, st.off + k))
  {
    RunOne(s, OfLoop(TakeNext));
    if token == 0 {
      return;
    }
  }

  lemma LedAfter(s: State, run: seq<Step>, now: State, more: seq<Step>, next: State)
    requires Led(s, run, now) && Led(now, more, next)
    ensures Led(s, run + more, next)
  {
    RunJoin(s, run, more);
  }
}
