/** Conservation on the TCP send path, over every run of the controller: exactly when it holds,
    and the runs in which it does not. */
module TcpTheorems {
  import opened Bytes
  import opened Buffer
  import opened TcpController
  import opened TcpConservation
  import opened TcpStreams

  // ---------- conservation ----------

  /** Every byte is accounted for in every run. */
  lemma BytesCounted(t: seq<Step>)
    requires Runs(INIT, t)
    ensures var s := Final(INIT, t);
            && (BeforeReset(s.loop) ==>
                  |Unread(s.bufSend)| == Outstanding(s.senders) + if s.loop.Took? then s.loop.token else 0)
            && (BeforeReset(s.loop) && !s.failed ==>
                  |s.wire| + |InFlight(s)| + |Unread(s.bufSend)| == |Flatten(s.written)|)
            && |s.wire| <= |Flatten(s.written)|
            && multiset(s.written) == AllWrote(s.senders)
            && (s.failed && s.connected ==> s.loop == Exiting)
  {
    Reached(t);
  }

  /** Until Close resets the buffers, and while no write failed, the wire, the bytes in the
      loop's hands and the unread ones are all writes in their order, at every moment of a run,
      if and only if no SendBytes overwrote bytes in the loop's hands. Then the wire is a first
      part of the writes at the end of the run, also after a failure or a reset. */
  lemma BytesConserved(t: seq<Step>)
    requires Runs(INIT, t)
    ensures AlwaysInOrder(INIT, t) <==> NeverOverwrites(INIT, t)
    ensures NeverOverwrites(INIT, t) ==> InOrder(Final(INIT, t))
    ensures NeverOverwrites(INIT, t) ==> Final(INIT, t).wire <= Flatten(Final(INIT, t).written)
  {
    Starts();
    RunStreams(INIT, t);
  }

  lemma Starts()
    ensures Inv(INIT) && Streams(INIT)
  {
    assert INIT.wire + InFlight(INIT) + Unread(INIT.bufSend) == [];
  }

  /** No SendBytes writes while the loop is sending. */
  predicate NoWriteWhileSending(s: State, t: seq<Step>)
    requires Runs(s, t)
    decreases |t|
  {
    t != [] ==>
      && (t[0].OfSender? && t[0].sender.Write? ==> !s.loop.Sending?)
      && NoWriteWhileSending(Does(s, t[0]), t[1..])
  }

  /** Such runs conserve, whatever is written. */
  lemma {:induction false} QuietSendsConserve(s: State, t: seq<Step>)
    requires Runs(s, t) && NoWriteWhileSending(s, t)
    ensures NeverOverwrites(s, t)
    decreases |t|
  {
    hide Can, Does;
    if t != [] {
      QuietSendsConserve(Does(s, t[0]), t[1..]);
    }
  }

  /** The loop's exits for too few or no bytes are never taken for a token above 0. */
  lemma ShortNextUnreachable(t: seq<Step>)
    requires Runs(INIT, t) && Final(INIT, t).loop.Took?
    ensures var s := Final(INIT, t);
            && |Unread(s.bufSend)| >= s.loop.token
            && Taken(s, s.loop.token).loop ==
               if s.loop.token == 0 then Exiting
               else Sending(Shared(s.bufSend.off, s.bufSend.off + s.loop.token))
  {
    Reached(t);
    TakeCounted(Final(INIT, t));
  }

  // ---------- over time ----------

  lemma LoopGrows(s: State, e: LoopStep)
    requires LoopCan(s, e) && (s.connected ==> s.flag.open)
    ensures var n := LoopDoes(s, e);
            && s.wire <= n.wire && s.written == n.written
            && (n.wire != s.wire ==> s.connected && s.flag.open)
            && (n.connected ==> s.connected)
  {
    hide InFlight;
    match e
    case TestFlag => case TakeNext => case WriteSome(_) => case WriteFails(_) => case Handle(_) => case Notice =>
    case Exit => case TestClosing => case ResetBuffers => case CloseSend => case CloseClosed => case Wait =>
    case SetClosed => case Leave =>
  }

  lemma SenderGrows(s: State, i: nat, e: SenderStep)
    requires SenderCan(s, i, e)
    ensures var n := SenderDoes(s, i, e);
            && s.wire == n.wire && s.written <= n.written && n.connected == s.connected
  {
    hide WrittenTo, LoopAfter;
  }

  lemma ReaderGrows(s: State, e: ReaderStep)
    requires ReaderCan(s, e)
    ensures var n := ReaderDoes(s, e);
            && s.wire == n.wire && s.written == n.written && (n.connected ==> s.connected)
  {
    match e
    case Read => case RaiseFlag => case Determine => case Parsed => case Fail => case ExitAndNotify =>
  }

  lemma StepGrows(s: State, e: Step)
    requires Inv(s) && Can(s, e)
    ensures var n := Does(s, e);
            && s.wire <= n.wire && s.written <= n.written
            && (n.wire != s.wire ==> s.connected && s.flag.open)
            && (n.connected ==> s.connected)
  {
    assert s.connected ==> s.flag.open;
    match e
    case OfLoop(x) =>
      LoopGrows(s, x);
      hide Inv, LoopDoes;
    case OfSender(i, x) =>
      SenderGrows(s, i, x);
      hide Inv, SenderDoes;
    case OfReader(x) =>
      ReaderGrows(s, x);
      hide Inv, ReaderDoes;
    case _ => hide Inv;
  }

  lemma {:induction false} RunGrows(s: State, t: seq<Step>)
    requires Inv(s) && Runs(s, t)
    ensures var n := Final(s, t);
            && s.wire <= n.wire && s.written <= n.written
            && (!s.connected ==> n.wire == s.wire && !n.connected)
    decreases |t|
  {
    hide Inv, Can, Does;
    if t != [] {
      StepGrows(s, t[0]);
      StepKeeps(s, t[0]);
      RunGrows(Does(s, t[0]), t[1..]);
    }
  }

  lemma {:induction false} FlattenPrefix(a: seq<bytes>, b: seq<bytes>)
    requires a <= b
    ensures Flatten(a) <= Flatten(b)
    decreases |b|
  {
    if |a| < |b| {
      FlattenPrefix(a, b[..|b| - 1]);
    } else {
      assert a == b;
    }
  }

  /** What is on the wire stays there, and once the flag has left Opened, or the connection is
      closed, the wire is final. Unless a write overwrites, it is a first part of what all later
      writes add up to. */
  lemma WireOnlyGrows(t: seq<Step>, u: seq<Step>)
    requires Runs(INIT, t + u)
    ensures Runs(INIT, t)
    ensures var now, later := Final(INIT, t), Final(INIT, t + u);
            && now.wire <= later.wire && |later.wire| <= |Flatten(later.written)|
            && (!now.flag.open || !now.connected ==> later.wire == now.wire)
            && (NeverOverwrites(INIT, t + u) ==> now.wire <= later.wire <= Flatten(later.written))
  {
    RunSplit(INIT, t, u);
    Reached(t);
    Reached(t + u);
    RunGrows(Final(INIT, t), u);
    BytesConserved(t + u);
  }

  // ---------- overwritten bytes ----------

  /** An overwriting SendBytes and the loop's next complete conn.Write. */
  function OverwriteSteps(s: State, i: nat, capacity: nat): seq<Step> {
    [OfSender(i, Write(capacity)), OfLoop(WriteSome(|InFlight(s)|))]
  }

  lemma NoPrefix(a: bytes, b: bytes, c: bytes, u: bytes, wire: bytes, whole: bytes)
    requires |b| == |c| && b != c && a + c <= wire && a + b + u <= whole
    ensures !(wire <= whole)
  {
    var k :| 0 <= k < |b| && b[k] != c[k];
    assert (a + c)[|a| + k] == c[k] && (a + b + u)[|a| + k] == b[k];
  }

  /** After an overwriting write, and once the loop has sent what it holds, the wire is no first
      part of the writes any more, whatever happens later. */
  lemma OverwrittenForever(t: seq<Step>, i: nat, capacity: nat, later: seq<Step>)
    requires Runs(INIT, t) && NeverOverwrites(INIT, t)
    requires var s := Final(INIT, t);
             s.connected && SenderCan(s, i, Write(capacity)) && Overwriting(s, i)
    ensures var s := Final(INIT, t);
            var u := OverwriteSteps(s, i, capacity);
            && Runs(s, u)
            && (Runs(Final(s, u), later) ==>
                  var n := Final(Final(s, u), later); !(n.wire <= Flatten(n.written)))
  {
    hide Runs, Final, Can, Does, OverwriteSteps, AlwaysInOrder, NeverOverwrites, Inv, Overwriting, InFlight, Unread,
      Flatten, BeforeReset;
    assert i < |Final(INIT, t).senders|;
    hide SenderCan;
    Reached(t);
    BytesConserved(t);
    var s := Final(INIT, t);
    OverwriteSends(s, i, capacity);
    WrittenBytes(s, i, capacity);
    var b := Final(s, OverwriteSteps(s, i, capacity));
    if Runs(b, later) {
      NeverRight(s, b, s.senders[i].data, later);
    }
  }

  lemma NeverRight(s: State, b: State, data: bytes, later: seq<Step>)
    requires s.wire + InFlight(s) + Unread(s.bufSend) == Flatten(s.written)
    requires Inv(b) && Runs(b, later) && b.written == s.written + [data]
    requires s.wire <= b.wire && |b.wire| == |s.wire| + |InFlight(s)| && b.wire[|s.wire|..] != InFlight(s)
    ensures var n := Final(b, later); !(n.wire <= Flatten(n.written))
  {
    hide Inv, InFlight, Unread, Flatten, Runs, Final;
    var n := Final(b, later);
    RunGrows(b, later);
    FlattenPrefix(b.written, n.written);
    Appended([], s.written, data);
    NoPrefix(s.wire, InFlight(s), b.wire[|s.wire|..], Unread(s.bufSend), n.wire, Flatten(n.written));
  }

  lemma OverwriteSends(s: State, i: nat, capacity: nat)
    requires Inv(s) && s.connected && SenderCan(s, i, Write(capacity)) && Overwriting(s, i)
    ensures Runs(s, OverwriteSteps(s, i, capacity))
    ensures var n := Final(s, OverwriteSteps(s, i, capacity));
            && Inv(n) && n.written == s.written + [s.senders[i].data]
            && s.wire <= n.wire && |n.wire| == |s.wire| + |InFlight(s)| && n.wire[|s.wire|..] != InFlight(s)
  {
    hide Unread, Overwriting, SenderDoes, LoopDoes, SenderCan, Connection, Closes, Held;
    var e, n := OfSender(i, Write(capacity)), |InFlight(s)|;
    var a := Does(s, e);
    WriteHolds(s, i, capacity);
    WrittenBytes(s, i, capacity);
    StepKeeps(s, e);
    var w := WriteSome(n);
    assert LoopCan(a, w);
    SentBytes(a, w);
    StepKeeps(a, OfLoop(w));
    hide Inv, InFlight, LoopCan;
    TwoSteps(s, e, OfLoop(w));
    assert InFlight(a)[..n] == InFlight(a);
    assert Does(a, OfLoop(w)).wire[|s.wire|..] == InFlight(a);
  }

  lemma TwoSteps(s: State, e: Step, f: Step)
    requires Can(s, e) && Can(Does(s, e), f)
    ensures Runs(s, [e, f]) && Final(s, [e, f]) == Does(Does(s, e), f)
  {
    hide Can, Does;
    RunOne(Does(s, e), f);
    assert [e, f][1..] == [f];
  }

  // ---------- closing ----------

  /** When the loop takes the empty token of SendPacketsAndClose, as many bytes as were written
      so far are on the wire exactly if no other call stands between its Write and its token;
      unless a write overwrites, they are the bytes written. */
  lemma CloseCompleteIff(t: seq<Step>)
    requires Runs(INIT, t) && Final(INIT, t).loop == Took(0) && !Final(INIT, t).failed
    ensures var s := Final(INIT, t);
            && (|s.wire| == |Flatten(s.written)| <==> Outstanding(s.senders) == 0)
            && (NeverOverwrites(INIT, t) ==> (s.wire == Flatten(s.written) <==> Outstanding(s.senders) == 0))
  {
    Reached(t);
    BytesConserved(t);
    var s := Final(INIT, t);
    assert s.wire + [] + Unread(s.bufSend) == s.wire + Unread(s.bufSend);
  }

  /** After chClosed is closed nothing is sent on it, and after ControllerLeave every call
      still waiting to hand over its token has a way out, the recovered panic. */
  lemma NoSendOnClosed(t: seq<Step>)
    requires Runs(INIT, t)
    ensures var s := Final(INIT, t);
            && (s.closedClosed ==> s.notices == 0 && s.reader == Stopped)
            && s.leaves <= 1
            && (s.leaves == 1 ==>
                  forall i :: 0 <= i < |s.senders| && s.senders[i].Handing? ==> SenderCan(s, i, Panic))
  {
    Reached(t);
  }
}
