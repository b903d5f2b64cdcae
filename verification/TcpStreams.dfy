/** When the wire carries the writes of all SendBytes calls in their order. The loop sends a range
    of bufSend's own array, which a concurrent write may overwrite. */
module TcpStreams {
  import opened Bytes
  import opened Buffer
  import opened TcpController
  import opened TcpConservation

  // ---------- in order ----------

  /** Before the reset, and while no write failed, the wire, the bytes in the loop's hands and
      the unread ones are everything that was written. */
  predicate InOrder(s: State) {
    BeforeReset(s.loop) && !s.failed ==> s.wire + InFlight(s) + Unread(s.bufSend) == Flatten(s.written)
  }

  predicate Streams(s: State) {
    InOrder(s) && s.wire <= Flatten(s.written)
  }

  /** This step overwrites bytes the loop is about to send. */
  predicate OverwritingStep(s: State, e: Step) {
    e.OfSender? && e.sender.Write? && e.i < |s.senders| && Overwriting(s, e.i)
  }

  predicate NeverOverwrites(s: State, t: seq<Step>)
    requires Runs(s, t)
    decreases |t|
  {
    t != [] ==> !OverwritingStep(s, t[0]) && NeverOverwrites(Does(s, t[0]), t[1..])
  }

  predicate AlwaysInOrder(s: State, t: seq<Step>)
    requires Runs(s, t)
    decreases |t|
  {
    InOrder(s) && (t != [] ==> AlwaysInOrder(Does(s, t[0]), t[1..]))
  }

  // ---------- what a step does to the bytes ----------

  lemma Moved(a: bytes, b: bytes, c: bytes, n: nat)
    requires n <= |b|
    ensures (a + b[..n]) + b[n..] + c == a + b + c
    ensures a + b[..n] <= a + b + c
  {
    assert b == b[..n] + b[n..];
  }

  /** Replacing the bytes in the middle by others of the same number makes another string. */
  lemma OtherMiddle(a: bytes, b: bytes, c: bytes, d: bytes, e: bytes)
    requires |b| == |c|
    ensures a + b + d + e == a + c + (d + e) <==> b == c
  {
    var left, right := a + b + d + e, a + c + (d + e);
    assert b == left[|a|..|a| + |b|] && c == right[|a|..|a| + |b|];
    assert left == a + b + (d + e);
  }

  lemma Halves(cells: bytes, lo: nat, hi: nat, k: nat)
    requires lo + k <= hi <= |cells|
    ensures cells[lo..hi][..k] == cells[lo..lo + k] && cells[lo..hi][k..] == cells[lo + k..hi]
  {
  }

  lemma TakenBytes(s: State)
    requires s.loop.Took? && s.loop.token <= |Unread(s.bufSend)|
    ensures var n, u := Taken(s, s.loop.token), Unread(s.bufSend);
            && InFlight(n) == u[..s.loop.token] && Unread(n.bufSend) == u[s.loop.token..]
            && n.wire == s.wire && n.written == s.written && n.failed == s.failed && Early(n.loop)
  {
    var st, k := s.bufSend, s.loop.token;
    Halves(st.cells, st.off, st.end, k);
    if k == 0 {
      return;
    }
  }

  lemma SentBytes(s: State, e: LoopStep)
    requires Held(s) && LoopCan(s, e) && (e.WriteSome? || e.WriteFails?)
    ensures e.n <= |InFlight(s)|
    ensures var n := LoopDoes(s, e);
            && n.wire == s.wire + InFlight(s)[..e.n] && n.bufSend == s.bufSend && n.written == s.written
            && Early(s.loop) && Early(n.loop)
            && (e.WriteSome? ==> InFlight(n) == InFlight(s)[e.n..] && n.failed == s.failed)
            && (e.WriteFails? ==> n.failed)
            && (e.n > 0 || e.WriteSome? ==> s.connected)
  {
  }

  lemma OtherBytes(s: State, e: LoopStep)
    requires LoopCan(s, e) && e != TakeNext && !e.WriteSome? && !e.WriteFails?
    ensures var n := LoopDoes(s, e); n.wire == s.wire && n.written == s.written && n.failed == s.failed
  {
    match e
    case TestFlag => case Handle(_) => case Notice => case Exit =>
    case TestClosing => case ResetBuffers => case CloseSend => case CloseClosed =>
    case Wait => case SetClosed => case Leave =>
  }

  lemma OtherLoop(s: State, e: LoopStep)
    requires LoopCan(s, e) && e != TakeNext && !e.WriteSome? && !e.WriteFails?
    ensures var n := LoopDoes(s, e);
            && !s.loop.Sending? && !n.loop.Sending?
            && (BeforeReset(n.loop) ==> BeforeReset(s.loop) && n.bufSend == s.bufSend)
  {
    match e
    case TestFlag => case Handle(_) => case Notice => case Exit =>
    case TestClosing => case ResetBuffers => case CloseSend => case CloseClosed =>
    case Wait => case SetClosed => case Leave =>
  }

  lemma NothingHeld(s: State)
    ensures !s.loop.Sending? ==> InFlight(s) == []
  {
  }

  lemma WrittenBytes(s: State, i: nat, capacity: nat)
    requires SenderCan(s, i, Write(capacity))
    ensures var n := SenderDoes(s, i, Write(capacity));
            && n.wire == s.wire && n.written == s.written + [s.senders[i].data] && n.failed == s.failed
            && n.connected == s.connected && BeforeReset(n.loop) == BeforeReset(s.loop)
            && (s.loop.Sending? ==> n.loop.Sending?)
            && (Overwriting(s, i) ==> s.loop.Sending? && BeforeReset(s.loop) && !s.failed)
  {
    hide Overwrites, WrittenTo;
  }

  // ---------- every step ----------

  lemma WriteStreams(s: State, i: nat, capacity: nat)
    requires Inv(s) && Streams(s) && SenderCan(s, i, Write(capacity))
    ensures var n := SenderDoes(s, i, Write(capacity));
            if Overwriting(s, i) then !InOrder(n) else Streams(n)
  {
    assert Held(s);
    WriteHolds(s, i, capacity);
    WrittenBytes(s, i, capacity);
    Appended([], s.written, s.senders[i].data);
    hide Flatten, Unread, InFlight, Overwriting, BeforeReset, SenderDoes, SenderCan, Inv, Held;
    var n := SenderDoes(s, i, Write(capacity));
    OtherMiddle(s.wire, InFlight(s), InFlight(n), Unread(s.bufSend), s.senders[i].data);
  }

  lemma OtherStreams(s: State, i: nat, e: SenderStep)
    requires Streams(s) && SenderCan(s, i, e) && !e.Write?
    ensures Streams(SenderDoes(s, i, e))
  {
    hide Flatten, Unread;
  }

  lemma TakeStreams(s: State)
    requires Inv(s) && Streams(s) && s.loop.Took?
    ensures Streams(Taken(s, s.loop.token))
  {
    TakeCounted(s);
    TakenBytes(s);
    assert InFlight(s) == [];
    hide Flatten, Inv, InFlight, Unread, Taken;
    var u, n := Unread(s.bufSend), s.loop.token;
    assert s.wire + [] == s.wire;
    assert s.wire + u == s.wire + u[..n] + u[n..];
  }

  lemma LoopWriteStreams(s: State, e: LoopStep)
    requires Inv(s) && Streams(s) && LoopCan(s, e) && (e.WriteSome? || e.WriteFails?)
    ensures Streams(LoopDoes(s, e))
  {
    SentBytes(s, e);
    assert s.connected ==> !s.failed;
    hide Flatten, Unread, Inv, InFlight, LoopDoes, LoopCan;
    Moved(s.wire, InFlight(s), Unread(s.bufSend), e.n);
    if !s.connected {
      assert s.wire + InFlight(s)[..e.n] == s.wire;
    }
  }

  lemma LoopStreams(s: State, e: LoopStep)
    requires Inv(s) && Streams(s) && LoopCan(s, e)
    ensures Streams(LoopDoes(s, e))
  {
    if e == TakeNext {
      TakeStreams(s);
      hide Inv, Streams, Taken;
    } else if e.WriteSome? || e.WriteFails? {
      LoopWriteStreams(s, e);
      hide Inv, Streams, LoopDoes;
    } else {
      OtherBytes(s, e);
      OtherLoop(s, e);
      NothingHeld(s);
      NothingHeld(LoopDoes(s, e));
      hide Inv, Flatten, Unread, InFlight, LoopDoes;
    }
  }

  lemma ReaderStreams(s: State, e: ReaderStep)
    requires Streams(s) && ReaderCan(s, e)
    ensures Streams(ReaderDoes(s, e))
  {
    hide Flatten, Unread, InFlight;
    var n := ReaderDoes(s, e);
    assert n.wire == s.wire && n.written == s.written && n.bufSend == s.bufSend && n.loop == s.loop;
    assert InFlight(n) == InFlight(s) by {
      SameInFlight(s, n);
    }
  }

  lemma SameInFlight(s: State, n: State)
    requires n.loop == s.loop && n.bufSend == s.bufSend
    ensures InFlight(n) == InFlight(s)
  {
  }

  /** One step keeps the order exactly if it does not overwrite. */
  lemma StepStreams(s: State, e: Step)
    requires Inv(s) && Streams(s) && Can(s, e)
    ensures if OverwritingStep(s, e) then !InOrder(Does(s, e)) else Streams(Does(s, e))
  {
    match e
    case OfSender(i, x) =>
      if x.Write? {
        WriteStreams(s, i, x.capacity);
      } else {
        OtherStreams(s, i, x);
      }
      hide Inv, InOrder, Streams, SenderDoes, SenderCan, Overwriting;
    case OfLoop(x) =>
      LoopStreams(s, x);
      hide Inv, Streams, LoopDoes, LoopCan;
    case OfReader(x) =>
      ReaderStreams(s, x);
      hide Inv, Streams, ReaderDoes, ReaderCan;
    case _ =>
      SameInFlight(s, Does(s, e));
      hide Inv, Flatten, Unread, InFlight;
  }

  // ---------- runs ----------

  lemma {:induction false} RunStreams(s: State, t: seq<Step>)
    requires Inv(s) && Streams(s) && Runs(s, t)
    ensures AlwaysInOrder(s, t) <==> NeverOverwrites(s, t)
    ensures NeverOverwrites(s, t) ==> Streams(Final(s, t))
    decreases |t|
  {
    hide Inv, Can, Does, InOrder, OverwritingStep;
    if t != [] {
      StepStreams(s, t[0]);
      StepKeeps(s, t[0]);
      if !OverwritingStep(s, t[0]) {
        RunStreams(Does(s, t[0]), t[1..]);
      }
    }
  }
}
