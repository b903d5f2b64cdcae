/** Why the controller stops: after a reason to stop it closes the connection, without one it
    serves, and after the end it lets no call in. */
module TcpReasons {
  import opened Buffer
  import opened TcpController
  import opened TcpConservation
  import opened TcpLifecycle
  import opened TcpLeaving

  // ---------- reasons to stop ----------

  /** About to close the connection, or done. */
  predicate Stopping(s: State) {
    s.loop == Exiting || !s.connected
  }

  /** The peer closed or sent damaged data, a conn.Write failed, a packet's callback failed, or
      somebody asked for the close. */
  predicate Reason(s: State, e: Step) {
    match e
    case OfReader(x) => x == ExitAndNotify
    case OfLoop(x) => x.WriteFails? || x == Handle(false) || (x == TakeNext && s.loop == Took(0))
    case _ => false
  }

  lemma LoopStopping(s: State, e: LoopStep)
    requires Inv(s) && LoopCan(s, e) && (Stopping(s) || Reason(s, OfLoop(e)))
    ensures Stopping(LoopDoes(s, e))
  {
    hide InFlight, Counted;
    if e == TakeNext {
      TakenConnected(s);
      hide Taken;
    }
  }

  lemma TakenConnected(s: State)
    requires s.loop.Took?
    ensures var n := Taken(s, s.loop.token);
            n.connected == s.connected && (s.loop.token == 0 ==> n.loop == Exiting)
  {
    if s.loop.token == 0 {
      return;
    }
  }

  lemma SenderStopping(s: State, i: nat, e: SenderStep)
    requires Stopping(s) && SenderCan(s, i, e)
    ensures Stopping(SenderDoes(s, i, e))
  {
    hide WrittenTo, InFlight;
  }

  lemma ReaderStopping(s: State, e: ReaderStep)
    requires Connection(s) && ReaderCan(s, e) && (Stopping(s) || Reason(s, OfReader(e)))
    ensures Stopping(ReaderDoes(s, e))
  {
    match e
    case Read => case RaiseFlag => case Determine => case Parsed => case Fail => case ExitAndNotify =>
  }

  lemma StepStopping(s: State, e: Step)
    requires Inv(s) && Can(s, e) && (Stopping(s) || Reason(s, e))
    ensures Stopping(Does(s, e))
  {
    match e
    case OfSender(i, x) =>
      SenderStopping(s, i, x);
      hide SenderDoes, Stopping, Inv;
    case OfLoop(x) =>
      LoopStopping(s, x);
      hide LoopDoes, Stopping, Inv;
    case OfReader(x) =>
      ReaderStopping(s, x);
      hide ReaderDoes, Stopping, Inv;
    case _ => hide Inv;
  }

  lemma {:induction false} RunStopping(s: State, t: seq<Step>)
    requires Inv(s) && Stopping(s) && Runs(s, t)
    ensures Stopping(Final(s, t))
    decreases |t|
  {
    hide Inv, Stopping, Can, Does;
    if t != [] {
      StepStopping(s, t[0]);
      StepKeeps(s, t[0]);
      RunStopping(Does(s, t[0]), t[1..]);
    }
  }

  /** After any reason to stop the loop does nothing before it has closed the connection. */
  lemma ReasonsClose(t: seq<Step>, e: Step, later: seq<Step>)
    requires Runs(INIT, t) && Can(Final(INIT, t), e) && Reason(Final(INIT, t), e)
    requires Runs(Does(Final(INIT, t), e), later)
    ensures Stopping(Final(Does(Final(INIT, t), e), later))
  {
    hide Can, Does, Reason, Inv, Stopping;
    Reached(t);
    var s := Final(INIT, t);
    StepStopping(s, e);
    StepKeeps(s, e);
    RunStopping(Does(s, e), later);
  }

  // ---------- no other reasons ----------

  /** Nothing fails, nobody closes, and nobody asks for it. */
  predicate Harmless(e: Step) {
    match e
    case Call(data) => data != []
    case OfLoop(x) => !x.WriteFails? && x != Handle(false)
    case OfReader(x) => x != Fail
    case Lost => false
    case _ => true
  }

  predicate Serving(s: State) {
    && s.connected && s.reader != Failing && s.reader != Stopped && s.loop != Exiting
    && s.leaves == 0 && !s.sendClosed
    && (s.loop.Took? ==> s.loop.token > 0)
    && forall x :: x in s.senders ==> Served(x)
  }

  /** A call with data that was not turned away. */
  predicate Served(x: Sender) {
    x.data != [] && !x.Refused? && !x.Panicked?
  }

  lemma TakenServes(s: State)
    requires Inv(s) && s.loop.Took? && s.loop.token > 0
    ensures !Taken(s, s.loop.token).loop.Exiting?
  {
    TakeCounted(s);
  }

  lemma LoopServes(s: State, e: LoopStep)
    requires Inv(s) && Serving(s) && LoopCan(s, e) && Harmless(OfLoop(e))
    ensures Serving(LoopDoes(s, e))
  {
    hide InFlight, Counted, Served;
    if e == TakeNext {
      TakenServes(s);
      TakenOnly(s);
      hide Taken;
    }
  }

  lemma SenderServes(s: State, i: nat, e: SenderStep)
    requires Inv(s) && Serving(s) && SenderCan(s, i, e)
    ensures Serving(SenderDoes(s, i, e))
  {
    hide InFlight, WrittenTo, Counted;
    assert s.senders[i] in s.senders;
  }

  lemma StepServes(s: State, e: Step)
    requires Inv(s) && Serving(s) && Can(s, e) && Harmless(e)
    ensures Serving(Does(s, e))
  {
    hide Counted, Closes;
    match e
    case OfSender(i, x) =>
      SenderServes(s, i, x);
      hide SenderDoes, Serving;
    case OfLoop(x) =>
      LoopServes(s, x);
      hide LoopDoes, Serving;
    case Call(data) =>
    case OfReader(x) =>
    case _ =>
  }

  lemma {:induction false} RunServes(s: State, t: seq<Step>)
    requires Inv(s) && Serving(s) && Runs(s, t) && forall e :: e in t ==> Harmless(e)
    ensures Serving(Final(s, t))
    decreases |t|
  {
    hide Inv, Serving, Can, Does, Harmless;
    if t != [] {
      assert t[0] in t && forall e :: e in t[1..] ==> e in t;
      StepServes(s, t[0]);
      StepKeeps(s, t[0]);
      RunServes(Does(s, t[0]), t[1..]);
    }
  }

  /** In runs in which nothing fails and nobody closes or asks for it, the connection stays open,
      the flag stays Opened, and no call is turned away. */
  lemma NoReasonNoClose(t: seq<Step>)
    requires Runs(INIT, t) && forall e :: e in t ==> Harmless(e)
    ensures var s := Final(INIT, t);
            && s.connected && s.flag.open && s.leaves == 0
            && forall x :: x in s.senders ==> !x.Refused? && !x.Panicked?
  {
    RunServes(INIT, t);
    Reached(t);
  }

  // ---------- calls after the end ----------

  /** A call that has not been let in. */
  predicate TurnedAway(x: Sender) {
    x.Checking? || x.Refused?
  }

  predicate AwayFrom(s: State, n: nat) {
    forall i :: n <= i < |s.senders| ==> TurnedAway(s.senders[i])
  }

  lemma SenderAway(s: State, i: nat, e: SenderStep, n: nat)
    requires !s.flag.open && AwayFrom(s, n) && SenderCan(s, i, e)
    ensures AwayFrom(SenderDoes(s, i, e), n)
  {
    hide WrittenTo, LoopAfter;
  }

  lemma StepAway(s: State, e: Step, n: nat)
    requires !s.flag.open && AwayFrom(s, n) && Can(s, e)
    ensures AwayFrom(Does(s, e), n)
  {
    match e
    case OfSender(i, x) =>
      SenderAway(s, i, x, n);
      hide SenderDoes, AwayFrom;
    case OfLoop(x) =>
      LoopKeepsSenders(s, x);
      hide LoopDoes;
    case _ =>
  }

  lemma LoopKeepsSenders(s: State, e: LoopStep)
    requires LoopCan(s, e)
    ensures LoopDoes(s, e).senders == s.senders
  {
    hide InFlight;
    if e == TakeNext {
      TakenOnly(s);
      hide Taken;
    }
  }

  lemma {:induction false} RunAway(s: State, t: seq<Step>, n: nat)
    requires Sound(s) && !s.flag.open && AwayFrom(s, n) && Runs(s, t) && NoSetFlag(t)
    ensures AwayFrom(Final(s, t), n)
    decreases |t|
  {
    hide Sound, AwayFrom, Can, Does;
    if t != [] {
      assert t[0] in t && forall e :: e in t[1..] ==> e in t;
      StepAway(s, t[0], n);
      SoundNext(s, t[0]);
      NotReopened(s, t[0]);
      RunAway(Does(s, t[0]), t[1..], n);
    }
  }

  lemma NotReopened(s: State, e: Step)
    requires Sound(s) && !s.flag.open && Can(s, e) && !e.SetFlag?
    ensures !Does(s, e).flag.open
  {
    NoticeQuiet(s);
    hide Quiet, Told, Counted, Closes, Can, Does;
    StepOrderly(s, e);
  }

  /** Without SetPacketFormat calls, no call that begins after the flag has left Opened is let
      in: it returns false and writes nothing. */
  lemma RefusedAfterClosing(t: seq<Step>, u: seq<Step>)
    requires Runs(INIT, t + u) && NoSetFlag(t + u)
    ensures Runs(INIT, t)
    ensures var now, later := Final(INIT, t), Final(INIT, t + u);
            !now.flag.open ==> forall i :: |now.senders| <= i < |later.senders| ==> TurnedAway(later.senders[i])
  {
    RunSplit(INIT, t, u);
    assert forall e :: e in t ==> e in t + u;
    assert forall e :: e in u ==> e in t + u;
    RunTells(INIT, t);
    var s := Final(INIT, t);
    if !s.flag.open {
      RunAway(s, u, |s.senders|);
    }
  }

  // ---------- what became of a call ----------

  /** The states of a call tell which of its steps were taken. */
  ghost predicate TellsSteps(x: Sender, i: nat, t: seq<Step>) {
    && (x.Sent? <==> OfSender(i, HandOver) in t)
    && (x.Panicked? <==> OfSender(i, Panic) in t)
    && (x.Handing? || x.Sent? || x.Panicked? <==> exists c :: OfSender(i, Write(c)) in t)
    && (!x.Checking? <==> OfSender(i, Check) in t)
  }

  ghost predicate AllTell(s: State, t: seq<Step>) {
    && (forall i :: 0 <= i < |s.senders| ==> TellsSteps(s.senders[i], i, t))
    && forall e :: e in t && e.OfSender? ==> e.i < |s.senders|
  }

  lemma CallTells(s: State, t: seq<Step>, i: nat, e: SenderStep)
    requires AllTell(s, t) && SenderCan(s, i, e)
    ensures TellsSteps(SenderDoes(s, i, e).senders[i], i, t + [OfSender(i, e)])
  {
    hide WrittenTo, LoopAfter;
    assert TellsSteps(s.senders[i], i, t);
    assert OfSender(i, e) in t + [OfSender(i, e)];
    assert forall f :: f in t + [OfSender(i, e)] <==> f in t || f == OfSender(i, e);
  }

  lemma OtherTells(x: Sender, i: nat, t: seq<Step>, e: Step)
    requires TellsSteps(x, i, t) && !(e.OfSender? && e.i == i)
    ensures TellsSteps(x, i, t + [e])
  {
    assert forall f :: f in t + [e] <==> f in t || f == e;
  }

  lemma NewTells(x: Sender, i: nat, t: seq<Step>)
    requires x.Checking? && forall e :: e in t && e.OfSender? ==> e.i < i
    ensures TellsSteps(x, i, t)
  {
  }

  lemma StepTellsCalls(s: State, t: seq<Step>, e: Step)
    requires AllTell(s, t) && Can(s, e)
    ensures AllTell(Does(s, e), t + [e])
  {
    hide TellsSteps, Can, Does;
    var n := Does(s, e);
    SendersAfter(s, e);
    assert forall f :: f in t + [e] <==> f in t || f == e;
    forall i | 0 <= i < |n.senders| ensures TellsSteps(n.senders[i], i, t + [e]) {
      if e.OfSender? && e.i == i {
        SenderSteps(s, e);
        CallTells(s, t, i, e.sender);
      } else if i < |s.senders| {
        OtherTells(s.senders[i], i, t, e);
      } else {
        NewTells(n.senders[i], i, t + [e]);
      }
    }
  }

  lemma SenderSteps(s: State, e: Step)
    requires e.OfSender? && Can(s, e)
    ensures SenderCan(s, e.i, e.sender) && Does(s, e) == SenderDoes(s, e.i, e.sender)
  {
    hide SenderCan, SenderDoes;
  }

  lemma SendersAfter(s: State, e: Step)
    requires Can(s, e)
    ensures var n := Does(s, e);
            && |s.senders| <= |n.senders| <= |s.senders| + 1
            && (forall i :: 0 <= i < |s.senders| && !(e.OfSender? && e.i == i) ==> n.senders[i] == s.senders[i])
            && (|n.senders| > |s.senders| ==> n.senders[|s.senders|].Checking? && !e.OfSender?)
            && (e.OfSender? ==> e.i < |s.senders|)
  {
    match e
    case OfSender(i, x) =>
      OneSender(s, i, x);
      hide SenderDoes;
    case OfLoop(x) =>
      LoopKeepsSenders(s, x);
      hide LoopDoes;
    case OfReader(x) =>
      ReaderKeepsSenders(s, x);
      hide ReaderDoes;
    case _ =>
  }

  lemma OneSender(s: State, i: nat, e: SenderStep)
    requires SenderCan(s, i, e)
    ensures |SenderDoes(s, i, e).senders| == |s.senders|
    ensures SenderDoes(s, i, e).senders == s.senders[i := SenderDoes(s, i, e).senders[i]]
  {
    hide WrittenTo, LoopAfter;
  }

  lemma ReaderKeepsSenders(s: State, e: ReaderStep)
    requires ReaderCan(s, e)
    ensures ReaderDoes(s, e).senders == s.senders
  {
    match e
    case Read => case RaiseFlag => case Determine => case Parsed => case Fail => case ExitAndNotify =>
  }

  lemma {:induction false} RunTellsCalls(s: State, done: seq<Step>, t: seq<Step>)
    requires AllTell(s, done) && Runs(s, t)
    ensures AllTell(Final(s, t), done + t)
    decreases |t|
  {
    hide AllTell, Can, Does;
    if t == [] {
      assert done + t == done;
    } else {
      StepTellsCalls(s, done, t[0]);
      RunTellsCalls(Does(s, t[0]), done + [t[0]], t[1..]);
      assert done + [t[0]] + t[1..] == done + t;
    }
  }

  /** In every run a call has returned true if and only if its token was taken, has panicked if
      and only if its channel was closed, and has its data in bufSend if and only if it wrote. */
  lemma CallOutcome(t: seq<Step>, i: nat)
    requires Runs(INIT, t) && i < |Final(INIT, t).senders|
    ensures TellsSteps(Final(INIT, t).senders[i], i, t)
  {
    RunTellsCalls(INIT, [], t);
    assert [] + t == t;
  }
}
