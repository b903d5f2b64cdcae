/** What is left when the controller is left. */
module TcpRemains {
  import opened Buffer
  import opened TcpController
  import opened TcpConservation
  import opened TcpLifecycle

  // ---------- what is left behind ----------

  /** Behind its wait the loop is the last one running. */
  predicate Waited(s: State) {
    6 <= Stage(s.loop) <= 7 || s.leaves == 1 ==> s.reader == Stopped && !s.alive
  }

  lemma LoopWaits(s: State, e: LoopStep)
    requires Closes(s) && Waited(s) && LoopCan(s, e)
    ensures Waited(LoopDoes(s, e))
  {
    hide InFlight;
    if e == TakeNext {
      TakenOnly(s);
      hide Taken;
    }
  }

  lemma StepWaits(s: State, e: Step)
    requires Closes(s) && Waited(s) && Can(s, e)
    ensures Waited(Does(s, e))
  {
    match e
    case OfSender(i, x) =>
      SenderWaits(s, i, x);
      hide SenderDoes, Waited;
    case OfLoop(x) =>
      LoopWaits(s, x);
      hide LoopDoes, Waited;
    case OfReader(x) =>
      ReaderWaits(s, x);
      hide Closes, ReaderDoes, Waited;
    case _ => hide Closes;
  }

  lemma ReaderWaits(s: State, e: ReaderStep)
    requires Waited(s) && ReaderCan(s, e)
    ensures Waited(ReaderDoes(s, e))
  {
    match e
    case Read => case RaiseFlag => case Determine => case Parsed => case Fail => case ExitAndNotify =>
  }

  lemma SenderWaits(s: State, i: nat, e: SenderStep)
    requires Waited(s) && SenderCan(s, i, e)
    ensures Waited(SenderDoes(s, i, e))
  {
    hide WrittenTo, InFlight;
  }

  lemma {:induction false} RunWaits(s: State, t: seq<Step>)
    requires Inv(s) && Waited(s) && Runs(s, t)
    ensures Waited(Final(s, t))
    decreases |t|
  {
    hide Waited, Can, Does, Connection, Counted, Closes;
    if t != [] {
      StepWaits(s, t[0]);
      StepKeeps(s, t[0]);
      RunWaits(Does(s, t[0]), t[1..]);
    }
  }

  /** ControllerLeave is called after the reader and the alive check have ended. */
  lemma LeftLast(t: seq<Step>)
    requires Runs(INIT, t) && Final(INIT, t).leaves == 1
    ensures Final(INIT, t).reader == Stopped && !Final(INIT, t).alive
  {
    RunWaits(INIT, t);
  }

  predicate Writes(e: Step) {
    e.OfSender? && e.sender.Write?
  }

  lemma EmptyLoop(s: State, e: LoopStep)
    requires Unread(s.bufSend) == [] && LoopCan(s, e)
    ensures Unread(LoopDoes(s, e).bufSend) == []
  {
    hide InFlight;
    if e == TakeNext {
      EmptyTake(s);
      hide Taken, Unread;
    } else {
      hide Taken;
      match e
      case TestFlag => case WriteSome(_) => case WriteFails(_) => case Handle(_) => case Notice =>
      case Exit => case TestClosing => case ResetBuffers => case CloseSend => case CloseClosed => case Wait =>
      case SetClosed => case Leave =>
    }
  }

  lemma EmptyTake(s: State)
    requires Unread(s.bufSend) == [] && s.loop.Took?
    ensures Unread(Taken(s, s.loop.token).bufSend) == []
  {
    if s.loop.token == 0 {
      return;
    }
    assert |Unread(s.bufSend)| == s.bufSend.end - s.bufSend.off;
  }

  lemma EmptyStep(s: State, e: Step)
    requires Unread(s.bufSend) == [] && Can(s, e) && !Writes(e)
    ensures Unread(Does(s, e).bufSend) == []
  {
    match e
    case OfLoop(x) =>
      EmptyLoop(s, x);
      hide LoopDoes, Unread;
    case _ => hide Unread, WrittenTo;
  }

  /** Closing empties bufSend: what it holds afterwards was written afterwards. */
  lemma ResetEmpties(s: State, t: seq<Step>)
    requires Can(s, OfLoop(ResetBuffers)) && Runs(Does(s, OfLoop(ResetBuffers)), t)
    requires forall e :: e in t ==> !Writes(e)
    ensures Unread(Final(Does(s, OfLoop(ResetBuffers)), t).bufSend) == []
  {
    StaysEmpty(Does(s, OfLoop(ResetBuffers)), t);
  }

  lemma {:induction false} StaysEmpty(s: State, t: seq<Step>)
    requires Unread(s.bufSend) == [] && Runs(s, t)
    requires forall e :: e in t ==> !Writes(e)
    ensures Unread(Final(s, t).bufSend) == []
    decreases |t|
  {
    hide Can, Does, Unread;
    if t != [] {
      assert t[0] in t && forall e :: e in t[1..] ==> e in t;
      EmptyStep(s, t[0]);
      StaysEmpty(Does(s, t[0]), t[1..]);
    }
  }
}
