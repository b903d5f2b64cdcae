/** The reader's notice is never lost, and the controller always can be left. */
module TcpLeaving {
  import opened Buffer
  import opened TcpController
  import opened TcpConservation
  import opened TcpLifecycle

  // ---------- the notice ----------

  /** Only the reader and the loop touch the flag, a reader that stopped under an Opened flag has
      left a notice, and a loop that ended has left. */
  predicate Told(s: State) {
    && s.updates == []
    && (s.flag.open && s.reader == Stopped ==> s.notices > 0)
    && (s.loop == Ended ==> s.leaves == 1)
  }

  lemma LoopTells(s: State, e: LoopStep)
    requires Inv(s) && Orderly(s) && Told(s) && LoopCan(s, e)
    ensures Told(LoopDoes(s, e))
  {
    hide InFlight, Counted, Outstanding, AllWrote, Flatten;
    LoopLeavesUpdates(s, e);
    match e
    case TakeNext =>
      TakenOnly(s);
      hide Taken;
    case TestFlag => case WriteSome(_) => case WriteFails(_) => case Handle(_) => case Notice =>
    case Exit => case TestClosing => case ResetBuffers => case CloseSend => case CloseClosed => case Wait =>
    case SetClosed => case Leave =>
  }

  lemma StepTells(s: State, e: Step)
    requires Inv(s) && Orderly(s) && Told(s) && Can(s, e) && !e.SetFlag?
    ensures Told(Does(s, e))
  {
    hide Counted, Connection, Closes, Outstanding, AllWrote, Flatten, Orderly;
    match e
    case OfSender(i, x) =>
      SenderTells(s, i, x);
      hide SenderDoes, Told;
    case OfLoop(x) =>
      LoopTells(s, x);
      hide LoopDoes, Told;
    case OfReader(x) =>
      ReaderTells(s, x);
      hide ReaderDoes, Told;
    case _ =>
  }

  lemma ReaderTells(s: State, e: ReaderStep)
    requires Told(s) && ReaderCan(s, e)
    ensures Told(ReaderDoes(s, e))
  {
    match e
    case Read => case RaiseFlag => case Determine => case Parsed => case Fail => case ExitAndNotify =>
  }

  lemma SenderTells(s: State, i: nat, e: SenderStep)
    requires Told(s) && SenderCan(s, i, e)
    ensures Told(SenderDoes(s, i, e))
  {
    hide WrittenTo, InFlight;
  }

  lemma {:induction false} RunTells(s: State, t: seq<Step>)
    requires Inv(s) && Orderly(s) && Told(s) && Runs(s, t) && NoSetFlag(t)
    ensures Inv(Final(s, t)) && Orderly(Final(s, t)) && Told(Final(s, t))
    decreases |t|
  {
    hide Inv, Orderly, Told, Can, Does;
    if t != [] {
      assert t[0] in t && forall e :: e in t[1..] ==> e in t;
      StepKeeps(s, t[0]);
      StepTells(s, t[0]);
      NoticeQuiet(s);
      StepOrderlyToo(s, t[0]);
      RunTells(Does(s, t[0]), t[1..]);
    }
  }

  lemma NoticeQuiet(s: State)
    requires Told(s)
    ensures Quiet(s)
  {
  }

  lemma StepOrderlyToo(s: State, e: Step)
    requires Inv(s) && Orderly(s) && Quiet(s) && Can(s, e)
    ensures Orderly(Does(s, e))
  {
    hide Orderly, Quiet, Can, Does;
    StepOrderly(s, e);
  }

  /** Without SetPacketFormat calls, in every run: when the reader has stopped and the flag is
      still Opened, its notice is pending, exactly once. */
  lemma NoticePending(t: seq<Step>)
    requires Runs(INIT, t) && NoSetFlag(t)
    ensures var s := Final(INIT, t); s.flag.open && s.reader == Stopped ==> s.notices == 1
  {
    RunTells(INIT, t);
  }

  // ---------- to the end from anywhere ----------

  /** What every run without SetPacketFormat calls keeps. */
  ghost predicate Sound(s: State) {
    Inv(s) && Orderly(s) && Told(s)
  }

  ghost predicate Goes(s: State, u: seq<Step>, n: State) {
    Runs(s, u) && NoSetFlag(u) && Final(s, u) == n
  }

  lemma GoesNowhere(s: State)
    ensures Goes(s, [], s) && OwnSteps([])
  {
  }

  /** One step, and then on. */
  lemma GoesFirst(s: State, e: Step, u: seq<Step>, n: State)
    requires Can(s, e) && !e.SetFlag? && Goes(Does(s, e), u, n)
    ensures Goes(s, [e] + u, n) && (OwnStep(e) && OwnSteps(u) ==> OwnSteps([e] + u))
  {
    hide Can, Does, OwnStep;
    assert ([e] + u)[1..] == u;
  }

  lemma GoesOn(s: State, u: seq<Step>, m: State, v: seq<Step>, n: State)
    requires Goes(s, u, m) && Goes(m, v, n)
    ensures Goes(s, u + v, n) && (OwnSteps(u) && OwnSteps(v) ==> OwnSteps(u + v))
  {
    hide OwnStep;
    RunJoin(s, u, v);
  }

  lemma StaysSound(s: State, u: seq<Step>, n: State)
    requires Sound(s) && Goes(s, u, n)
    ensures Sound(n)
  {
    RunTells(s, u);
  }

  lemma SoundNext(s: State, e: Step)
    requires Sound(s) && Can(s, e) && !e.SetFlag?
    ensures Sound(Does(s, e))
  {
    hide Inv, Orderly, Told, Can, Does;
    StepKeeps(s, e);
    StepTells(s, e);
    NoticeQuiet(s);
    StepOrderlyToo(s, e);
  }

  /** Steps that need nobody else: the loop's and the reader's own, a conn.Write that fails, and
      the return of the alive check. */
  predicate OwnStep(e: Step) {
    match e
    case OfLoop(x) => !x.WriteSome? && (x.WriteFails? ==> x.n == 0) && !x.Handle?
    case OfReader(x) => x == RaiseFlag || x == ExitAndNotify
    case AliveEnds => true
    case _ => false
  }

  ghost predicate OwnSteps(t: seq<Step>) {
    forall e :: e in t ==> OwnStep(e)
  }

  function ReaderOut(r: Reader): ReaderStep {
    match r
    case Updating(_) => RaiseFlag
    case Failing => ExitAndNotify
    case _ => Fail
  }

  function ReaderRank(r: Reader): nat {
    match r
    case Stopped => 0
    case Failing => 1
    case Parsing => 2
    case Reading => 2
    case Updating(Test(_)) => 5
    case Updating(Load(_)) => 4
    case _ => 3
  }

  lemma ReaderStepOut(s: State)
    requires s.reader != Stopped
    ensures ReaderCan(s, ReaderOut(s.reader))
    ensures var n := ReaderDoes(s, ReaderOut(s.reader));
            n.loop == s.loop && n.leaves == s.leaves && ReaderRank(n.reader) < ReaderRank(s.reader)
    ensures s.reader == Failing ==> ReaderDoes(s, ReaderOut(s.reader)).reader == Stopped
  {
  }

  /** The reader's way to its end: it fails, closes the connection and leaves a notice. */
  lemma {:induction false} ReaderStops(s: State) returns (u: seq<Step>, n: State)
    requires Sound(s)
    ensures Goes(s, u, n) && n.reader == Stopped && n.loop == s.loop && n.leaves == s.leaves
    ensures s.reader == Failing || s.reader == Stopped ==> OwnSteps(u)
    decreases ReaderRank(s.reader)
  {
    hide Sound, Goes, ReaderDoes, OwnSteps;
    if s.reader == Stopped {
      u, n := [], s;
      GoesNowhere(s);
    } else {
      ReaderStepOut(s);
      var e := OfReader(ReaderOut(s.reader));
      SoundNext(s, e);
      u, n := ReaderStops(Does(s, e));
      GoesFirst(s, e, u, n);
      u := [e] + u;
    }
  }

  function LoopOnward(l: Loop): LoopStep {
    match l
    case Took(_) => TakeNext
    case Sending(_) => WriteFails(0)
    case Exiting => Exit
    case _ => TestFlag
  }

  function LoopRank(l: Loop): nat {
    match l
    case Took(_) => 4
    case Sending(_) => 3
    case Exiting => 2
    case Testing => 1
    case _ => 0
  }

  lemma LoopStepOnward(s: State)
    requires s.flag.open && Early(s.loop) && s.loop != Selecting
    ensures LoopCan(s, LoopOnward(s.loop))
    ensures var n := LoopDoes(s, LoopOnward(s.loop));
            && n.flag == s.flag && Early(n.loop) && LoopRank(n.loop) < LoopRank(s.loop)
            && n.reader == s.reader && n.leaves == s.leaves && n.notices == s.notices
  {
    hide InFlight;
    if s.loop.Took? {
      TakenOnly(s);
      TakenRank(s);
      hide Taken;
    }
  }

  lemma TakenRank(s: State)
    requires s.loop.Took?
    ensures LoopRank(Taken(s, s.loop.token).loop) < 4
  {
    if s.loop.token == 0 {
      return;
    }
  }

  /** The loop's way to its select, when nothing more can be sent. */
  lemma {:induction false} LoopSelects(s: State) returns (u: seq<Step>, n: State)
    requires Sound(s) && s.flag.open && Early(s.loop)
    ensures Goes(s, u, n) && n.loop == Selecting && n.flag == s.flag && n.reader == s.reader && n.leaves == s.leaves
    ensures n.notices == s.notices && OwnSteps(u)
    decreases LoopRank(s.loop)
  {
    hide Sound, Goes, LoopDoes, OwnSteps;
    if s.loop == Selecting {
      u, n := [], s;
      GoesNowhere(s);
    } else {
      LoopStepOnward(s);
      var e := OfLoop(LoopOnward(s.loop));
      SoundNext(s, e);
      u, n := LoopSelects(Does(s, e));
      GoesFirst(s, e, u, n);
      u := [e] + u;
    }
  }

  lemma {:induction false} StepsOutOwn(l: Loop)
    ensures OwnSteps(StepsOut(l)) && NoSetFlag(StepsOut(l))
    decreases 8 - Stage(l)
  {
    if l != Ended && Stage(LoopOut(l)) > Stage(l) {
      StepsOutOwn(LoopOut(l));
    }
  }

  lemma ClosingOut(s: State) returns (u: seq<Step>, n: State)
    requires Sound(s) && s.reader == Stopped && !s.flag.open && s.leaves == 0
    ensures Goes(s, u, n) && n.leaves == 1 && n.flag == CLOSED && OwnSteps(u)
  {
    assert WayOut(s.(alive := false));
    ThenOut(s);
    StepsOutOwn(s.loop);
    hide Runs, Final, Sound, StepsOut;
    u := [AliveEnds] + StepsOut(s.loop);
    n := Final(s, u);
  }

  /** The notice is received. */
  lemma NoticeTaken(s: State)
    requires Sound(s) && s.loop == Selecting && s.notices > 0
    ensures Can(s, OfLoop(Notice))
    ensures var n := Does(s, OfLoop(Notice));
            Sound(n) && n.reader == s.reader && !n.flag.open && n.leaves == s.leaves
  {
    SoundNext(s, OfLoop(Notice));
  }

  lemma WayFrom(s: State) returns (u: seq<Step>, n: State)
    requires Sound(s) && s.leaves == 0
    ensures Goes(s, u, n) && n.leaves == 1 && n.flag == CLOSED
    ensures s.reader == Failing || s.reader == Stopped ==> OwnSteps(u)
  {
    var m;
    u, m := ReaderStops(s);
    StaysSound(s, u, m);
    if m.flag.open {
      assert m.notices > 0 && Early(m.loop);
      hide Sound, Goes, OwnSteps;
      var v, k := LoopSelects(m);
      StaysSound(m, v, k);
      NoticeTaken(k);
      var e := OfLoop(Notice);
      var w;
      w, n := ClosingOut(Does(k, e));
      GoesFirst(k, e, w, n);
      GoesOn(m, v, k, [e] + w, n);
      GoesOn(s, u, m, v + ([e] + w), n);
      u := u + (v + ([e] + w));
    } else {
      hide Sound, Goes, OwnSteps;
      var v;
      v, n := ClosingOut(m);
      GoesOn(s, u, m, v, n);
      u := u + v;
    }
  }

  /** Without SetPacketFormat calls every run can go on to the one ControllerLeave, with the flag
      Closed. If the reader has failed, the controller's own steps lead there. */
  lemma CanLeave(t: seq<Step>) returns (u: seq<Step>)
    requires Runs(INIT, t) && NoSetFlag(t) && Final(INIT, t).leaves == 0
    ensures Runs(INIT, t + u) && NoSetFlag(t + u)
    ensures Final(INIT, t + u).leaves == 1 && Final(INIT, t + u).flag == CLOSED
    ensures Final(INIT, t).reader == Failing || Final(INIT, t).reader == Stopped ==> OwnSteps(u)
  {
    RunTells(INIT, t);
    var n;
    u, n := WayFrom(Final(INIT, t));
    RunJoin(INIT, t, u);
  }
}
