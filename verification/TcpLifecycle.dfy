/** Opened, Closing, Closed: the controller's flag under `flag |= bit` split into its load and
    its store. */
module TcpLifecycle {
  import opened Buffer
  import opened TcpController
  import opened TcpConservation

  function Rank(f: Flag): nat {
    if f.open then 0 else if f.closing then 1 else 2
  }

  predicate OnlyOne(f: Flag) {
    (if f.open then 1 else 0) + (if f.closing then 1 else 0) + (if f.closed then 1 else 0) == 1
  }

  /** Past its test, and about to store a flag it may have loaded long ago. */
  predicate PastTest(u: Update) {
    u.Load? || u.Store?
  }

  /** No SetPacketFormat call is between its test and its store. */
  predicate Quiet(s: State) {
    NonePastTest(s.updates)
  }

  predicate NonePastTest(us: seq<Update>) {
    forall u :: u in us ==> !PastTest(u)
  }

  /** A pending store would store a well-formed Opened flag. */
  predicate StoresOpened(u: Update) {
    u.Store? ==> u.loaded.open && OnlyOne(u.loaded)
  }

  predicate AllStoreOpened(us: seq<Update>) {
    forall u :: u in us ==> StoresOpened(u)
  }

  /** Every notice of the run is received at a quiet moment. */
  predicate QuietNotices(s: State, t: seq<Step>)
    requires Runs(s, t)
    decreases |t|
  {
    t != [] ==> (t[0] == OfLoop(Notice) ==> Quiet(s)) && QuietNotices(Does(s, t[0]), t[1..])
  }

  predicate Orderly(s: State) {
    && OnlyOne(s.flag)
    && (s.flag.open ==> Early(s.loop))
    && (s.flag.closing ==> s.loop == Testing || 1 <= Stage(s.loop) <= 6)
    && (s.flag.closed ==> Stage(s.loop) >= 7 && s.flag == CLOSED)
    && (!s.flag.open ==> Quiet(s) && s.reader == Stopped)
    && AllStoreOpened(s.updates)
    && (s.reader.Updating? ==> StoresOpened(s.reader.update))
  }

  // ---------- in order ----------

  lemma TakenOnly(s: State)
    requires s.loop.Took?
    ensures var n := Taken(s, s.loop.token); n == s.(bufSend := n.bufSend, loop := n.loop) && Early(n.loop)
  {
    if s.loop.token == 0 {
      return;
    }
  }

  lemma TakenOrderly(s: State)
    requires Orderly(s) && s.loop.Took?
    ensures var n := Taken(s, s.loop.token); Orderly(n) && n.flag == s.flag
  {
    hide NonePastTest, AllStoreOpened, StoresOpened;
    TakenOnly(s);
    hide Taken;
  }

  lemma LoopOrderly(s: State, e: LoopStep)
    requires Orderly(s) && LoopCan(s, e) && (e == Notice ==> Quiet(s) && s.reader == Stopped)
    ensures var n := LoopDoes(s, e); Orderly(n) && Rank(s.flag) <= Rank(n.flag) <= Rank(s.flag) + 1
  {
    hide NonePastTest, AllStoreOpened, StoresOpened, SliceBytes, Advanced;
    if e == TakeNext {
      TakenOrderly(s);
      hide Taken, Orderly;
    } else {
      hide Taken;
      match e
      case TestFlag => case WriteSome(_) => case WriteFails(_) => case Handle(_) => case Notice =>
      case Exit => case TestClosing => case ResetBuffers => case CloseSend => case CloseClosed => case Wait =>
      case SetClosed => case Leave =>
    }
  }

  lemma ReaderOrderly(s: State, e: ReaderStep)
    requires Connection(s) && Orderly(s) && ReaderCan(s, e)
    ensures var n := ReaderDoes(s, e); Orderly(n) && n.flag.open == s.flag.open && Rank(n.flag) == Rank(s.flag)
  {
    hide NonePastTest, AllStoreOpened;
  }

  lemma UpdateOrderly(s: State, j: nat)
    requires Orderly(s) && Can(s, UpdateFlag(j))
    ensures var n := Does(s, UpdateFlag(j)); Orderly(n) && n.flag.open == s.flag.open && Rank(n.flag) == Rank(s.flag)
  {
    var n := Does(s, UpdateFlag(j));
    assert s.updates[j] in s.updates;
    assert forall u :: u in n.updates ==> u in s.updates || u == Updated(s.updates[j], s.flag);
  }

  lemma SenderOrderly(s: State, i: nat, e: SenderStep)
    requires Orderly(s) && SenderCan(s, i, e)
    ensures var n := SenderDoes(s, i, e); Orderly(n) && n.flag == s.flag
  {
    hide NonePastTest, AllStoreOpened;
  }

  lemma StepOrderly(s: State, e: Step)
    requires Connection(s) && Orderly(s) && Can(s, e) && (e == OfLoop(Notice) ==> Quiet(s))
    ensures var n := Does(s, e); Orderly(n) && Rank(s.flag) <= Rank(n.flag) <= Rank(s.flag) + 1
  {
    match e
    case OfSender(i, x) =>
      SenderOrderly(s, i, x);
      hide Orderly, SenderDoes, Connection;
    case OfLoop(x) =>
      LoopOrderly(s, x);
      hide Orderly, LoopDoes, Connection;
    case OfReader(x) =>
      ReaderOrderly(s, x);
      hide Orderly, ReaderDoes, Connection;
    case UpdateFlag(j) =>
      UpdateOrderly(s, j);
      hide Orderly, Connection;
    case _ => hide Connection;
  }

  lemma {:induction false} RunOrderly(s: State, t: seq<Step>)
    requires Inv(s) && Orderly(s) && Runs(s, t) && QuietNotices(s, t)
    ensures Orderly(Final(s, t)) && Rank(s.flag) <= Rank(Final(s, t).flag)
    decreases |t|
  {
    hide Can, Does, Orderly, Quiet, Connection, Counted, Closes;
    if t != [] {
      StepOrderly(s, t[0]);
      StepKeeps(s, t[0]);
      RunOrderly(Does(s, t[0]), t[1..]);
    }
  }

  lemma {:induction false} QuietSplit(s: State, t: seq<Step>, u: seq<Step>)
    requires Runs(s, t + u) && QuietNotices(s, t + u)
    ensures Runs(s, t) && QuietNotices(s, t)
    ensures Runs(Final(s, t), u) && QuietNotices(Final(s, t), u) && Final(s, t + u) == Final(Final(s, t), u)
    decreases |t|
  {
    hide Can, Does, Quiet;
    if t == [] {
      assert t + u == u;
    } else {
      assert (t + u)[1..] == t[1..] + u;
      QuietSplit(Does(s, t[0]), t[1..], u);
    }
  }

  /** If no SetPacketFormat call is past its test when the loop receives the notice, the flag
      only moves from Opened to Closing to Closed, and the one ControllerLeave finds it Closed. */
  lemma LifecycleInOrder(t: seq<Step>, u: seq<Step>)
    requires Runs(INIT, t + u) && QuietNotices(INIT, t + u)
    ensures Runs(INIT, t)
    ensures var now, later := Final(INIT, t), Final(INIT, t + u);
            && OnlyOne(later.flag) && Rank(now.flag) <= Rank(later.flag)
            && (now.flag.closed ==> later.flag == CLOSED)
            && later.leaves <= 1 && (later.leaves == 1 ==> later.flag == CLOSED)
  {
    QuietSplit(INIT, t, u);
    RunOrderly(INIT, t);
    Reached(t);
    RunOrderly(Final(INIT, t), u);
    Reached(t + u);
  }

  // ---------- without calls from elsewhere ----------

  /** Nobody calls SetPacketFormat. */
  ghost predicate NoSetFlag(t: seq<Step>) {
    forall e :: e in t ==> !e.SetFlag?
  }

  lemma NoUpdates(s: State, e: Step)
    requires s.updates == [] && Can(s, e) && !e.SetFlag?
    ensures Does(s, e).updates == []
  {
    match e
    case OfSender(i, x) =>
      SenderLeavesUpdates(s, i, x);
      hide SenderDoes;
    case OfLoop(x) =>
      LoopLeavesUpdates(s, x);
      hide LoopDoes;
    case _ =>
  }

  lemma SenderLeavesUpdates(s: State, i: nat, e: SenderStep)
    requires SenderCan(s, i, e)
    ensures SenderDoes(s, i, e).updates == s.updates
  {
    hide WrittenTo, LoopAfter;
  }

  lemma LoopLeavesUpdates(s: State, e: LoopStep)
    requires LoopCan(s, e)
    ensures LoopDoes(s, e).updates == s.updates
  {
    hide SliceBytes;
    match e
    case TestFlag => case TakeNext => case WriteSome(_) => case WriteFails(_) => case Handle(_) => case Notice =>
    case Exit => case TestClosing => case ResetBuffers => case CloseSend => case CloseClosed => case Wait =>
    case SetClosed => case Leave =>
  }

  lemma {:induction false} NoSetFlagIsQuiet(s: State, t: seq<Step>)
    requires Runs(s, t) && s.updates == [] && NoSetFlag(t)
    ensures QuietNotices(s, t)
    decreases |t|
  {
    hide Can, Does;
    if t != [] {
      assert t[0] in t && forall e :: e in t[1..] ==> e in t;
      NoUpdates(s, t[0]);
      NoSetFlagIsQuiet(Does(s, t[0]), t[1..]);
    }
  }

  /** With only the reader and the process loop at the flag it moves from Opened to Closing to
      Closed and never back, in every run, and the one ControllerLeave finds it Closed. */
  lemma Lifecycle(t: seq<Step>, u: seq<Step>)
    requires Runs(INIT, t + u) && NoSetFlag(t + u)
    ensures Runs(INIT, t)
    ensures var now, later := Final(INIT, t), Final(INIT, t + u);
            && OnlyOne(later.flag) && Rank(now.flag) <= Rank(later.flag)
            && (now.flag.closed ==> later.flag == CLOSED)
            && later.leaves <= 1 && (later.leaves == 1 ==> later.flag == CLOSED)
  {
    NoSetFlagIsQuiet(INIT, t + u);
    LifecycleInOrder(t, u);
  }

  // ---------- to the end ----------

  /** The loop's own step on its way out, and where it leads. */
  function StepOut(l: Loop): LoopStep {
    match l
    case Testing => TestFlag
    case AtClose => TestClosing
    case AtReset => ResetBuffers
    case AtCloseSend => CloseSend
    case AtCloseClosed => CloseClosed
    case AtWait => Wait
    case AtClosed => SetClosed
    case _ => Leave
  }

  function LoopOut(l: Loop): Loop {
    match l
    case Testing => AtClose
    case AtClose => AtReset
    case AtReset => AtCloseSend
    case AtCloseSend => AtCloseClosed
    case AtCloseClosed => AtWait
    case AtWait => AtClosed
    case AtClosed => AtLeave
    case _ => Ended
  }

  function StepsOut(l: Loop): (r: seq<Step>)
    ensures r == [] <==> l == Ended
    decreases 8 - Stage(l)
  {
    if l == Ended then []
    else [OfLoop(StepOut(l))] + if Stage(LoopOut(l)) > Stage(l) then StepsOut(LoopOut(l)) else []
  }

  /** Told to stop, and nobody left to wait for. */
  predicate WayOut(s: State) {
    && s.leaves == 0 && Closes(s) && s.reader == Stopped && !s.alive
    && if s.loop == AtLeave then s.flag == CLOSED
       else s.flag.closing && !s.flag.open && (s.loop == Testing || 1 <= Stage(s.loop) <= 6)
  }

  lemma OneStepOut(s: State)
    requires WayOut(s)
    ensures LoopCan(s, StepOut(s.loop)) && Stage(LoopOut(s.loop)) > Stage(s.loop)
    ensures var n := LoopDoes(s, StepOut(s.loop));
            && n.loop == LoopOut(s.loop)
            && if s.loop == AtLeave then n.leaves == 1 && n.flag == CLOSED && n.sendClosed && n.closedClosed
               else WayOut(n)
  {
  }

  lemma StepsOutNext(l: Loop)
    requires Stage(LoopOut(l)) > Stage(l)
    ensures StepsOut(l) == [OfLoop(StepOut(l))] + StepsOut(LoopOut(l))
  {
  }

  lemma {:induction false} GoesOut(s: State)
    requires WayOut(s)
    ensures Runs(s, StepsOut(s.loop))
    ensures var n := Final(s, StepsOut(s.loop)); n.leaves == 1 && n.flag == CLOSED && n.sendClosed && n.closedClosed
    decreases 8 - Stage(s.loop)
  {
    hide LoopDoes, LoopCan, WayOut, StepsOut;
    OneStepOut(s);
    StepsOutNext(s.loop);
    var n, rest := LoopDoes(s, StepOut(s.loop)), StepsOut(LoopOut(s.loop));
    RunOne(s, OfLoop(StepOut(s.loop)));
    if s.loop == AtLeave {
      assert rest == [] && Runs(n, []) && Final(n, []) == n;
    } else {
      GoesOut(n);
    }
    hide Runs, Final;
    RunJoin(s, [OfLoop(StepOut(s.loop))], rest);
  }

  /** Once the flag is Closing in such a run, the return of the alive check and then the loop's
      own steps close both channels, set the flag to Closed and leave. */
  lemma ClosingCompletes(t: seq<Step>)
    requires Runs(INIT, t) && (QuietNotices(INIT, t) || NoSetFlag(t)) && Final(INIT, t).flag.closing
    ensures var s := Final(INIT, t);
            var u := [AliveEnds] + StepsOut(s.loop);
            && Runs(s, u)
            && var n := Final(s, u); n.leaves == 1 && n.flag == CLOSED && n.sendClosed && n.closedClosed
  {
    if NoSetFlag(t) {
      NoSetFlagIsQuiet(INIT, t);
    }
    RunOrderly(INIT, t);
    Reached(t);
    hide Runs, Final, Connection, Counted;
    var s := Final(INIT, t);
    var n := s.(alive := false);
    assert WayOut(n);
    ThenOut(s);
  }

  lemma ThenOut(s: State)
    requires WayOut(s.(alive := false))
    ensures Runs(s, [AliveEnds] + StepsOut(s.loop))
    ensures var n := Final(s, [AliveEnds] + StepsOut(s.loop));
            n.leaves == 1 && n.flag == CLOSED && n.sendClosed && n.closedClosed
  {
    hide WayOut, StepsOut;
    GoesOut(s.(alive := false));
    var u, n := StepsOut(s.loop), Does(s, AliveEnds);
    assert n == s.(alive := false);
    hide Does, Can;
    RunOne(s, AliveEnds);
    RunJoin(s, [AliveEnds], u);
  }

  // ---------- out of order ----------

  /** A store that was pending when the loop received the notice. */
  lemma StoreReopens(s: State, j: nat)
    requires Inv(s) && LoopCan(s, Notice) && j < |s.updates| && s.updates[j].Store?
    ensures var closing := LoopDoes(s, Notice);
            && closing.flag == CLOSING
            && Runs(s, [OfLoop(Notice), UpdateFlag(j)])
            && Final(s, [OfLoop(Notice), UpdateFlag(j)]) == Does(closing, UpdateFlag(j))
            && Stuck(Does(closing, UpdateFlag(j)))
  {
    assert s.updates[j] in s.updates;
    var closing := Does(s, OfLoop(Notice));
    var n := Does(closing, UpdateFlag(j));
    assert forall u :: u in n.updates ==> u in s.updates || u == Done;
    RunOne(closing, UpdateFlag(j));
    assert [OfLoop(Notice), UpdateFlag(j)][1..] == [UpdateFlag(j)];
  }

  /** The steps from an update past its test to its store, with the notice in between. */
  function NoticeBetween(u: Update, j: nat): seq<Step> {
    (if u.Load? then [UpdateFlag(j)] else []) + [OfLoop(Notice), UpdateFlag(j)]
  }

  /** Any update past its test can undo the notice: its store makes the flag Opened again after
      it was Closing, and then, whatever happens next, the controller is never left. */
  lemma InFlightReopens(t: seq<Step>, j: nat, later: seq<Step>)
    requires Runs(INIT, t) && LoopCan(Final(INIT, t), Notice)
    requires j < |Final(INIT, t).updates| && PastTest(Final(INIT, t).updates[j])
    ensures var s := Final(INIT, t);
            var u := NoticeBetween(s.updates[j], j);
            && Runs(s, u) && Final(s, u).flag.open
            && (Runs(Final(s, u), later) ==>
                  var n := Final(Final(s, u), later); n.flag.open && n.leaves == 0)
  {
    Reached(t);
    var s := Final(INIT, t);
    var u := s.updates[j];
    var two := [OfLoop(Notice), UpdateFlag(j)];
    if u.Load? {
      var loaded := Does(s, UpdateFlag(j));
      StepKeeps(s, UpdateFlag(j));
      StoreReopens(loaded, j);
      assert ([UpdateFlag(j)] + two)[1..] == two;
    } else {
      StoreReopens(s, j);
      assert [] + two == two;
    }
    var n := Final(s, NoticeBetween(u, j));
    if Runs(n, later) {
      StuckForever(n, later);
    }
  }

  /** The loop runs, and nobody is left who could tell it to stop. */
  predicate Stuck(s: State) {
    s.flag.open && Early(s.loop) && s.reader == Stopped && s.notices == 0 && !s.connected && s.leaves == 0
    && AllStoreOpen(s.updates)
  }

  lemma {:induction false} StuckForever(s: State, t: seq<Step>)
    requires Stuck(s) && Runs(s, t)
    ensures Stuck(Final(s, t))
    decreases |t|
  {
    hide Stuck, Can, Does;
    if t != [] {
      StuckStep(s, t[0]);
      StuckForever(Does(s, t[0]), t[1..]);
    }
  }

  lemma StuckLoop(s: State, e: LoopStep)
    requires Stuck(s) && LoopCan(s, e)
    ensures Stuck(LoopDoes(s, e))
  {
    hide AllStoreOpen, SliceBytes;
    match e
    case TestFlag => case TakeNext => case WriteSome(_) => case WriteFails(_) => case Handle(_) => case Notice =>
    case Exit => case TestClosing => case ResetBuffers => case CloseSend => case CloseClosed => case Wait =>
    case SetClosed => case Leave =>
  }

  lemma StuckSender(s: State, i: nat, e: SenderStep)
    requires Stuck(s) && SenderCan(s, i, e)
    ensures Stuck(SenderDoes(s, i, e))
  {
    hide AllStoreOpen;
  }

  lemma StuckUpdate(s: State, j: nat)
    requires Stuck(s) && j < |s.updates|
    ensures Stuck(Does(s, UpdateFlag(j)))
  {
    assert s.updates[j] in s.updates;
    assert forall u :: u in Does(s, UpdateFlag(j)).updates ==> u in s.updates || u == Updated(s.updates[j], s.flag);
  }

  lemma StuckStep(s: State, e: Step)
    requires Stuck(s) && Can(s, e)
    ensures Stuck(Does(s, e))
  {
    match e
    case OfSender(i, x) =>
      StuckSender(s, i, x);
      hide Stuck, SenderDoes;
    case OfLoop(x) =>
      StuckLoop(s, x);
      hide Stuck, LoopDoes;
    case UpdateFlag(j) =>
      StuckUpdate(s, j);
      hide Stuck, Updated, FlagAfter;
    case _ =>
  }

  // ---------- some runs ----------

  /** A run, and the step before it. */
  lemma Before(s: State, e: Step, t: seq<Step>)
    requires Can(s, e) && Runs(Does(s, e), t)
    ensures Runs(s, [e] + t) && Final(s, [e] + t) == Final(Does(s, e), t)
  {
    assert ([e] + t)[1..] == t;
  }

  /** A SetPacketFormat call loads the flag, the peer closes, the loop receives the notice, and the
      call stores what it loaded. */
  function ReopeningRun(b: Bit): seq<Step> {
    [SetFlag(b)] + ([UpdateFlag(0)] + ([UpdateFlag(0)] + ([OfReader(Fail)] + ([OfReader(ExitAndNotify)] +
    ([OfLoop(TestFlag)] + ([OfLoop(Notice)] + ([UpdateFlag(0)] + [])))))))
  }

  /** Its states from the third step on. */
  function Loaded(b: Bit): State {
    INIT.(updates := [Store(b, OPENED)])
  }

  function Notified(b: Bit): State {
    Loaded(b).(reader := Stopped, connected := false, notices := 1)
  }

  function Restored(b: Bit): State {
    Notified(b).(flag := Raised(OPENED, b), notices := 0, updates := [Done])
  }

  lemma Loads(b: Bit, t: seq<Step>)
    requires Runs(Loaded(b), t)
    ensures var u := [SetFlag(b)] + ([UpdateFlag(0)] + ([UpdateFlag(0)] + t));
            Runs(INIT, u) && Final(INIT, u) == Final(Loaded(b), t)
  {
    var s1, s2 := INIT.(updates := [Test(b)]), INIT.(updates := [Load(b)]);
    assert Does(INIT, SetFlag(b)) == s1;
    assert Does(s1, UpdateFlag(0)) == s2;
    assert Does(s2, UpdateFlag(0)) == Loaded(b);
    hide Can, Does;
    Before(s2, UpdateFlag(0), t);
    Before(s1, UpdateFlag(0), [UpdateFlag(0)] + t);
    Before(INIT, SetFlag(b), [UpdateFlag(0)] + ([UpdateFlag(0)] + t));
  }

  lemma Notifies(b: Bit, t: seq<Step>)
    requires Runs(Notified(b), t)
    ensures var u := [OfReader(Fail)] + ([OfReader(ExitAndNotify)] + t);
            Runs(Loaded(b), u) && Final(Loaded(b), u) == Final(Notified(b), t)
  {
    var s := Loaded(b).(reader := Failing);
    assert Does(Loaded(b), OfReader(Fail)) == s;
    assert Does(s, OfReader(ExitAndNotify)) == Notified(b);
    hide Can, Does;
    Before(s, OfReader(ExitAndNotify), t);
    Before(Loaded(b), OfReader(Fail), [OfReader(ExitAndNotify)] + t);
  }

  lemma Selects(s: State)
    requires s.flag.open && s.loop == Testing
    ensures Can(s, OfLoop(TestFlag)) && Does(s, OfLoop(TestFlag)) == s.(loop := Selecting)
  {
  }

  lemma Notices(s: State)
    requires s.loop == Selecting && s.notices == 1
    ensures Can(s, OfLoop(Notice))
    ensures Does(s, OfLoop(Notice)) == s.(notices := 0, flag := CLOSING, loop := Testing)
  {
  }

  lemma StoresBack(b: Bit)
    ensures var s := Notified(b).(flag := CLOSING, notices := 0);
            Can(s, UpdateFlag(0)) && Does(s, UpdateFlag(0)) == Restored(b)
  {
  }

  lemma Restores(b: Bit)
    ensures var u := [OfLoop(TestFlag)] + ([OfLoop(Notice)] + ([UpdateFlag(0)] + []));
            Runs(Notified(b), u) && Final(Notified(b), u) == Restored(b)
  {
    hide Can, Does, Restored;
    var s1, s2 := Notified(b).(loop := Selecting), Notified(b).(flag := CLOSING, notices := 0);
    Selects(Notified(b));
    Notices(s1);
    StoresBack(b);
    Before(s2, UpdateFlag(0), []);
    Before(s1, OfLoop(Notice), [UpdateFlag(0)] + []);
    Before(Notified(b), OfLoop(TestFlag), [OfLoop(Notice)] + ([UpdateFlag(0)] + []));
  }

  /** This run leaves the flag Opened and the loop running for ever. */
  lemma Reopened(b: Bit)
    ensures Runs(INIT, ReopeningRun(b)) && Stuck(Final(INIT, ReopeningRun(b)))
  {
    assert Stuck(Restored(b));
    hide Can, Does, Stuck, Loaded, Notified, Restored;
    var t := [OfLoop(TestFlag)] + ([OfLoop(Notice)] + ([UpdateFlag(0)] + []));
    Restores(b);
    Notifies(b, t);
    Loads(b, [OfReader(Fail)] + ([OfReader(ExitAndNotify)] + t));
  }

  // ---------- the loop ends without leaving ----------

  /** The store may also come between the loop's last test of the flag and the one in Close. */
  function EndingSteps(): seq<Step> {
    [OfLoop(TestFlag)] + ([OfLoop(Notice)] + ([OfLoop(TestFlag)] + ([UpdateFlag(0)] + ([OfLoop(TestClosing)] + []))))
  }

  function EndingRun(b: Bit): seq<Step> {
    [SetFlag(b)] + ([UpdateFlag(0)] + ([UpdateFlag(0)] + ([OfReader(Fail)] + ([OfReader(ExitAndNotify)] +
    EndingSteps()))))
  }

  lemma StopsSelecting(s: State)
    requires !s.flag.open && s.loop == Testing
    ensures Can(s, OfLoop(TestFlag)) && Does(s, OfLoop(TestFlag)) == s.(loop := AtClose)
  {
  }

  lemma GivesUp(s: State)
    requires !s.flag.closing && s.loop == AtClose
    ensures Can(s, OfLoop(TestClosing)) && Does(s, OfLoop(TestClosing)) == s.(loop := Ended)
  {
  }

  lemma StoresAtClose(b: Bit)
    ensures var s := Notified(b).(flag := CLOSING, notices := 0, loop := AtClose);
            Can(s, UpdateFlag(0)) && Does(s, UpdateFlag(0)) == Restored(b).(loop := AtClose)
  {
  }

  lemma EndsWithoutLeaving(b: Bit)
    ensures Runs(Notified(b), EndingSteps()) && Final(Notified(b), EndingSteps()) == Restored(b).(loop := Ended)
  {
    var s0, s3 := Notified(b), Restored(b).(loop := AtClose);
    assert !s3.flag.closing;
    hide Can, Does, Restored;
    var s1, s2 := s0.(loop := Selecting), s0.(flag := CLOSING, notices := 0);
    Selects(s0);
    Notices(s1);
    StopsSelecting(s2);
    StoresAtClose(b);
    GivesUp(s3);
    Before(s3, OfLoop(TestClosing), []);
    var t: seq<Step> := [OfLoop(TestClosing)] + [];
    Before(s2.(loop := AtClose), UpdateFlag(0), t);
    t := [UpdateFlag(0)] + t;
    Before(s2, OfLoop(TestFlag), t);
    t := [OfLoop(TestFlag)] + t;
    Before(s1, OfLoop(Notice), t);
    t := [OfLoop(Notice)] + t;
    Before(s0, OfLoop(TestFlag), t);
  }

  lemma EndedStep(s: State, e: Step)
    requires s.loop == Ended && Can(s, e)
    ensures Does(s, e).loop == Ended && Does(s, e).leaves == s.leaves
  {
    match e
    case OfSender(i, x) =>
      EndedSender(s, i, x);
      hide SenderDoes;
    case OfReader(x) =>
      EndedReader(s, x);
      hide ReaderDoes;
    case _ =>
  }

  lemma EndedSender(s: State, i: nat, e: SenderStep)
    requires s.loop == Ended && SenderCan(s, i, e)
    ensures SenderDoes(s, i, e).loop == Ended && SenderDoes(s, i, e).leaves == s.leaves
  {
    hide WrittenTo, InFlight;
  }

  lemma EndedReader(s: State, e: ReaderStep)
    requires ReaderCan(s, e)
    ensures ReaderDoes(s, e).loop == s.loop && ReaderDoes(s, e).leaves == s.leaves
  {
    match e
    case Read => case RaiseFlag => case Determine => case Parsed => case Fail => case ExitAndNotify =>
  }

  lemma {:induction false} EndedForever(s: State, t: seq<Step>)
    requires s.loop == Ended && Runs(s, t)
    ensures Final(s, t).loop == Ended && Final(s, t).leaves == s.leaves
    decreases |t|
  {
    hide Can, Does;
    if t != [] {
      EndedStep(s, t[0]);
      EndedForever(Does(s, t[0]), t[1..]);
    }
  }

  /** Then the loop ends with the flag Opened, and the controller is never left. */
  lemma EndedUnleft(b: Bit, later: seq<Step>)
    ensures Runs(INIT, EndingRun(b))
    ensures var s := Final(INIT, EndingRun(b));
            && s.flag.open && s.loop == Ended
            && (Runs(s, later) ==> Final(s, later).leaves == 0)
  {
    assert Restored(b).flag.open && Restored(b).leaves == 0;
    hide Can, Does, Loaded, Notified, Restored, EndingSteps;
    EndsWithoutLeaving(b);
    Notifies(b, EndingSteps());
    Loads(b, [OfReader(Fail)] + ([OfReader(ExitAndNotify)] + EndingSteps()));
    var s := Final(INIT, EndingRun(b));
    if Runs(s, later) {
      EndedForever(s, later);
    }
  }

  // ---------- reads ----------

  /** The reader's steps for a bit that is not set yet. */
  function RaiseSteps(t: seq<Step>): seq<Step> {
    [OfReader(RaiseFlag)] + ([OfReader(RaiseFlag)] + ([OfReader(RaiseFlag)] + t))
  }

  lemma Raises(s: State, b: Bit, t: seq<Step>)
    requires s.flag.open && !Has(s.flag, b) && s.reader == Updating(Test(b))
    requires Runs(s.(flag := Raised(s.flag, b), reader := Parsing), t)
    ensures Runs(s, RaiseSteps(t))
    ensures Final(s, RaiseSteps(t)) == Final(s.(flag := Raised(s.flag, b), reader := Parsing), t)
  {
    var e := OfReader(RaiseFlag);
    var s1 := Does(s, e);
    assert s1 == s.(reader := Updating(Load(b)));
    var s2 := Does(s1, e);
    assert s2 == s.(reader := Updating(Store(b, s.flag)));
    assert Does(s2, e) == s.(flag := Raised(s.flag, b), reader := Parsing);
    hide Can, Does;
    Before(s2, e, t);
    Before(s1, e, [e] + t);
    Before(s, e, [e] + ([e] + t));
  }

  /** The first read, from which the format is determined, and the callback of its packet. */
  function FirstReadRun(): seq<Step> {
    [OfReader(Read)] + RaiseSteps([OfReader(Determine)] + RaiseSteps([OfReader(Parsed)] +
    ([OfLoop(TestFlag)] + ([OfLoop(Handle(true))] + []))))
  }

  /** It raises both bits and leaves everything else as it was. */
  lemma FirstRead()
    ensures Runs(INIT, FirstReadRun())
    ensures Final(INIT, FirstReadRun()) == INIT.(flag := Flag(true, false, false, true, true))
  {
    var s1 := Does(INIT, OfReader(Read));
    assert s1 == INIT.(reader := Updating(Test(DataReceived)));
    var s2 := s1.(flag := Raised(s1.flag, DataReceived), reader := Parsing);
    var s3 := Does(s2, OfReader(Determine));
    assert s3 == s2.(reader := Updating(Test(Readyed)));
    var s4 := s3.(flag := Raised(s3.flag, Readyed), reader := Parsing);
    var s5 := Does(s4, OfReader(Parsed));
    var s6 := Does(s5, OfLoop(TestFlag));
    var s7 := Does(s6, OfLoop(Handle(true)));
    assert s7 == INIT.(flag := Flag(true, false, false, true, true));
    hide Can, Does;
    var t: seq<Step> := [];
    Before(s6, OfLoop(Handle(true)), t);
    t := [OfLoop(Handle(true))] + t;
    Before(s5, OfLoop(TestFlag), t);
    t := [OfLoop(TestFlag)] + t;
    Before(s4, OfReader(Parsed), t);
    t := [OfReader(Parsed)] + t;
    Raises(s3, Readyed, t);
    t := RaiseSteps(t);
    Before(s2, OfReader(Determine), t);
    t := [OfReader(Determine)] + t;
    Raises(s1, DataReceived, t);
    t := RaiseSteps(t);
    Before(INIT, OfReader(Read), t);
  }

  /** Later reads find the bit set and leave the flag alone. */
  lemma LaterRead(s: State)
    requires s.reader == Reading && s.flag.open && s.flag.dataReceived
    ensures var t := [OfReader(Read)] + ([OfReader(RaiseFlag)] + []);
            Runs(s, t) && Final(s, t) == s.(reader := Parsing)
  {
    var n := Does(s, OfReader(Read));
    assert n == s.(reader := Updating(Test(DataReceived)));
    assert Does(n, OfReader(RaiseFlag)) == s.(reader := Parsing);
    hide Can, Does;
    Before(n, OfReader(RaiseFlag), []);
    Before(s, OfReader(Read), [OfReader(RaiseFlag)] + []);
  }
}
