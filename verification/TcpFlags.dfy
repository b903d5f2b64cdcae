/** What the bits of the controller's flag tell, which the alive check reads. */
module TcpFlags {
  import opened Buffer
  import opened TcpController
  import opened TcpConservation
  import opened TcpLifecycle

  /** `received` and `determined` say whether a read came and the format was found. */
  predicate Tells(s: State, received: bool, determined: bool) {
    && s.updates == []
    && (s.flag.dataReceived ==> received) && (s.flag.readyed ==> determined)
    && (s.reader == Parsing ==> received)
    && (s.reader.Updating? ==> Underway(s.reader.update, s.flag, received, determined))
    && (s.flag.open && received && !Raising(s.reader, DataReceived) ==> s.flag.dataReceived)
    && (s.flag.open && determined && !Raising(s.reader, Readyed) ==> s.flag.readyed)
  }

  /** The reader is on its way to raise this bit. */
  predicate Raising(r: Reader, b: Bit) {
    r.Updating? && !r.update.Done? && r.update.bit == b
  }

  predicate Underway(u: Update, f: Flag, received: bool, determined: bool) {
    !u.Done? && received && (u.bit == Readyed ==> determined) && (u.Store? ==> u.loaded == f)
  }

  predicate Received(e: Step) {
    e == OfReader(Read)
  }

  predicate Found(e: Step) {
    e == OfReader(Determine)
  }

  lemma ReaderTells(s: State, e: ReaderStep, received: bool, determined: bool)
    requires Connection(s) && Tells(s, received, determined) && ReaderCan(s, e)
    ensures Tells(ReaderDoes(s, e), received || e == Read, determined || e == Determine)
  {
    match e
    case Read => case RaiseFlag => case Determine => case Parsed => case Fail => case ExitAndNotify =>
  }

  lemma LoopFlag(s: State, e: LoopStep)
    requires LoopCan(s, e)
    ensures var n := LoopDoes(s, e);
            && n.reader == s.reader
            && (e != Notice && e != SetClosed ==> n.flag == s.flag)
            && (e == Notice ==> s.notices > 0 && n.flag == CLOSING)
            && (e == SetClosed ==> s.loop == AtClosed && n.flag == CLOSED)
  {
    hide SliceBytes;
    match e
    case TestFlag => case TakeNext => case WriteSome(_) => case WriteFails(_) => case Handle(_) => case Notice =>
    case Exit => case TestClosing => case ResetBuffers => case CloseSend => case CloseClosed => case Wait =>
    case SetClosed => case Leave =>
  }

  lemma LoopTells(s: State, e: LoopStep, received: bool, determined: bool)
    requires Connection(s) && Tells(s, received, determined) && LoopCan(s, e)
    ensures Tells(LoopDoes(s, e), received, determined)
  {
    LoopFlag(s, e);
    LoopLeavesUpdates(s, e);
    hide LoopDoes, LoopCan;
  }

  lemma SenderTells(s: State, i: nat, e: SenderStep, received: bool, determined: bool)
    requires Tells(s, received, determined) && SenderCan(s, i, e)
    ensures Tells(SenderDoes(s, i, e), received, determined)
  {
    hide WrittenTo, LoopAfter;
  }

  lemma StepTells(s: State, e: Step, received: bool, determined: bool)
    requires Connection(s) && Tells(s, received, determined) && Can(s, e) && !e.SetFlag?
    ensures Tells(Does(s, e), received || Received(e), determined || Found(e))
  {
    match e
    case OfSender(i, x) =>
      SenderTells(s, i, x, received, determined);
      hide SenderDoes, Tells, Connection;
    case OfLoop(x) =>
      LoopTells(s, x, received, determined);
      hide LoopDoes, Tells, Connection;
    case OfReader(x) =>
      ReaderTells(s, x, received, determined);
      hide ReaderDoes, Tells, Connection;
    case _ =>
  }

  lemma {:induction false} RunTells(s: State, t: seq<Step>, received: bool, determined: bool)
    requires Inv(s) && Tells(s, received, determined) && Runs(s, t) && NoSetFlag(t)
    ensures Tells(Final(s, t), received || OfReader(Read) in t, determined || OfReader(Determine) in t)
    decreases |t|
  {
    hide Tells, Can, Does, Counted, Closes, Connection;
    if t != [] {
      assert t == [t[0]] + t[1..];
      StepTells(s, t[0], received, determined);
      StepKeeps(s, t[0]);
      RunTells(Does(s, t[0]), t[1..], received || Received(t[0]), determined || Found(t[0]));
    }
  }

  /** Without SetPacketFormat calls, while the flag is Opened and the reader is not raising a bit:
      the flag says that data was received if and only if a read came, and that the format is
      known if and only if it was determined. */
  lemma FlagsTell(t: seq<Step>)
    requires Runs(INIT, t) && NoSetFlag(t) && Final(INIT, t).flag.open && !Final(INIT, t).reader.Updating?
    ensures var f := Final(INIT, t).flag;
            (f.dataReceived <==> OfReader(Read) in t) && (f.readyed <==> OfReader(Determine) in t)
  {
    RunTells(INIT, t, false, false);
  }
}
