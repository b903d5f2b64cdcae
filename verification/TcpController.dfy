/** The TCP controller (tcp/controller.go) as a machine of small steps: any number of SendBytes
    calls, the process loop, the reader, flag updates from elsewhere, and the connection. A run
    interleaves their steps in any order. */
module TcpController {
  import opened Bytes
  import opened Buffer

  // ---------- the flag ----------

  datatype Flag = Flag(open: bool, closing: bool, closed: bool, dataReceived: bool, readyed: bool)

  const OPENED := Flag(true, false, false, false, false)
  const CLOSING := Flag(false, true, false, false, false)
  const CLOSED := Flag(false, false, true, false, false)

  datatype Bit = DataReceived | Readyed

  predicate Has(f: Flag, b: Bit) {
    match b case DataReceived => f.dataReceived case Readyed => f.readyed
  }

  function Raised(f: Flag, b: Bit): Flag {
    match b case DataReceived => f.(dataReceived := true) case Readyed => f.(readyed := true)
  }

  /** setDataReceivedFlag and setReadyedFlag: the test, then the load and the store of `flag |= bit`. */
  datatype Update = Test(bit: Bit) | Load(bit: Bit) | Store(bit: Bit, loaded: Flag) | Done

  function Updated(u: Update, f: Flag): Update {
    match u
    case Test(b) => if f.open && !Has(f, b) then Load(b) else Done
    case Load(b) => Store(b, f)
    case _ => Done
  }

  function FlagAfter(u: Update, f: Flag): Flag {
    if u.Store? then Raised(u.loaded, u.bit) else f
  }

  // ---------- the state ----------

  /** One SendBytes call, by what it does next; the last three have returned true, false and,
      after a recovered panic, false. */
  datatype Sender =
    | Checking(data: bytes)
    | Writing(data: bytes)
    | Handing(data: bytes)
    | Sent(data: bytes)
    | Refused(data: bytes)
    | Panicked(data: bytes)

  /** The bytes in the loop's hands: a range of bufSend's array, as Next returned it, or the
      rest of an array that bufSend has given up since. */
  datatype Slice = Shared(lo: nat, hi: nat) | Own(rest: bytes)

  function SliceBytes(x: Slice, st: Storage): bytes {
    match x
    case Shared(lo, hi) => if lo <= hi <= |st.cells| then st.cells[lo..hi] else []
    case Own(rest) => rest
  }

  function Advanced(x: Slice, n: nat): Slice {
    match x
    case Shared(lo, hi) => Shared(lo + n, hi)
    case Own(rest) => Own(if n <= |rest| then rest[n..] else [])
  }

  datatype Loop =
    | Testing
    | Selecting
    | Took(token: nat)
    | Sending(slice: Slice)
    | Exiting
    | AtClose
    | AtReset
    | AtCloseSend
    | AtCloseClosed
    | AtWait
    | AtClosed
    | AtLeave
    | Ended

  datatype Reader = Reading | Updating(update: Update) | Parsing | Failing | Stopped

  /** `written` lists what SendBytes calls wrote to bufSend, in that order; `wire` is what
      conn.Write accepted; `alive` is the goroutine of tryAlive. */
  datatype State = State(
    flag: Flag, connected: bool, senders: seq<Sender>, loop: Loop, reader: Reader, alive: bool, updates: seq<Update>,
    notices: nat, sendClosed: bool, closedClosed: bool, bufSend: Storage,
    written: seq<bytes>, wire: bytes, failed: bool, leaves: nat)

  const INIT := State(OPENED, true, [], Testing, Reading, true, [], 0, false, false, EMPTY, [], [], false, 0)

  /** What conn.Write would send if it were called now. */
  function InFlight(s: State): bytes {
    if s.loop.Sending? then SliceBytes(s.loop.slice, s.bufSend) else []
  }

  // ---------- SendBytes ----------

  /** A Write may make bufSend allocate, with some capacity. */
  datatype SenderStep = Check | Write(capacity: nat) | HandOver | Panic

  predicate SenderCan(s: State, i: nat, e: SenderStep) {
    && i < |s.senders|
    && match e
       case Check => s.senders[i].Checking?
       case Write(_) => s.senders[i].Writing?
       case HandOver => s.senders[i].Handing? && s.loop == Selecting && !s.sendClosed
       case Panic => s.senders[i].Handing? && s.sendClosed
  }

  function SenderDoes(s: State, i: nat, e: SenderStep): State
    requires SenderCan(s, i, e)
  {
    var data := s.senders[i].data;
    match e
    case Check => s.(senders := s.senders[i := if s.flag.open then Writing(data) else Refused(data)])
    case Write(capacity) =>
      s.(senders := s.senders[i := Handing(data)], bufSend := WrittenTo(s.bufSend, data, capacity),
         loop := LoopAfter(s, data), written := s.written + [data])
    case HandOver => s.(senders := s.senders[i := Sent(data)], loop := Took(|data|))
    case Panic => s.(senders := s.senders[i := Panicked(data)])
  }

  /** A write into the same array happens under the loop's slice; a new array leaves the slice
      the old one. */
  function LoopAfter(s: State, data: bytes): Loop {
    if s.loop.Sending? && RoomFor(s.bufSend, |data|) == Fresh then Sending(Own(InFlight(s))) else s.loop
  }

  // ---------- the process loop and Close ----------

  /** A conn.Write reads its slice while others write, which several WriteSome of one byte each
      can show. WriteSome is a conn.Write without an error, WriteFails one with an error, or a
      SetWriteDeadline with one; Handle is a packet from chReceived and its callback. */
  datatype LoopStep =
    | TestFlag
    | TakeNext
    | WriteSome(n: nat)
    | WriteFails(n: nat)
    | Handle(ok: bool)
    | Notice
    | Exit
    | TestClosing
    | ResetBuffers
    | CloseSend
    | CloseClosed
    | Wait
    | SetClosed
    | Leave

  predicate LoopCan(s: State, e: LoopStep) {
    match e
    case TestFlag => s.loop == Testing
    case TakeNext => s.loop.Took?
    case WriteSome(n) => s.loop.Sending? && n <= |InFlight(s)| && s.connected
    case WriteFails(n) => s.loop.Sending? && n <= |InFlight(s)| && (n > 0 ==> s.connected)
    case Handle(_) => s.loop == Selecting
    case Notice => s.loop == Selecting && s.notices > 0
    case Exit => s.loop == Exiting
    case TestClosing => s.loop == AtClose
    case ResetBuffers => s.loop == AtReset
    case CloseSend => s.loop == AtCloseSend
    case CloseClosed => s.loop == AtCloseClosed
    case Wait => s.loop == AtWait && s.reader == Stopped && !s.alive
    case SetClosed => s.loop == AtClosed
    case Leave => s.loop == AtLeave
  }

  function LoopDoes(s: State, e: LoopStep): State
    requires LoopCan(s, e)
  {
    match e
    case TestFlag => s.(loop := if s.flag.open then Selecting else AtClose)
    case TakeNext => Taken(s, s.loop.token)
    case WriteSome(n) =>
      s.(wire := s.wire + InFlight(s)[..n],
         loop := if n < |InFlight(s)| then Sending(Advanced(s.loop.slice, n)) else Testing)
    case WriteFails(n) => s.(wire := s.wire + InFlight(s)[..n], loop := Exiting, failed := true)
    case Handle(ok) => s.(loop := if ok then Testing else Exiting)
    case Notice => s.(notices := s.notices - 1, flag := CLOSING, loop := Testing)
    case Exit => s.(connected := s.connected && !s.flag.open, loop := Testing)
    case TestClosing => s.(loop := if s.flag.closing then AtReset else Ended)
    case ResetBuffers => s.(bufSend := Block(s.bufSend.cells, 0, 0), loop := AtCloseSend)
    case CloseSend => s.(sendClosed := true, loop := AtCloseClosed)
    case CloseClosed => s.(closedClosed := true, loop := AtWait)
    case Wait => s.(loop := AtClosed)
    case SetClosed => s.(flag := CLOSED, loop := AtLeave)
    case Leave => s.(leaves := s.leaves + 1, loop := Ended)
  }

  /** A token asks for that many bytes of bufSend; a token of 0, or fewer bytes, ends in Exit. */
  function Taken(s: State, token: nat): State {
    if token == 0 then s.(loop := Exiting)
    else
      var st := s.bufSend;
      var n := if st.end - st.off < token then st.end - st.off else token;
      var next := s.(bufSend := Block(st.cells, st.off + n, st.end));
      if n != token then next.(loop := Exiting) else next.(loop := Sending(Shared(st.off, st.off + n)))
  }

  // ---------- the reader ----------

  datatype ReaderStep = Read | RaiseFlag | Determine | Parsed | Fail | ExitAndNotify

  predicate ReaderCan(s: State, e: ReaderStep) {
    match e
    case Read => s.reader == Reading
    case RaiseFlag => s.reader.Updating?
    case Determine => s.reader == Parsing
    case Parsed => s.reader == Parsing
    case Fail => s.reader == Reading || s.reader == Parsing
    case ExitAndNotify => s.reader == Failing
  }

  function ReaderDoes(s: State, e: ReaderStep): State
    requires ReaderCan(s, e)
  {
    match e
    case Read => s.(reader := Updating(Test(DataReceived)))
    case RaiseFlag =>
      var u := s.reader.update;
      var next := Updated(u, s.flag);
      s.(flag := FlagAfter(u, s.flag), reader := if next == Done then Parsing else Updating(next))
    case Determine => s.(reader := Updating(Test(Readyed)))
    case Parsed => s.(reader := Reading)
    case Fail => s.(reader := Failing)
    case ExitAndNotify =>
      if s.flag.open then s.(reader := Stopped, connected := false, notices := s.notices + 1) else s.(reader := Stopped)
  }

  // ---------- runs ----------

  /** SetFlag and UpdateFlag are SetPacketFormat calls from elsewhere; Lost is the peer, the
      alive check or another Exit closing the connection; AliveEnds is tryAlive returning. */
  datatype Step =
    | Call(data: bytes)
    | OfSender(i: nat, sender: SenderStep)
    | OfLoop(loop: LoopStep)
    | OfReader(reader: ReaderStep)
    | SetFlag(bit: Bit)
    | UpdateFlag(j: nat)
    | Lost
    | AliveEnds

  predicate Can(s: State, e: Step) {
    match e
    case OfSender(i, x) => SenderCan(s, i, x)
    case OfLoop(x) => LoopCan(s, x)
    case OfReader(x) => ReaderCan(s, x)
    case UpdateFlag(j) => j < |s.updates|
    case _ => true
  }

  function Does(s: State, e: Step): State
    requires Can(s, e)
  {
    match e
    case Call(data) => s.(senders := s.senders + [Checking(data)])
    case OfSender(i, x) => SenderDoes(s, i, x)
    case OfLoop(x) => LoopDoes(s, x)
    case OfReader(x) => ReaderDoes(s, x)
    case SetFlag(b) => s.(updates := s.updates + [Test(b)])
    case UpdateFlag(j) =>
      var u := s.updates[j];
      s.(flag := FlagAfter(u, s.flag), updates := s.updates[j := Updated(u, s.flag)])
    case Lost => s.(connected := false)
    case AliveEnds => s.(alive := false)
  }

  predicate Runs(s: State, t: seq<Step>)
    decreases |t|
  {
    t == [] || (Can(s, t[0]) && Runs(Does(s, t[0]), t[1..]))
  }

  function Final(s: State, t: seq<Step>): State
    requires Runs(s, t)
    decreases |t|
  {
    if t == [] then s else Final(Does(s, t[0]), t[1..])
  }
}
