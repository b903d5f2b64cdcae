/** What every run of the TCP controller keeps: tokens and bytes are accounted for, and the wire
    carries the writes in order until a write overwrites the bytes in the loop's hands. */
module TcpConservation {
  import opened Bytes
  import opened Buffer
  import opened TcpController

  // ---------- what is outstanding ----------

  function Flatten(ws: seq<bytes>): bytes {
    if ws == [] then [] else Flatten(ws[..|ws| - 1]) + ws[|ws| - 1]
  }

  /** The token a SendBytes call still has to hand over. */
  function Token(x: Sender): nat {
    if x.Handing? then |x.data| else 0
  }

  /** The data of a call that got past its Write. */
  function Wrote(x: Sender): multiset<bytes> {
    if x.Handing? || x.Sent? || x.Panicked? then multiset{x.data} else multiset{}
  }

  function Outstanding(senders: seq<Sender>): nat {
    if senders == [] then 0 else Outstanding(senders[..|senders| - 1]) + Token(senders[|senders| - 1])
  }

  function AllWrote(senders: seq<Sender>): multiset<bytes> {
    if senders == [] then multiset{} else AllWrote(senders[..|senders| - 1]) + Wrote(senders[|senders| - 1])
  }

  lemma {:induction false} Replaced(senders: seq<Sender>, i: nat, x: Sender)
    requires i < |senders|
    ensures Outstanding(senders[i := x]) + Token(senders[i]) == Outstanding(senders) + Token(x)
    ensures AllWrote(senders[i := x]) + Wrote(senders[i]) == AllWrote(senders) + Wrote(x)
    decreases |senders|
  {
    hide Token, Wrote;
    var n := |senders| - 1;
    if i == n {
      assert senders[i := x][..n] == senders[..n];
    } else {
      assert senders[i := x][..n] == senders[..n][i := x];
      Replaced(senders[..n], i, x);
      var front, last := senders[..n], Wrote(senders[n]);
      assert AllWrote(front[i := x]) + last + Wrote(senders[i]) == AllWrote(front[i := x]) + Wrote(senders[i]) + last;
      assert AllWrote(front) + last + Wrote(x) == AllWrote(front) + Wrote(x) + last;
    }
  }

  lemma Appended(senders: seq<Sender>, ws: seq<bytes>, data: bytes)
    ensures Outstanding(senders + [Checking(data)]) == Outstanding(senders)
    ensures AllWrote(senders + [Checking(data)]) == AllWrote(senders)
    ensures Flatten(ws + [data]) == Flatten(ws) + data
  {
    assert (senders + [Checking(data)])[..|senders|] == senders;
    assert (ws + [data])[..|ws|] == ws;
  }

  // ---------- the invariant ----------

  predicate Early(l: Loop) {
    l.Testing? || l.Selecting? || l.Took? || l.Sending? || l.Exiting?
  }

  predicate BeforeReset(l: Loop) {
    Early(l) || l == AtClose || l == AtReset
  }

  predicate StoresOpen(u: Update) {
    u.Store? ==> u.loaded.open
  }

  predicate AllStoreOpen(us: seq<Update>) {
    forall u :: u in us ==> StoresOpen(u)
  }

  /** Nobody has closed anything, and no pending store will. */
  predicate AllOpen(s: State) {
    && s.flag.open && Early(s.loop)
    && (s.reader.Updating? ==> StoresOpen(s.reader.update))
    && AllStoreOpen(s.updates)
  }

  predicate Connection(s: State) {
    && (s.connected || s.reader != Stopped || s.notices > 0 ==> AllOpen(s))
    && (s.connected ==> s.notices == 0)
    && (s.notices > 0 ==> s.reader == Stopped && s.notices == 1)
    && (s.failed && s.connected ==> s.loop == Exiting)
  }

  /** The loop holds some bytes of the array, or of an array given up. */
  predicate Held(s: State) {
    s.loop.Sending? ==>
      match s.loop.slice
      case Shared(lo, hi) => lo < hi <= |s.bufSend.cells|
      case Own(rest) => rest != []
  }

  /** Every byte is accounted for, whatever its value. */
  predicate Counted(s: State) {
    && Held(s)
    && (BeforeReset(s.loop) ==>
          |Unread(s.bufSend)| == Outstanding(s.senders) + if s.loop.Took? then s.loop.token else 0)
    && (BeforeReset(s.loop) && !s.failed ==>
          |s.wire| + |InFlight(s)| + |Unread(s.bufSend)| == |Flatten(s.written)|)
    && |s.wire| <= |Flatten(s.written)|
    && multiset(s.written) == AllWrote(s.senders)
  }

  function Stage(l: Loop): nat {
    match l
    case AtClose => 1
    case AtReset => 2
    case AtCloseSend => 3
    case AtCloseClosed => 4
    case AtWait => 5
    case AtClosed => 6
    case AtLeave => 7
    case Ended => 8
    case _ => 0
  }

  /** Each channel is closed once, and the leave comes last. */
  predicate Closes(s: State) {
    var k := Stage(s.loop);
    && (4 <= k <= 7 ==> s.sendClosed) && (s.sendClosed ==> k >= 4)
    && (5 <= k <= 7 ==> s.closedClosed) && (s.closedClosed ==> k >= 5)
    && s.leaves <= 1 && (s.leaves == 1 ==> k == 8 && s.sendClosed && s.closedClosed)
  }

  predicate Inv(s: State) {
    Connection(s) && Counted(s) && Closes(s)
  }

  // ---------- a call's steps ----------

  lemma Cancel(a: multiset<bytes>, b: multiset<bytes>, c: multiset<bytes>)
    requires a + c == b + c
    ensures a == b
  {
    forall x: bytes
      ensures a[x] == b[x]
    {
      assert (a + c)[x] == (b + c)[x];
    }
  }

  /** A write leaves the loop's slice its length, and unless it overwrites, its bytes. */
  predicate Overwriting(s: State, i: nat)
    requires i < |s.senders|
  {
    && !s.failed && s.loop.Sending? && s.loop.slice.Shared?
    && RoomFor(s.bufSend, |s.senders[i].data|) != Fresh && s.loop.slice.hi <= |s.bufSend.cells|
    && Overwrites(s.bufSend, s.senders[i].data, s.loop.slice.lo, s.loop.slice.hi)
  }

  lemma WriteHolds(s: State, i: nat, capacity: nat)
    requires Held(s) && SenderCan(s, i, Write(capacity))
    ensures var n := SenderDoes(s, i, Write(capacity));
            && Held(n) && |InFlight(n)| == |InFlight(s)|
            && Unread(n.bufSend) == Unread(s.bufSend) + s.senders[i].data
            && (!s.failed ==> (InFlight(n) == InFlight(s) <==> !Overwriting(s, i)))
  {
    var data := s.senders[i].data;
    WriteAppends(s.bufSend, data, capacity);
    hide WrittenTo, Overwrites, Unread;
    if s.loop.Sending? && s.loop.slice.Shared? && RoomFor(s.bufSend, |data|) != Fresh {
      SliceKept(s.bufSend, data, capacity, s.loop.slice.lo, s.loop.slice.hi);
    }
  }

  lemma WriteCounted(s: State, i: nat, capacity: nat)
    requires Counted(s) && SenderCan(s, i, Write(capacity))
    ensures Counted(SenderDoes(s, i, Write(capacity)))
  {
    var data, next := s.senders[i].data, SenderDoes(s, i, Write(capacity));
    WriteHolds(s, i, capacity);
    Replaced(s.senders, i, Handing(data));
    Appended([], s.written, data);
    assert next.senders == s.senders[i := Handing(data)] && next.written == s.written + [data];
    assert next.wire == s.wire && next.failed == s.failed && BeforeReset(next.loop) == BeforeReset(s.loop);
    assert s.loop.Took? ==> next.loop == s.loop;
    hide Outstanding, AllWrote, Flatten, Unread, WrittenTo, InFlight, Held, SenderDoes, BeforeReset;
    assert AllWrote(next.senders) + multiset{} == AllWrote(next.senders);
    assert multiset(next.written) == multiset(s.written) + multiset{data};
  }

  lemma OtherCounted(s: State, i: nat, e: SenderStep)
    requires Counted(s) && Closes(s) && SenderCan(s, i, e) && !e.Write?
    ensures Counted(SenderDoes(s, i, e))
  {
    hide Outstanding, AllWrote, Flatten, Unread;
    var next := SenderDoes(s, i, e);
    Replaced(s.senders, i, next.senders[i]);
    Cancel(AllWrote(next.senders), AllWrote(s.senders), Wrote(s.senders[i]));
  }

  lemma SenderConnection(s: State, i: nat, e: SenderStep)
    requires Connection(s) && SenderCan(s, i, e)
    ensures Connection(SenderDoes(s, i, e))
  {
    hide AllStoreOpen, WrittenTo, InFlight;
  }

  lemma SenderCloses(s: State, i: nat, e: SenderStep)
    requires Closes(s) && SenderCan(s, i, e)
    ensures Closes(SenderDoes(s, i, e))
  {
    hide WrittenTo, InFlight;
  }

  lemma SenderKeeps(s: State, i: nat, e: SenderStep)
    requires Inv(s) && SenderCan(s, i, e)
    ensures Inv(SenderDoes(s, i, e))
  {
    SenderConnection(s, i, e);
    SenderCloses(s, i, e);
    if e.Write? {
      WriteCounted(s, i, e.capacity);
    } else {
      OtherCounted(s, i, e);
    }
    hide Connection, Counted, Closes, SenderDoes;
  }

  // ---------- the loop's steps ----------

  /** A token never asks for more than bufSend holds. */
  lemma TakeCounted(s: State)
    requires Counted(s) && s.loop.Took?
    ensures Counted(Taken(s, s.loop.token)) && |Unread(s.bufSend)| >= s.loop.token
  {
    hide Outstanding, AllWrote, Flatten;
  }

  lemma WritesCounted(s: State, e: LoopStep)
    requires Counted(s) && Connection(s) && LoopCan(s, e) && (e.WriteSome? || e.WriteFails?)
    ensures Counted(LoopDoes(s, e))
  {
    hide Outstanding, AllWrote, Flatten, Unread, AllOpen;
  }

  lemma LoopCounted(s: State, e: LoopStep)
    requires Inv(s) && LoopCan(s, e)
    ensures Counted(LoopDoes(s, e))
  {
    hide Outstanding, AllWrote, Flatten;
    if e == TakeNext {
      TakeCounted(s);
      hide Connection, Closes, Counted, Taken;
    } else if e.WriteSome? || e.WriteFails? {
      WritesCounted(s, e);
      hide Connection, Closes, Counted, LoopDoes;
    } else {
      hide Connection, Closes, Unread;
    }
  }

  lemma TakenConnection(s: State)
    requires Connection(s) && s.loop.Took?
    ensures Connection(Taken(s, s.loop.token))
  {
    hide AllStoreOpen;
    if s.loop.token == 0 {
      return;
    }
  }

  lemma LoopConnection(s: State, e: LoopStep)
    requires Connection(s) && LoopCan(s, e)
    ensures Connection(LoopDoes(s, e))
  {
    hide AllStoreOpen, InFlight;
    match e
    case TakeNext =>
      TakenConnection(s);
      hide Taken, Connection;
    case TestFlag => case WriteSome(_) => case WriteFails(_) => case Handle(_) => case Notice =>
    case Exit => case TestClosing => case ResetBuffers => case CloseSend => case CloseClosed => case Wait =>
    case SetClosed => case Leave =>
  }

  lemma LoopCloses(s: State, e: LoopStep)
    requires Closes(s) && LoopCan(s, e)
    ensures Closes(LoopDoes(s, e))
  {
    hide InFlight;
    match e
    case TestFlag => case TakeNext => case WriteSome(_) => case WriteFails(_) => case Handle(_) => case Notice =>
    case Exit => case TestClosing => case ResetBuffers => case CloseSend => case CloseClosed => case Wait =>
    case SetClosed => case Leave =>
  }

  lemma LoopKeeps(s: State, e: LoopStep)
    requires Inv(s) && LoopCan(s, e)
    ensures Inv(LoopDoes(s, e))
  {
    LoopConnection(s, e);
    LoopCounted(s, e);
    LoopCloses(s, e);
    hide Connection, Counted, Closes, LoopDoes;
  }

  // ---------- every step ----------

  lemma ReaderKeeps(s: State, e: ReaderStep)
    requires Inv(s) && ReaderCan(s, e)
    ensures Inv(ReaderDoes(s, e))
  {
    hide Outstanding, AllWrote, Flatten, Unread;
  }

  lemma UpdateKeeps(s: State, j: nat)
    requires Inv(s) && j < |s.updates|
    ensures Inv(Does(s, UpdateFlag(j)))
  {
    hide Outstanding, AllWrote, Flatten, Unread;
    assert forall u :: u in Does(s, UpdateFlag(j)).updates ==> u in s.updates || u == Updated(s.updates[j], s.flag);
    assert s.updates[j] in s.updates;
  }

  lemma StepKeeps(s: State, e: Step)
    requires Inv(s) && Can(s, e)
    ensures Inv(Does(s, e))
  {
    hide Outstanding, AllWrote, Flatten, Unread, SenderCan, SenderDoes, LoopCan, LoopDoes, ReaderCan, ReaderDoes;
    match e
    case Call(data) => Appended(s.senders, [], data);
    case OfSender(i, x) => SenderKeeps(s, i, x);
    case OfLoop(x) => LoopKeeps(s, x);
    case OfReader(x) => ReaderKeeps(s, x);
    case SetFlag(b) =>
    case UpdateFlag(j) => UpdateKeeps(s, j);
    case Lost =>
    case AliveEnds =>
  }

  lemma {:induction false} RunKeeps(s: State, t: seq<Step>)
    requires Inv(s) && Runs(s, t)
    ensures Inv(Final(s, t))
    decreases |t|
  {
    hide Inv, Can, Does;
    if t != [] {
      StepKeeps(s, t[0]);
      RunKeeps(Does(s, t[0]), t[1..]);
    }
  }

  lemma Reached(t: seq<Step>)
    requires Runs(INIT, t)
    ensures Inv(Final(INIT, t))
  {
    RunKeeps(INIT, t);
  }

  // ---------- runs after runs ----------

  lemma {:induction false} RunSplit(s: State, t: seq<Step>, u: seq<Step>)
    requires Runs(s, t + u)
    ensures Runs(s, t) && Runs(Final(s, t), u) && Final(Final(s, t), u) == Final(s, t + u)
    decreases |t|
  {
    hide Can, Does;
    if t == [] {
      assert t + u == u;
    } else {
      assert (t + u)[1..] == t[1..] + u;
      RunSplit(Does(s, t[0]), t[1..], u);
    }
  }

  lemma {:induction false} RunJoin(s: State, t: seq<Step>, u: seq<Step>)
    requires Runs(s, t) && Runs(Final(s, t), u)
    ensures Runs(s, t + u) && Final(s, t + u) == Final(Final(s, t), u)
    decreases |t|
  {
    hide Can, Does;
    if t == [] {
      assert t + u == u;
    } else {
      assert (t + u)[1..] == t[1..] + u;
      RunJoin(Does(s, t[0]), t[1..], u);
    }
  }

  lemma RunOne(s: State, e: Step)
    requires Can(s, e)
    ensures Runs(s, [e]) && Final(s, [e]) == Does(s, e)
  {
    assert [e][1..] == [] && Runs(Does(s, e), []);
  }
}
