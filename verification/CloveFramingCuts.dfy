/** Which bytes the Clove framer reads the same way in all pieces. */
module CloveFramingCuts {
  import opened Bytes
  import opened Bits
  import opened Packets
  import opened Delivery
  import opened CloveFraming
  import opened CloveFramingTheorems

  // ---------- the condition ----------

  /** The first frame is whole and damaged. */
  predicate DamagedFirst(s: bytes) {
    !Waiting(s) && PacketLength(s) >= HEADER_LENGTH && ParseFromBytes(s[..PacketLength(s)]).Failed?
  }

  predicate Indifferent(s: bytes) {
    Steady(s) || DamagedFirst(s)
  }

  /** The same error or the same leftover, and the same packets. */
  predicate SameResult(a: Drained, b: Drained) {
    a.error == b.error && a.packets == b.packets && (a.error == None ==> a.rest == b.rest)
  }

  ghost predicate Pieces(s: bytes, chunks: seq<bytes>) {
    Concat(chunks) == s && forall c :: c in chunks ==> c != []
  }

  /** All pieces of s give what s gives in one piece. */
  ghost predicate AllSame(s: bytes) {
    forall chunks | Pieces(s, chunks) :: SameResult(Feed(Drain, [], chunks), Feed(Drain, [], [s]))
  }

  // ---------- enough ----------

  lemma FeedOne(s: bytes)
    ensures var d := Drain(s); Feed(Drain, [], [s]) == if d.error.Some? then Drained(d.error, [], d.rest) else d
  {
    hide Drain;
    var d := Drain(s);
    assert [] + s == s && [s][1..] == [];
    assert Feed(Drain, d.rest, []) == Drained(None, [], d.rest) && d.packets + [] == d.packets;
  }

  lemma DamageFound(s: bytes)
    requires DamagedFirst(s)
    ensures Drain(s) == Drained(Some(DataNotMatch), [], s[PacketLength(s)..])
  {
    var n := PacketLength(s);
    HeaderKept(s[..n], s[n..]);
    assert s[..n] + s[n..] == s;
    hide HeaderWord;
  }

  lemma DamageSeen(a: bytes, b: bytes)
    requires DamagedFirst(a + b)
    ensures if Waiting(a) then Drain(a) == Drained(None, [], a) else Drain(a).error == Some(DataNotMatch)
    ensures !Waiting(a) ==> DamagedFirst(a)
    ensures Drain(a).packets == []
  {
    hide PacketLength, HeaderWord;
    if !Waiting(a) {
      HeaderKept(a, b);
      assert (a + b)[..PacketLength(a)] == a[..PacketLength(a)];
      hide ParseFromBytes, Drain;
      DamageFound(a);
    }
  }

  /** A damaged first frame is an error in whatever call completes it, and no packet comes
      before it. */
  lemma {:induction false} DamageFirst(buffered: bytes, chunks: seq<bytes>)
    requires Waiting(buffered) && DamagedFirst(buffered + Concat(chunks))
    ensures var d := Feed(Drain, buffered, chunks); d.error == Some(DataNotMatch) && d.packets == []
    decreases |chunks|
  {
    hide Drain, DamagedFirst;
    if chunks == [] {
      assert buffered + Concat(chunks) == buffered;
      NotWaiting(buffered);
    } else {
      var first, rest := buffered + chunks[0], Concat(chunks[1..]);
      assert buffered + Concat(chunks) == first + rest;
      DamageSeen(first, rest);
      if Waiting(first) {
        DamageFirst(first, chunks[1..]);
      }
    }
  }

  lemma NotWaiting(s: bytes)
    requires DamagedFirst(s)
    ensures !Waiting(s)
  {
  }

  lemma IndifferentSame(s: bytes, chunks: seq<bytes>)
    requires Indifferent(s) && Pieces(s, chunks)
    ensures SameResult(Feed(Drain, [], chunks), Feed(Drain, [], [s]))
  {
    hide Drain, Steady, DamagedFirst, Feed;
    assert [] + s == s && Concat([s]) == s by {
      assert [s][1..] == [] && s + [] == s;
    }
    if Steady(s) {
      ChunkIndependence([], chunks);
      ChunkIndependence([], [s]);
    } else {
      DamageFirst([], chunks);
      DamageFirst([], [s]);
    }
  }

  // ---------- and necessary ----------

  /** Where to cut: before a damaged frame, or behind the header of a frame shorter than it. */
  function Cut(s: bytes): (k: nat)
    ensures k <= |s|
    decreases |s|
  {
    if Idle(s) || DamagedFirst(s) then 0
    else
      var n := PacketLength(s);
      if n < HEADER_LENGTH then HEADER_LENGTH else n + Cut(s[n..])
  }

  /** The two calls of such a delivery next to the one call. */
  ghost predicate Differs(d: Drained, e: Drained, one: Drained) {
    && d.error == None && d.packets == one.packets
    && if one.error.Some? then e.error.Some? else e.error.Some? || e.rest != one.rest
  }

  lemma {:induction false} CutDiffers(s: bytes)
    requires !Steady(s)
    ensures var a, b := s[..Cut(s)], s[Cut(s)..];
            Differs(Drain(a), Drain(Drain(a).rest + b), Drain(s))
    decreases |s|
  {
    hide ParseFromBytes, PacketLength, Drain, Differs;
    if DamagedFirst(s) {
      DamageDiffers(s);
    } else if PacketLength(s) < HEADER_LENGTH {
      ShortDiffers(s);
    } else {
      var n := PacketLength(s);
      var t := s[n..];
      CutDiffers(t);
      var a, b := t[..Cut(t)], t[Cut(t)..];
      assert Cut(s) == n + Cut(t);
      assert s[..n] + a == s[..Cut(s)] && s[Cut(s)..] == b && s == s[..n] + t;
      WholeFirst(s);
      DiffersLater(s[..n], a, b, t);
    }
  }

  lemma DamageDiffers(s: bytes)
    requires DamagedFirst(s)
    ensures Differs(Drain([]), Drain(Drain([]).rest + s), Drain(s))
    ensures s[..Cut(s)] == [] && s[Cut(s)..] == s
  {
    hide Drain, DamagedFirst;
    assert [] + s == s;
    DamageFound(s);
    NothingDrained();
  }

  lemma DiffersLater(first: bytes, a: bytes, b: bytes, t: bytes)
    requires |first| >= HEADER_LENGTH && PacketLength(first) == |first| && ParseFromBytes(first).Parsed?
    requires Differs(Drain(a), Drain(Drain(a).rest + b), Drain(t))
    ensures var d := Drain(first + a); Differs(d, Drain(d.rest + b), Drain(first + t))
  {
    hide ParseFromBytes, PacketLength, Drain;
    FirstDrained(first, a);
    FirstDrained(first, t);
  }

  lemma WholeFirst(s: bytes)
    requires !Waiting(s) && PacketLength(s) >= HEADER_LENGTH
    ensures PacketLength(s[..PacketLength(s)]) == PacketLength(s)
  {
    hide PacketLength;
    var n := PacketLength(s);
    HeaderKept(s[..n], s[n..]);
    assert s[..n] + s[n..] == s;
  }

  /** A short frame ends the call, so what is behind it is taken only if another read comes. */
  lemma ShortDiffers(s: bytes)
    requires !Steady(s) && PacketLength(s) < HEADER_LENGTH
    ensures var a, b := s[..HEADER_LENGTH], s[HEADER_LENGTH..];
            Differs(Drain(a), Drain(Drain(a).rest + b), Drain(s))
  {
    hide PacketLength, Drain, ParseFromBytes;
    var a, b, n := s[..HEADER_LENGTH], s[HEADER_LENGTH..], PacketLength(s);
    assert a + b == s && a[n..] + b == s[n..];
    HeaderKept(a, b);
    IdleDrain(a);
    IdleDrain(s);
    IdleDrain(s[n..]);
  }

  lemma NothingDrained()
    ensures Drain([]) == Drained(None, [], [])
  {
  }

  lemma FeedCut(a: bytes, b: bytes)
    requires Drain(a).error == None
    ensures var d := Drain(a);
            var e := Drain(d.rest + b);
            Feed(Drain, [], [a, b]) ==
            Drained(e.error, if e.error.Some? then d.packets else d.packets + e.packets, e.rest)
  {
    FeedTwo(Drain, a, b);
  }

  /** A damaged frame behind a whole one, or bytes behind a short frame, read differently in
      the two pieces. */
  lemma CutMatters(s: bytes)
    requires !Indifferent(s)
    ensures 0 < Cut(s) < |s|
    ensures !SameResult(Feed(Drain, [], [s[..Cut(s)], s[Cut(s)..]]), Feed(Drain, [], [s]))
  {
    hide Drain, Feed, Steady;
    var a, b := s[..Cut(s)], s[Cut(s)..];
    CutDiffers(s);
    CutInside(s);
    FeedCut(a, b);
    FeedOne(s);
    if Drain(s).error.Some? {
      PacketBefore(s);
    }
  }

  lemma {:induction false} CutInside(s: bytes)
    requires !Steady(s)
    ensures Cut(s) < |s| && (!DamagedFirst(s) ==> Cut(s) > 0)
    decreases |s|
  {
    hide ParseFromBytes, PacketLength;
    if !DamagedFirst(s) && PacketLength(s) >= HEADER_LENGTH {
      CutInside(s[PacketLength(s)..]);
    }
  }

  /** An error that is not the first frame's comes with packets of the same call, which are
      dropped. */
  lemma PacketBefore(s: bytes)
    requires !Steady(s) && !DamagedFirst(s) && Drain(s).error.Some?
    ensures Drain(s).packets != []
  {
    hide ParseFromBytes, PacketLength;
    IdleDrain(s);
  }

  /** The framer gives the same result for all pieces of s if and only if every whole frame
      parses up to a short one with nothing to take behind it, or the first frame is damaged. */
  lemma SameInAllPieces(s: bytes)
    ensures AllSame(s) <==> Indifferent(s)
  {
    hide Drain, Feed, Indifferent;
    if Indifferent(s) {
      forall chunks | Pieces(s, chunks) ensures SameResult(Feed(Drain, [], chunks), Feed(Drain, [], [s])) {
        IndifferentSame(s, chunks);
      }
    } else {
      CutMatters(s);
      var a, b := s[..Cut(s)], s[Cut(s)..];
      var one, two := [b], [a, b];
      assert two[1..] == one && one[1..] == [] && b + [] == b && a + b == s;
      assert Concat(one) == b + [] && Concat(two) == a + Concat(one);
      assert Pieces(s, two);
    }
  }

  // ---------- inputs ----------

  /** A packet and a damaged frame: the packet is lost if one read brings both, and delivered
      if each has its own. */
  lemma DamageLosesPacket(p: Packet, damaged: bytes)
    requires Framable(p) && DamagedFirst(damaged)
    ensures var one, two := Feed(Drain, [], [Packaged(p) + damaged]), Feed(Drain, [], [Packaged(p), damaged]);
            && one.error == two.error == Some(DataNotMatch)
            && one.packets == [] && two.packets == [p]
  {
    PackagedLength(p);
    hide Drain, Packaged, Framable, ParseFromBytes, PacketLength, Feed, DamagedFirst;
    FirstDrained(Packaged(p), damaged);
    FirstDrained(Packaged(p), []);
    assert Packaged(p) + [] == Packaged(p) && [] + damaged == damaged && [p] + [] == [p];
    DamageFound(damaged);
    NothingDrained();
    FeedOne(Packaged(p) + damaged);
    FeedCut(Packaged(p), damaged);
  }

  /** A frame of four bytes and five more bytes: in one read they are left in the buffer, in two
      they are an error. */
  lemma ShortFrameMatters()
    ensures var s := [MASK_FEATURE, 0, 0, 0, 4, 0, 0, 0, 5];
            && Feed(Drain, [], [s]) == Drained(None, [], s[4..])
            && Feed(Drain, [], [s[..5], s[5..]]).error == Some(DataNotMatch)
  {
    var s := [MASK_FEATURE, 0, 0, 0, 4, 0, 0, 0, 5];
    var a, b, r := s[..5], s[5..], s[4..];
    LengthOf(s, 4);
    LengthOf(a, 4);
    LengthOf(r, 5);
    hide Drain, PacketLength, HeaderWord, Feed;
    IdleDrain(s);
    IdleDrain(a);
    assert a[4..] + b == r;
    assert r[..5] == r && r[0] == 4 && And(4, MASK_FEATURE) == 0;
    DamageFound(r);
    FeedOne(s);
    FeedCut(a, b);
  }

  lemma LengthOf(s: bytes, n: byte)
    requires |s| >= 5 && s[1] == s[2] == s[3] == 0 && s[4] == n
    ensures PacketLength(s) == n
  {
    var w := s[1..HEADER_LENGTH];
    hide Uint;
    UintStep(w);
    UintStep(w[..3]);
    UintStep(w[..2]);
    UintStep(w[..1]);
    UintStep(w[..0]);
    assert w[..3][..2] == w[..2] && w[..2][..1] == w[..1] && w[..1][..0] == w[..0] == [];
  }
}
