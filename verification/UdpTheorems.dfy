/** What fragmentation and reassembly give together, and what the pipeline as built does. */
module UdpTheorems {
  import opened Bytes
  import opened Packets
  import opened Delivery
  import opened Detection
  import opened Udp
  import CloveFraming
  import opened CloveFramingTheorems

  // ---------- the pieces ----------

  function Concatenated(pieces: seq<bytes>): bytes {
    if pieces == [] then [] else Concatenated(pieces[..|pieces| - 1]) + pieces[|pieces| - 1]
  }

  lemma {:induction false} ConcatenatedFirst(first: bytes, pieces: seq<bytes>)
    ensures Concatenated([first] + pieces) == first + Concatenated(pieces)
    decreases |pieces|
  {
    if pieces == [] {
      assert [first] + [] == [first] && [first][..0] == [];
    } else {
      var all, n := [first] + pieces, |pieces| - 1;
      assert all[..|all| - 1] == [first] + pieces[..n] && all[|all| - 1] == pieces[n];
      ConcatenatedFirst(first, pieces[..n]);
      assert first + (Concatenated(pieces[..n]) + pieces[n]) == first + Concatenated(pieces[..n]) + pieces[n];
    }
  }

  /** Cutting loses nothing, and only the last piece may be short. */
  lemma {:induction false} CutWhole(data: bytes, size: nat)
    requires size > 0
    ensures var ps := Cut(data, size);
            && Concatenated(ps) == data
            && forall k :: 0 <= k < |ps| - 1 ==> |ps[k]| == size
    decreases |data|
  {
    hide Cut, Concatenated;
    CutNext(data, size);
    if data == [] {
      ConcatenatedNone();
    } else {
      var n := if |data| < size then |data| else size;
      CutWhole(data[n..], size);
      ConcatenatedFirst(data[..n], Cut(data[n..], size));
      if n < size {
        CutNext(data[n..], size);
      }
    }
  }

  lemma ConcatenatedNone()
    ensures Concatenated([]) == []
  {
  }

  // ---------- collecting ----------

  function AddAll(p: Pipeline, fs: seq<Fragment>): Pipeline {
    if fs == [] then p else Added(AddAll(p, fs[..|fs| - 1]), fs[|fs| - 1])
  }

  predicate Distinct(fs: seq<Fragment>) {
    forall i, j :: 0 <= i < j < |fs| ==> fs[i].idx != fs[j].idx
  }

  predicate Has(fs: seq<Fragment>, idx: nat) {
    exists j | 0 <= j < |fs| :: fs[j].idx == idx
  }

  /** The arrivals since the last one whose index was already collected, that one included. */
  function SinceRestart(fs: seq<Fragment>): seq<Fragment> {
    if fs == [] then []
    else
      var kept, last := SinceRestart(fs[..|fs| - 1]), fs[|fs| - 1];
      if Has(kept, last.idx) then [last] else kept + [last]
  }

  lemma {:induction false} Restarted(fs: seq<Fragment>)
    ensures Distinct(SinceRestart(fs)) && forall f :: f in SinceRestart(fs) ==> f in fs
    decreases |fs|
  {
    if fs != [] {
      var front, last := fs[..|fs| - 1], fs[|fs| - 1];
      Restarted(front);
      assert last in fs && forall f :: f in front ==> f in fs;
    }
  }

  lemma {:induction false} NoRestart(fs: seq<Fragment>)
    requires Distinct(fs)
    ensures SinceRestart(fs) == fs
    decreases |fs|
  {
    if fs != [] {
      NoRestart(fs[..|fs| - 1]);
    }
  }

  lemma AddedNew(p: Pipeline, f: Fragment)
    requires f.idx !in p.fragments && p.count == f.count
    ensures Added(p, f) == Pipeline(p.count, p.fragments[f.idx := f])
    ensures |Added(p, f).fragments| == |p.fragments| + 1
  {
    assert p.fragments[f.idx := f].Keys == p.fragments.Keys + {f.idx};
  }

  lemma AddedAgain(p: Pipeline, f: Fragment)
    requires f.idx in p.fragments && p.count == f.count
    ensures Added(p, f) == Pipeline(p.count, map[f.idx := f])
  {
  }

  /** p holds exactly the fragments fs. */
  ghost predicate Holds(p: Pipeline, fs: seq<Fragment>) {
    && |p.fragments| == |fs|
    && (forall i :: i in p.fragments <==> Has(fs, i))
    && forall i :: i in p.fragments ==> p.fragments[i] in fs && p.fragments[i].idx == i
  }

  lemma HoldsNext(p: Pipeline, fs: seq<Fragment>, f: Fragment)
    requires Holds(p, fs) && p.count == f.count
    ensures Added(p, f).count == p.count
    ensures Holds(Added(p, f), if Has(fs, f.idx) then [f] else fs + [f])
  {
    if f.idx in p.fragments {
      AddedAgain(p, f);
      assert [f][0] == f;
    } else {
      AddedNew(p, f);
      var all := fs + [f];
      assert all[|fs|] == f && forall j :: 0 <= j < |fs| ==> all[j] == fs[j];
    }
  }

  /** The pipeline keeps the fragments since the last repeated one. */
  lemma {:induction false} AllKept(n: nat, fs: seq<Fragment>)
    requires forall f :: f in fs ==> f.count == n
    ensures AddAll(Pipeline(n, map[]), fs).count == n
    ensures Holds(AddAll(Pipeline(n, map[]), fs), SinceRestart(fs))
    decreases |fs|
  {
    hide Added, Has;
    if fs == [] {
      NothingHas();
    } else {
      var front, last := fs[..|fs| - 1], fs[|fs| - 1];
      assert last in fs && forall f :: f in front ==> f in fs;
      AllKept(n, front);
      HoldsNext(AddAll(Pipeline(n, map[]), front), SinceRestart(front), last);
    }
  }

  lemma NothingHas()
    ensures forall i :: !Has([], i)
  {
  }

  function Below(n: nat): (r: set<nat>)
    ensures |r| == n && forall i: nat :: i in r <==> i < n
  {
    if n == 0 then {} else Below(n - 1) + {n - 1}
  }

  /** n different numbers below n are all of them. */
  lemma AllBelow(keys: set<nat>, n: nat)
    requires |keys| == n && forall i :: i in keys ==> i < n
    ensures forall i: nat :: i < n ==> i in keys
  {
    var all := Below(n);
    assert keys <= all;
    if i: nat :| i < n && i !in keys {
      assert keys <= all - {i};
      SubsetSize(keys, all - {i});
    }
  }

  lemma {:induction false} SubsetSize(a: set<nat>, b: set<nat>)
    requires a <= b
    ensures |a| <= |b|
    decreases a
  {
    if x :| x in a {
      SubsetSize(a - {x}, b - {x});
    }
  }

  lemma {:induction false} JoinedPieces(fragments: map<nat, Fragment>, pieces: seq<bytes>)
    requires AllThere(fragments, |pieces|)
    requires forall k :: 0 <= k < |pieces| ==> fragments[k].data == pieces[k]
    ensures Joined(fragments, |pieces|) == Concatenated(pieces)
    decreases |pieces|
  {
    if pieces != [] {
      JoinedPieces(fragments, pieces[..|pieces| - 1]);
    }
  }

  /** The fragments that reading makes of the datagrams of data. */
  function FragmentOf(pieces: seq<bytes>, k: nat): Fragment
    requires k < |pieces|
  {
    Fragment(|pieces[k]| % TWO16, k, |pieces|, pieces[k])
  }

  /** Fragments of one message, in whatever order and however often they arrive. */
  ghost predicate FragmentsOf(pieces: seq<bytes>, fs: seq<Fragment>) {
    forall f :: f in fs ==> f.idx < |pieces| && f == FragmentOf(pieces, f.idx)
  }

  /** Fragments with n different indices below n. */
  predicate Complete(fs: seq<Fragment>, n: nat) {
    forall k: nat :: k < n ==> Has(fs, k)
  }

  lemma CompleteIff(p: Pipeline, fs: seq<Fragment>, n: nat)
    requires Holds(p, fs) && forall i :: i in p.fragments ==> i < n
    ensures |fs| <= n && (Complete(fs, n) <==> |fs| == n)
  {
    hide Has;
    assert |p.fragments.Keys| == |p.fragments|;
    SubsetSize(p.fragments.Keys, Below(n));
    if |fs| == n {
      AllBelow(p.fragments.Keys, n);
    } else if Complete(fs, n) {
      SubsetSize(Below(n), p.fragments.Keys);
    }
  }

  /** A pipeline that knows the count parses exactly the bytes that were cut if and only if the
      fragments since the last repeated one are all of them, in any order; otherwise it says
      that there are not enough. */
  lemma Reassembles(data: bytes, size: nat, fs: seq<Fragment>, f: Format)
    requires size > 0 && data != [] && FragmentsOf(Cut(data, size), fs)
    ensures var n := |Cut(data, size)|;
            Combining(AddAll(Pipeline(n, map[]), fs), Some(f)) ==
            if Complete(SinceRestart(fs), n) then Parsing(f, data) else NotEnough
  {
    hide Cut, Parsing, Has, Complete;
    var pieces, kept := Cut(data, size), SinceRestart(fs);
    var n := |pieces|;
    AllKept(n, fs);
    Restarted(fs);
    var p := AddAll(Pipeline(n, map[]), fs);
    forall i | i in p.fragments ensures i < n && p.fragments[i].data == pieces[i] {
      assert p.fragments[i] in kept;
    }
    CompleteIff(p, kept, n);
    if |kept| == n {
      assert |p.fragments.Keys| == |p.fragments|;
      AllBelow(p.fragments.Keys, n);
      JoinedPieces(p.fragments, pieces);
      CutWhole(data, size);
    }
  }

  /** From the sender's datagrams to the receiver's fragments: with at most 65535 pieces every
      datagram reads back as its piece, at any receiver whose fragments are not smaller. */
  lemma SentFragmentsRead(data: bytes, size: nat, receiverSize: nat, k: nat)
    requires 0 < size <= receiverSize
    requires k < |Cut(data, size)| < TWO16
    ensures var pieces := Cut(data, size);
            Decoded(Datagram(k, |pieces| % TWO16, pieces[k]), receiverSize) == Part(FragmentOf(pieces, k))
  {
    hide Decoded, Datagram;
    var pieces := Cut(data, size);
    assert pieces[k] in pieces;
    ReadUndoesHeader(k, |pieces|, pieces[k], receiverSize);
  }

  /** The same from the datagrams on, read in any order and any number of times. */
  lemma DatagramsReassemble(data: bytes, size: nat, receiverSize: nat, order: seq<nat>, fs: seq<Fragment>, f: Format)
    requires 0 < size <= receiverSize && data != [] && |Cut(data, size)| < TWO16 && |fs| == |order|
    requires var pieces := Cut(data, size);
             forall k :: 0 <= k < |order| ==>
               && order[k] < |pieces|
               && Decoded(Datagram(order[k], |pieces| % TWO16, pieces[order[k]]), receiverSize) == Part(fs[k])
    ensures var n := |Cut(data, size)|;
            Combining(AddAll(Pipeline(n, map[]), fs), Some(f)) ==
            if Complete(SinceRestart(fs), n) then Parsing(f, data) else NotEnough
  {
    hide Cut, Decoded, Datagram, Combining, Parsing, AddAll, SinceRestart, Complete;
    forall k | 0 <= k < |order| ensures fs[k] == FragmentOf(Cut(data, size), order[k]) {
      SentFragmentsRead(data, size, receiverSize, order[k]);
    }
    Reassembles(data, size, fs, f);
  }

  /** A packaged Clove packet comes out of the parser as the one packet it was. */
  lemma PacketReassembled(p: Packet, f: Format)
    requires Framable(p) && f.parser == CloveParser
    ensures Parsing(f, Packaged(p)) == Combined([Some(p)])
  {
    PacketDrained(p);
    hide CloveFraming.Drain, Packaged, Framable;
    assert [p][..0] == [];
  }

  lemma PacketDrained(p: Packet)
    requires Framable(p)
    ensures CloveFraming.Drain(Packaged(p)) == Drained(None, [p], [])
  {
    hide CloveFraming.PacketLength, CloveFraming.ParseFromBytes, Packaged, Framable;
    PackagedLength(p);
    var s := Packaged(p);
    assert s[..|s|] == s && s[|s|..] == [];
  }

  // ---------- the pipeline as it is built ----------

  lemma {:induction false} CountStaysZero(fs: seq<Fragment>)
    ensures AddAll(Pipeline(0, map[]), fs).count == 0
    decreases |fs|
  {
    if fs != [] {
      CountStaysZero(fs[..|fs| - 1]);
    }
  }

  /** A pipeline starts with the count 0, which no fragment changes, so combining it never
      delivers a Clove packet, whatever has arrived. */
  lemma NothingCombined(fs: seq<Fragment>, f: Format)
    requires f.parser == CloveParser
    ensures Combining(AddAll(Pipeline(0, map[]), fs), Some(f)) == Combined([])
  {
    CountStaysZero(fs);
    assert Joined(AddAll(Pipeline(0, map[]), fs).fragments, 0) == [];
    assert CloveFraming.Drain([]) == Drained(None, [], []);
  }
}
