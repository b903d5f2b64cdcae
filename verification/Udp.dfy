/** UDP fragmentation (udp/controller.go, udp/udp.go): cutting data into numbered datagrams,
    reading their headers and putting the data together again. */
module Udp {
  import opened Bytes
  import opened Buffer
  import opened Packets
  import opened Detection
  import opened Parsers

  const HEADER_SIZE := 8
  const HEADER_PREFIX := 0x81
  const HEADER_SUFFIX := 0x80

  // ---------- cutting ----------

  function Cut(data: bytes, size: nat): (r: seq<bytes>)
    requires size > 0
    ensures forall p :: p in r ==> 0 < |p| <= size
    decreases |data|
  {
    if data == [] then []
    else if |data| <= size then [data]
    else [data[..size]] + Cut(data[size..], size)
  }

  /** One fragment on the wire; its length field keeps 16 bits. */
  function Datagram(idx: nat, count: nat, payload: bytes): bytes {
    [HEADER_PREFIX] + PutUint(BigEndian, idx, 2) + PutUint(BigEndian, count, 2)
    + PutUint(BigEndian, |payload| % TWO16, 2) + [HEADER_SUFFIX] + payload
  }

  lemma DivStep(n: nat, size: nat)
    requires 0 < size <= n
    ensures n / size == (n - size) / size + 1 && n % size == (n - size) % size
  {
    var q, r := (n - size) / size, (n - size) % size;
    assert n == (q + 1) * size + r;
    var d := n / size - (q + 1);
    assert d * size == r - n % size;
    assert d >= 1 ==> d * size >= size;
    assert d <= -1 ==> d * size <= 0 - size;
  }

  lemma {:induction false} CutCount(data: bytes, size: nat)
    requires size > 0
    ensures |Cut(data, size)| == |data| / size + if |data| % size > 0 then 1 else 0
    decreases |data|
  {
    if |data| > size {
      DivStep(|data|, size);
      CutCount(data[size..], size);
    } else if |data| == size {
      DivStep(size, size);
    }
  }

  lemma CutNext(data: bytes, size: nat)
    requires size > 0
    ensures data == [] ==> Cut(data, size) == []
    ensures data != [] ==>
              var n := if |data| < size then |data| else size;
              Cut(data, size) == [data[..n]] + Cut(data[n..], size)
  {
    assert data[..|data|] == data && data[|data|..] == [];
  }

  lemma Wraps(q: nat)
    ensures (q % TWO16 + 1) % TWO16 == (q + 1) % TWO16
  {
  }

  lemma WrappedCount(data: bytes, size: nat)
    requires size > 0
    ensures |Cut(data, size)| % TWO16 ==
            if |data| % size > 0 then (|data| / size % TWO16 + 1) % TWO16 else |data| / size % TWO16
  {
    CutCount(data, size);
    Wraps(|data| / size);
    hide Cut;
  }

  /** bytes.Reader's Read into the reused array. */
  method ReadPiece(rest: bytes, fragmentData: array<byte>) returns (payload: bytes, left: bytes)
    requires rest != [] && fragmentData.Length > 0
    modifies fragmentData
    ensures Cut(rest, fragmentData.Length) == [payload] + Cut(left, fragmentData.Length) && |left| < |rest|
  {
    hide Cut, Copied;
    var n := if |rest| < fragmentData.Length then |rest| else fragmentData.Length;
    Copy(fragmentData, 0, rest[..n]);
    CutNext(rest, fragmentData.Length);
    payload, left := fragmentData[..n], rest[n..];
    assert payload == rest[..n];
  }

  /** sendTo, up to the datagrams it hands to the socket: it fails exactly when the data needs
      more fragments than 16 bits can count, after sending as many as the wrapped count says. */
  method SendTo(data: bytes, fragmentSize: nat) returns (ok: bool, sent: seq<bytes>)
    requires fragmentSize > 0
    ensures var pieces := Cut(data, fragmentSize);
            var n := |pieces| % TWO16;
            && (ok <==> |pieces| < TWO16)
            && |sent| == n
            && forall k :: 0 <= k < n ==> sent[k] == Datagram(k, n, pieces[k])
  {
    hide Datagram, Cut, Copied;
    ghost var pieces := Cut(data, fragmentSize);
    var fragmentData := new byte[fragmentSize];
    var rest, idx := data, 0;
    var idxCount := |data| / fragmentSize % TWO16;
    if |data| % fragmentSize > 0 {
      idxCount := (idxCount + 1) % TWO16;
    }
    WrappedCount(data, fragmentSize);
    sent := [];
    while rest != []
      invariant idx <= idxCount == |pieces| % TWO16 && idx <= |pieces|
      invariant pieces[idx..] == Cut(rest, fragmentSize)
      invariant |sent| == idx
      invariant forall k :: 0 <= k < idx ==> sent[k] == Datagram(k, idxCount, pieces[k])
      decreases |rest|
    {
      var payload;
      payload, rest := ReadPiece(rest, fragmentData);
      if idx >= idxCount {
        return false, sent;
      }
      assert pieces[idx + 1..] == pieces[idx..][1..];
      sent := sent + [Datagram(idx, idxCount, payload)];
      idx := idx + 1;
    }
    CutNext(rest, fragmentSize);
    ok := true;
  }

  // ---------- reading ----------

  datatype Fragment = Fragment(length: nat, idx: nat, count: nat, data: bytes)

  datatype Datum = Whole(raw: bytes) | Part(fragment: Fragment)

  /** What read makes of one datagram in a buffer of fragmentSize + 8 bytes. */
  function Decoded(datagram: bytes, fragmentSize: nat): Datum {
    var n := if |datagram| < fragmentSize + HEADER_SIZE then |datagram| else fragmentSize + HEADER_SIZE;
    var buf := datagram[..n];
    if n < HEADER_SIZE || buf[0] != HEADER_PREFIX || buf[HEADER_SIZE - 1] != HEADER_SUFFIX then Whole(buf)
    else
      var length := Uint(BigEndian, buf[5..7]);
      if (length + HEADER_SIZE) % TWO16 != n % TWO16 then Whole(buf)
      else Part(Fragment(length, Uint(BigEndian, buf[1..3]), Uint(BigEndian, buf[3..5]), buf[HEADER_SIZE..]))
  }

  lemma DatagramParts(idx: nat, count: nat, payload: bytes)
    requires idx < TWO16 && count < TWO16
    ensures var d := Datagram(idx, count, payload);
            && |d| == HEADER_SIZE + |payload| && d[0] == HEADER_PREFIX && d[7] == HEADER_SUFFIX && d[8..] == payload
            && Uint(BigEndian, d[1..3]) == idx && Uint(BigEndian, d[3..5]) == count
            && Uint(BigEndian, d[5..7]) == |payload| % TWO16
  {
    hide PutUint, Uint;
    var d := Datagram(idx, count, payload);
    var a, b, c := PutUint(BigEndian, idx, 2), PutUint(BigEndian, count, 2), PutUint(BigEndian, |payload| % TWO16, 2);
    assert d[1..3] == a && d[3..5] == b && d[5..7] == c;
    WidthBounds(idx);
    WidthBounds(count);
    WidthBounds(|payload| % TWO16);
    UintPut(BigEndian, idx, 2);
    UintPut(BigEndian, count, 2);
    UintPut(BigEndian, |payload| % TWO16, 2);
  }

  /** Reading undoes the header exactly when the receiver's fragments are not smaller. */
  lemma ReadUndoesHeader(idx: nat, count: nat, payload: bytes, fragmentSize: nat)
    requires idx < TWO16 && count < TWO16
    ensures |payload| <= fragmentSize <==>
            Decoded(Datagram(idx, count, payload), fragmentSize)
            == Part(Fragment(|payload| % TWO16, idx, count, payload))
  {
    hide Datagram, Uint;
    DatagramParts(idx, count, payload);
    var d := Datagram(idx, count, payload);
    var n := if |d| < fragmentSize + HEADER_SIZE then |d| else fragmentSize + HEADER_SIZE;
    var buf := d[..n];
    if n >= HEADER_SIZE {
      assert buf[1..3] == d[1..3] && buf[3..5] == d[3..5] && buf[5..7] == d[5..7];
    }
    if |payload| <= fragmentSize {
      assert buf == d;
    }
  }

  // ---------- putting together ----------

  /** The fields of a FragmentPipeline that change. */
  datatype Pipeline = Pipeline(count: nat, fragments: map<nat, Fragment>)

  /** A repeated index, or another count once there is one, starts the collection afresh. */
  function Added(p: Pipeline, f: Fragment): Pipeline {
    var kept := if f.idx in p.fragments then map[] else p.fragments;
    if p.count > 0 && p.count != f.count then Pipeline(f.count, map[f.idx := f])
    else Pipeline(p.count, kept[f.idx := f])
  }

  datatype Combination =
    | NotEnough
    | FormatNil
    | Corrupted
    | Unparsed(error: NetError)
    | Combined(packets: seq<Option<Packet>>)

  predicate AllThere(fragments: map<nat, Fragment>, n: nat) {
    forall i | 0 <= i < n :: i in fragments
  }

  function Joined(fragments: map<nat, Fragment>, n: nat): bytes
    requires AllThere(fragments, n)
  {
    if n == 0 then [] else Joined(fragments, n - 1) + fragments[n - 1].data
  }

  /** Packets of other types are left nil. */
  function BinaryOnly(ps: seq<Packet>): (r: seq<Option<Packet>>)
    ensures |r| == |ps|
    ensures forall k :: 0 <= k < |ps| ==> r[k] == if ps[k].Binary? then Some(ps[k]) else None
  {
    if ps == [] then [] else BinaryOnly(ps[..|ps| - 1]) + [if ps[|ps| - 1].Binary? then Some(ps[|ps| - 1]) else None]
  }

  function Parsing(f: Format, s: bytes): Combination {
    var d := Drains(f.parser, s);
    if d.error.Some? then Unparsed(d.error.value) else Combined(BinaryOnly(d.packets))
  }

  function Combining(p: Pipeline, format: Option<Format>): Combination {
    if |p.fragments| < p.count then NotEnough
    else if format == None then FormatNil
    else if !AllThere(p.fragments, p.count) then Corrupted
    else Parsing(format.value, Joined(p.fragments, p.count))
  }

  class FragmentPipeline {
    const packetFmt: Option<Format>
    var count: nat
    var fragments: map<nat, Fragment>

    ghost function State(): Pipeline
      reads this
    {
      Pipeline(count, fragments)
    }

    constructor (format: Option<Format>)
      ensures State() == Pipeline(0, map[]) && packetFmt == format
    {
      packetFmt := format;
      count, fragments := 0, map[];
    }

    method AddFragment(fragment: Fragment)
      modifies this
      ensures State() == Added(old(State()), fragment)
    {
      if fragment.idx in fragments {
        fragments := map[];
      }
      if count > 0 && count != fragment.count {
        fragments := map[];
        count := fragment.count;
      }
      fragments := fragments[fragment.idx := fragment];
    }

    method Combine() returns (r: Combination)
      ensures r == Combining(State(), packetFmt)
    {
      hide Drains;
      if |fragments| < count {
        return NotEnough;
      }
      if packetFmt == None {
        return FormatNil;
      }
      var buf := new StandardBuffer();
      for i := 0 to count
        invariant buf.Valid() && fresh(buf) && fresh(buf.buf)
        invariant AllThere(fragments, i) && buf.Contents() == Joined(fragments, i)
      {
        if i !in fragments {
          return Corrupted;
        }
        var n := buf.Write(fragments[i].data);
      }
      var err, pcks := ParseFromBuffer(packetFmt.value.parser, buf);
      if err.Some? {
        return Unparsed(err.value);
      }
      var topcks := [];
      for i := 0 to |pcks|
        invariant topcks == BinaryOnly(pcks[..i])
      {
        assert pcks[..i + 1][..i] == pcks[..i];
        topcks := topcks + [if pcks[i].Binary? then Some(pcks[i]) else None];
      }
      assert pcks[..|pcks|] == pcks;
      r := Combined(topcks);
    }
  }
}
