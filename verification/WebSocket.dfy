/** The WebSocket parser and packager (network/ws.go), over a buffer it unmasks in place. */
module WebSocket {
  import opened Bytes
  import opened Bits
  import opened Buffer
  import opened Packets
  import opened Delivery

  // ---------- one frame ----------

  function FieldLength(s: bytes): nat
    requires |s| >= 2
  {
    s[1] % 0x80
  }

  predicate IsMasked(s: bytes)
    requires |s| >= 2
  {
    s[1] >= 0x80
  }

  function HeadLength(s: bytes): nat
    requires |s| >= 2
  {
    (if FieldLength(s) == 126 then 4 else if FieldLength(s) == 127 then 10 else 2) + (if IsMasked(s) then 4 else 0)
  }

  /** The 64-bit length keeps its low 32 bits. */
  function DataLength(s: bytes): nat
    requires |s| >= 2 && |s| >= HeadLength(s)
  {
    if FieldLength(s) == 126 then Uint(BigEndian, s[2..4])
    else if FieldLength(s) == 127 then Uint(BigEndian, s[2..10]) % TWO32
    else FieldLength(s)
  }

  /** getFrameLengths: the whole frame's length, None while its header is incomplete. Reading
      the second byte of a shorter input panics. */
  function FrameLength(s: bytes): Option<nat>
    requires |s| >= 2
  {
    if |s| < HeadLength(s) then None else Some(HeadLength(s) + DataLength(s))
  }

  /** Some bytes of this frame are still missing. */
  predicate Incomplete(s: bytes)
    requires |s| >= 2
  {
    FrameLength(s) == None || FrameLength(s).value > |s|
  }

  function XorKey(payload: bytes, key: bytes): (r: bytes)
    requires |key| == 4
    ensures |r| == |payload|
  {
    seq(|payload|, i requires 0 <= i < |payload| => Xor(payload[i], key[i % 4]))
  }

  /** getPayloadData: the payload of a whole frame, unmasked. */
  function Payload(s: bytes): (r: bytes)
    requires |s| >= 2 && !Incomplete(s)
    ensures |r| == FrameLength(s).value - HeadLength(s)
  {
    var h, l := HeadLength(s), FrameLength(s).value;
    if IsMasked(s) then XorKey(s[h..l], s[h - 4..h]) else s[h..l]
  }

  // ---------- a message ----------

  datatype Check = Finished | NotFinished | Panics

  /** The loop of checkFinishFrame: a final frame counts from its first byte on. */
  function CheckFrames(s: bytes): Check
    decreases |s|
  {
    if s == [] then Panics
    else if s[0] >= 0x80 then Finished
    else if |s| < 2 then Panics
    else if Incomplete(s) then NotFinished
    else CheckFrames(s[FrameLength(s).value..])
  }

  function CheckFinish(s: bytes): Check {
    if |s| < 2 then NotFinished else CheckFrames(s)
  }

  datatype Accepted = Accepted(packet: Packet) | Refused(error: NetError)

  /** What one frame does to the packet being assembled. */
  function Accept(op: nat, recombining: bool, packet: Option<Packet>, payload: bytes): Accepted {
    if op == 0 then
      if !recombining || packet == None then Refused(DataIsDamage)
      else
        match packet.value
        case Text(t) => Accepted(Text(t + payload))
        case Binary(_, _, _, _, _, raw) => Accepted(packet.value.(raw := raw + payload))
        case Ping(d) => Accepted(Ping(d + payload))
        case _ => Refused(DataIsDamage)
    else if op == 1 then Accepted(Text(payload))
    else if op == 2 then Accepted(Binary(false, false, false, 0, 0, payload))
    else if op == 8 then Refused(ClientReqDisconnect)
    else if op == 9 then Accepted(Ping(payload))
    else Refused(DataIsDamage)
  }

  /** What ParseFromBytes returns, and the bytes it was given after unmasking in place. */
  datatype WsParsed = WsParsed(error: Option<NetError>, packet: Option<Packet>, consumed: nat, data: bytes)

  /** A recovered panic returns (nil, nil, 0), but what was unmasked stays unmasked. */
  function Nothing(data: bytes): WsParsed { WsParsed(None, None, 0, data) }

  /** The frame loop, with `front` already taken and unmasked. */
  function Frames(front: bytes, data: bytes, packet: Option<Packet>, recombining: bool): (r: WsParsed)
    requires packet.Some? ==> front != []
    ensures |r.data| == |front| + |data| && r.consumed <= |r.data|
    ensures r.packet.Some? && r.error == None ==> r.consumed > 0
    ensures r.error != Some(DataNotReady)
    decreases |data|
  {
    if |data| < 2 then Nothing(front + data)
    else
      var fin, op := data[0] >= 0x80, data[0] % 0x10;
      if Incomplete(data) then WsParsed(None, packet, |front|, front + data)
      else
        var front', rest := front + data[..HeadLength(data)] + Payload(data), data[FrameLength(data).value..];
        match Accept(op, recombining || !fin, packet, Payload(data))
        case Refused(e) => WsParsed(Some(e), None, 0, front' + rest)
        case Accepted(p) =>
          if fin then WsParsed(None, Some(p), |front'|, front' + rest)
          else Frames(front', rest, Some(p), true)
  }

  function Parsing(s: bytes): (r: WsParsed)
    ensures |r.data| == |s| && r.consumed <= |s|
    ensures r.packet.Some? && r.error == None ==> r.consumed > 0
    ensures r.error != Some(DataNotReady)
  {
    if CheckFinish(s) == Finished then Frames([], s, None, false) else Nothing(s)
  }

  // ---------- the buffer loop ----------

  function DrainWs(s: bytes): Drained
    decreases |s|
  {
    var r := Parsing(s);
    var rest := r.data[r.consumed..];
    if r.error.Some? then Drained(r.error, [], rest)
    else if r.packet == None then Drained(None, [], rest)
    else After([r.packet.value], DrainWs(rest))
  }

  // ---------- the methods ----------

  method GetFrameLengths(in_: array<byte>, lo: nat, hi: nat) returns (head: nat, total: int)
    requires lo + 2 <= hi <= in_.Length
    ensures head == HeadLength(in_[lo..hi])
    ensures total == match FrameLength(in_[lo..hi]) case None => -1 case Some(l) => l
  {
    SliceOfSlice(in_[..], lo, hi, 2, if hi - lo >= 4 then 4 else 2);
    SliceOfSlice(in_[..], lo, hi, 2, if hi - lo >= 10 then 10 else 2);
    assert in_[lo..hi][1] == in_[lo + 1];
    var maskBits := if in_[lo + 1] >= 0x80 then 4 else 0;
    var payloadLen := in_[lo + 1] % 0x80;
    head := (if payloadLen == 126 then 4 else if payloadLen == 127 then 10 else 2) + maskBits;
    if hi - lo < head {
      return head, -1;
    }
    var dataLen := payloadLen;
    if payloadLen == 126 {
      dataLen := Uint(BigEndian, in_[lo + 2..lo + 4]);
    } else if payloadLen == 127 {
      dataLen := Uint(BigEndian, in_[lo + 2..lo + 10]) % TWO32;
    }
    total := head + dataLen;
  }

  method CheckFinishFrame(in_: array<byte>, lo: nat, hi: nat) returns (r: Check)
    requires lo <= hi <= in_.Length
    ensures r == CheckFinish(in_[lo..hi])
  {
    if hi - lo < 2 {
      return NotFinished;
    }
    var p := lo;
    while true
      invariant lo <= p <= hi && CheckFrames(in_[p..hi]) == CheckFinish(in_[lo..hi])
      decreases hi - p
    {
      ghost var s := in_[p..hi];
      if p == hi {
        return Panics;
      }
      assert s[0] == in_[p];
      if in_[p] >= 0x80 {
        return Finished;
      }
      if hi - p < 2 {
        return Panics;
      }
      var h, l := GetFrameLengths(in_, p, hi);
      if l < 0 || hi - p < l {
        return NotFinished;
      }
      assert s[l..] == in_[p + l..hi];
      p := p + l;
    }
  }

  /** The mask loop of getPayloadData: the key lies before the payload in the same bytes. */
  method XorInPlace(in_: array<byte>, key: nat, from: nat, to: nat)
    requires key + 4 <= from <= to <= in_.Length
    modifies in_
    ensures in_[..] == old(in_[..from]) + XorKey(old(in_[from..to]), old(in_[key..key + 4])) + old(in_[to..])
  {
    hide Xor;
    ghost var before := in_[..];
    for i := 0 to to - from
      invariant forall j :: 0 <= j < in_.Length && !(from <= j < from + i) ==> in_[j] == before[j]
      invariant forall j :: 0 <= j < i ==> in_[from + j] == Xor(before[from + j], before[key + j % 4])
    {
      in_[from + i] := Xor(in_[from + i], in_[key + i % 4]);
    }
    XorredSlice(before, in_[..], key, from, to);
  }

  lemma XorredSlice(before: bytes, after: bytes, key: nat, from: nat, to: nat)
    requires key + 4 <= from <= to <= |before| == |after|
    requires forall j :: 0 <= j < |before| && !(from <= j < to) ==> after[j] == before[j]
    requires forall j :: 0 <= j < to - from ==> after[from + j] == Xor(before[from + j], before[key + j % 4])
    ensures after == before[..from] + XorKey(before[from..to], before[key..key + 4]) + before[to..]
  {
    hide Xor;
    var mid := XorKey(before[from..to], before[key..key + 4]);
    assert forall j :: 0 <= j < to - from ==> mid[j] == after[from + j];
    assert after[from..to] == mid && after[..from] == before[..from] && after[to..] == before[to..];
    assert after == after[..from] + after[from..to] + after[to..];
  }

  /** The payload is the tail of the frame; a masked one is unmasked where it lies. */
  method GetPayloadData(in_: array<byte>, lo: nat, hi: nat, h: nat, l: nat) returns (payload: bytes)
    requires lo + 2 <= hi <= in_.Length && !Incomplete(in_[lo..hi])
    requires h == HeadLength(in_[lo..hi]) && l == FrameLength(in_[lo..hi]).value
    modifies in_
    ensures payload == Payload(old(in_[lo..hi]))
    ensures in_[..] == old(in_[..lo + h]) + payload + old(in_[lo + l..])
  {
    hide Uint, XorKey;
    ghost var before := in_[..];
    assert in_[lo..hi][1] == in_[lo + 1];
    SliceOfSlice(before, lo, hi, h, l);
    if in_[lo + 1] >= 0x80 {
      SliceOfSlice(before, lo, hi, h - 4, h);
      XorInPlace(in_, lo + h - 4, lo + h, lo + l);
    }
    payload := in_[lo + h..lo + l];
    assert before == before[..lo + h] + before[lo + h..lo + l] + before[lo + l..];
  }

  lemma SliceOfSlice(s: bytes, lo: nat, hi: nat, i: nat, j: nat)
    requires lo <= hi <= |s| && i <= j <= hi - lo
    ensures s[lo..hi][i..j] == s[lo + i..lo + j]
  {
    var a, b := s[lo..hi][i..j], s[lo + i..lo + j];
    assert forall k :: 0 <= k < j - i ==> a[k] == b[k];
  }

  method ParseFromBytes(in_: array<byte>, lo: nat, hi: nat)
    returns (err: Option<NetError>, packet: Option<Packet>, readedLen: nat)
    requires lo <= hi <= in_.Length
    modifies in_
    ensures WsParsed(err, packet, readedLen, in_[lo..hi]) == Parsing(old(in_[lo..hi]))
    ensures in_[..lo] == old(in_[..lo]) && in_[hi..] == old(in_[hi..])
  {
    hide HeadLength, FrameLength, Payload, Accept, Frames, Parsing, CheckFinish, Nothing;
    packet, readedLen := None, 0;
    var recombining := false;
    ParsingUnfolded(in_[lo..hi]);
    ghost var r := Parsing(in_[lo..hi]);
    var check := CheckFinishFrame(in_, lo, hi);
    if check != Finished {
      return None, None, 0;
    }
    ghost var all := in_[..];
    while true
      invariant readedLen <= hi - lo && (packet.Some? ==> readedLen > 0)
      invariant in_[..lo] == all[..lo] && in_[hi..] == all[hi..]
      invariant r == Frames(in_[lo..lo + readedLen], in_[lo + readedLen..hi], packet, recombining)
      decreases hi - lo - readedLen
    {
      var p := lo + readedLen;
      ghost var now := in_[..];
      assert now[p..hi] == in_[p..hi] && now[lo..p] == in_[lo..p];
      NoFrame(now, lo, p, hi, packet, recombining);
      if hi - p < 2 {
        return None, None, 0;
      }
      assert now[p..hi][0] == in_[p];
      var fin, opCode := in_[p] / 0x80, in_[p] % 0x10;
      ghost var before := recombining;
      if fin == 0 {
        recombining := true;
      }
      assert recombining == (before || !(now[p..hi][0] >= 0x80));
      var h, l := GetFrameLengths(in_, p, hi);
      if l < 0 || hi - p < l {
        return None, packet, readedLen;
      }
      LengthsOrdered(now[p..hi]);
      var payloadData := GetPayloadData(in_, p, hi, h, l);
      TakenFrame(now, in_[..], lo, p, hi, h, l, payloadData);
      var a := Accept(opCode, recombining, packet, payloadData);
      OneFrame(now, in_[..], lo, p, hi, packet, before, h, l, a);
      readedLen := readedLen + l;
      if a.Refused? {
        return Some(a.error), None, 0;
      }
      packet := Some(a.packet);
      if fin == 1 {
        return None, packet, readedLen;
      }
    }
  }

  lemma ParsingUnfolded(s: bytes)
    ensures CheckFinish(s) == Finished ==> Parsing(s) == Frames([], s, None, false)
    ensures CheckFinish(s) != Finished ==> Parsing(s) == WsParsed(None, None, 0, s)
  {
  }

  lemma FramesUnfolded(front: bytes, data: bytes, packet: Option<Packet>, recombining: bool)
    requires packet.Some? ==> front != []
    ensures |data| < 2 ==> Frames(front, data, packet, recombining) == Nothing(front + data)
    ensures |data| >= 2 && Incomplete(data) ==>
              Frames(front, data, packet, recombining) == WsParsed(None, packet, |front|, front + data)
    ensures |data| >= 2 && !Incomplete(data) ==>
              var fin, payload := data[0] >= 0x80, Payload(data);
              var front', rest := front + data[..HeadLength(data)] + payload, data[FrameLength(data).value..];
              Frames(front, data, packet, recombining) ==
              match Accept(data[0] % 0x10, recombining || !fin, packet, payload)
              case Refused(e) => WsParsed(Some(e), None, 0, front' + rest)
              case Accepted(q) =>
                if fin then WsParsed(None, Some(q), |front'|, front' + rest) else Frames(front', rest, Some(q), true)
  {
  }

  /** The frame loop's exits before a frame is taken. */
  lemma NoFrame(s: bytes, lo: nat, p: nat, hi: nat, packet: Option<Packet>, recombining: bool)
    requires lo <= p <= hi <= |s| && (packet.Some? ==> lo < p)
    ensures hi - p < 2 ==> Frames(s[lo..p], s[p..hi], packet, recombining) == WsParsed(None, None, 0, s[lo..hi])
    ensures hi - p >= 2 && Incomplete(s[p..hi]) ==>
              Frames(s[lo..p], s[p..hi], packet, recombining) == WsParsed(None, packet, p - lo, s[lo..hi])
  {
    hide Accept, Payload, FrameLength, HeadLength, Frames;
    FramesUnfolded(s[lo..p], s[p..hi], packet, recombining);
    assert s[lo..p] + s[p..hi] == s[lo..hi];
  }

  /** The frame loop takes one frame, in the bytes' own positions. */
  lemma OneFrame(before: bytes, after: bytes, lo: nat, p: nat, hi: nat, packet: Option<Packet>, recombining: bool,
                 h: nat, l: nat, a: Accepted)
    requires lo <= p && p + 2 <= hi <= |before| == |after| && (packet.Some? ==> lo < p)
    requires var s := before[p..hi];
             && !Incomplete(s) && h == HeadLength(s) <= l == FrameLength(s).value <= hi - p
             && after[lo..p + l] == before[lo..p] + s[..h] + Payload(s)
             && after[p + l..hi] == s[l..]
             && a == Accept(s[0] % 0x10, recombining || !(s[0] >= 0x80), packet, Payload(s))
    ensures Frames(before[lo..p], before[p..hi], packet, recombining) ==
            if a.Refused? then WsParsed(Some(a.error), None, 0, after[lo..hi])
            else if before[p] >= 0x80 then WsParsed(None, Some(a.packet), p + l - lo, after[lo..hi])
            else Frames(after[lo..p + l], after[p + l..hi], Some(a.packet), true)
  {
    hide Accept, Payload, HeadLength, Frames;
    FramesUnfolded(before[lo..p], before[p..hi], packet, recombining);
    assert after[lo..p + l] + after[p + l..hi] == after[lo..hi];
  }

  lemma LengthsOrdered(s: bytes)
    requires |s| >= 2 && !Incomplete(s)
    ensures 2 <= HeadLength(s) <= FrameLength(s).value <= |s|
  {
  }

  /** The bytes around one unmasked payload. */
  lemma TakenFrame(before: bytes, after: bytes, lo: nat, p: nat, hi: nat, h: nat, l: nat, payload: bytes)
    requires lo <= p && h <= l && p + l <= hi <= |before| && |payload| == l - h
    requires after == before[..p + h] + payload + before[p + l..]
    ensures |after| == |before| && after[..lo] == before[..lo] && after[hi..] == before[hi..]
    ensures after[lo..p + l] == before[lo..p] + before[p..hi][..h] + payload
    ensures after[p + l..hi] == before[p..hi][l..]
  {
  }

  method ParseFromBuffer(b: StandardBuffer) returns (err: Option<NetError>, pcks: seq<Packet>)
    requires b.Valid()
    modifies b`off, b.buf
    ensures b.Valid() && Drained(err, pcks, b.Contents()) == DrainWs(old(b.Contents()))
  {
    hide Parsing;
    err, pcks := None, [];
    ghost var all := b.Contents();
    while true
      invariant b.Valid() && b.buf == old(b.buf)
      invariant DrainWs(all) == After(pcks, DrainWs(b.Contents()))
      decreases |b.Contents()|
    {
      ghost var s := b.Contents();
      var e, pck, l := ParseFromBytes(b.buf, b.off, b.end);
      assert b.Contents() == Parsing(s).data;
      DrainStep(pcks, s);
      if l > 0 {
        var taken, n := b.Next(l);
      }
      assert b.Contents() == Parsing(s).data[l..];
      if e == None {
        if pck.Some? {
          pcks := pcks + [pck.value];
        } else {
          return None, pcks;
        }
      } else if e == Some(DataNotReady) {
        return None, pcks;
      } else {
        return e, pcks;
      }
    }
  }

  lemma DrainStep(pcks: seq<Packet>, s: bytes)
    ensures var r := Parsing(s);
            var rest := r.data[r.consumed..];
            After(pcks, DrainWs(s)) ==
            if r.error.Some? then Drained(r.error, pcks, rest)
            else if r.packet == None then Drained(None, pcks, rest)
            else After(pcks + [r.packet.value], DrainWs(rest))
  {
    hide Parsing;
    var r := Parsing(s);
    if r.error == None && r.packet.Some? {
      var d := DrainWs(r.data[r.consumed..]);
      assert pcks + ([r.packet.value] + d.packets) == pcks + [r.packet.value] + d.packets;
    }
  }

  // ---------- packaging ----------

  /** Package: one final frame, unmasked, in the shortest of the three length forms. */
  function Package(p: Packet): bytes {
    var op := if p.Text? then 1 else if p.Binary? then 2 else if p.Ping? then 10 else 0;
    var raw := if p.Text? then p.text else if p.Binary? then p.raw else if p.Ping? then p.data else [];
    (if |raw| <= 125 then [0x80 + op, |raw|]
     else if |raw| <= 0xffff then [0x80 + op, 126] + PutUint(BigEndian, |raw|, 2)
     else [0x80 + op, 127] + PutUint(BigEndian, |raw|, 8))
    + raw
  }
}
