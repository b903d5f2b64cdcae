/** Messages cut into frames come back whole, whatever their masks and length forms, and
    however the bytes arrive as long as no final frame of a fragmented message is split. */
module WebSocketTheorems {
  import opened Bytes
  import opened Bits
  import opened WebSocket

  // ---------- frames, RFC 6455 section 5.2 ----------

  datatype Form = Short | Medium | Long

  /** A frame as a sender lays it out: `key` is the masking key, if the frame is masked. */
  datatype Frame = Frame(fin: bool, rsv: nat, op: nat, form: Form, key: Option<bytes>, payload: bytes)

  predicate ValidFrame(f: Frame) {
    && f.rsv < 8 && f.op < 0x10
    && (f.key.Some? ==> |f.key.value| == 4)
    && |f.payload| < (match f.form case Short => 126 case Medium => TWO16 case Long => TWO32)
  }

  /** The bytes sent. */
  function Wire(f: Frame): bytes
    requires ValidFrame(f)
  {
    Header(f) + if f.key.Some? then XorKey(f.payload, f.key.value) else f.payload
  }

  /** The same bytes with the payload unmasked. */
  function Plain(f: Frame): bytes
    requires ValidFrame(f)
  {
    Header(f) + f.payload
  }

  lemma XorKeyTwice(payload: bytes, key: bytes)
    requires |key| == 4
    ensures XorKey(XorKey(payload, key), key) == payload
  {
    hide Xor;
    var twice := XorKey(XorKey(payload, key), key);
    forall i | 0 <= i < |payload| ensures twice[i] == payload[i] {
      XorTwice(payload[i], key[i % 4]);
    }
  }

  lemma ExtendedLength(a: byte, b: byte, n: nat, width: nat, rest: bytes)
    requires FitsWidth(n, width)
    ensures var s := [a, b] + PutUint(BigEndian, n, width) + rest; Uint(BigEndian, s[2..2 + width]) == n
  {
    var s := [a, b] + PutUint(BigEndian, n, width) + rest;
    UintPut(BigEndian, n, width);
    assert s[2..2 + width] == PutUint(BigEndian, n, width);
  }

  function FirstByte(f: Frame): byte
    requires ValidFrame(f)
  {
    (if f.fin then 0x80 else 0) + f.rsv * 0x10 + f.op
  }

  function SecondByte(f: Frame): byte
    requires ValidFrame(f)
  {
    (if f.key.Some? then 0x80 else 0) + (match f.form case Short => |f.payload| case Medium => 126 case Long => 127)
  }

  function Extension(f: Frame): bytes
    requires ValidFrame(f)
  {
    match f.form
    case Short => []
    case Medium => PutUint(BigEndian, |f.payload|, 2)
    case Long => PutUint(BigEndian, |f.payload|, 8)
  }

  function Header(f: Frame): bytes
    requires ValidFrame(f)
  {
    [FirstByte(f), SecondByte(f)] + Extension(f) + (if f.key.Some? then f.key.value else [])
  }

  lemma FirstByteRead(f: Frame)
    requires ValidFrame(f)
    ensures FirstByte(f) >= 0x80 <==> f.fin
    ensures FirstByte(f) % 0x10 == f.op
  {
  }

  /** What the length functions read from a frame that starts with this header. */
  lemma HeaderRead(f: Frame, body: bytes)
    requires ValidFrame(f)
    ensures var s := Header(f) + body;
            && 2 <= |Header(f)| <= |s|
            && s[0] == FirstByte(f)
            && IsMasked(s) == f.key.Some? && HeadLength(s) == |Header(f)|
            && (f.key.Some? ==> |Header(f)| >= 4 && s[|Header(f)| - 4..|Header(f)|] == f.key.value)
            && FrameLength(s) == Some(|Header(f)| + |f.payload|)
  {
    hide PutUint, Uint, FitsWidth;
    var n, k := |f.payload|, if f.key.Some? then f.key.value else [];
    WidthBounds(n);
    assert Header(f) + body == [FirstByte(f), SecondByte(f)] + Extension(f) + (k + body);
    if f.form.Medium? {
      ExtendedLength(FirstByte(f), SecondByte(f), n, 2, k + body);
    } else if f.form.Long? {
      ExtendedLength(FirstByte(f), SecondByte(f), n, 8, k + body);
    }
  }

  // ---------- whole frames and incomplete ones ----------

  lemma WholeFrame(f: Frame, r: bytes)
    requires ValidFrame(f)
    ensures var s := Wire(f) + r;
            && |s| >= |Wire(f)| >= 2 && s[0] == FirstByte(f)
            && !Incomplete(s) && FrameLength(s).value == |Wire(f)| && s[|Wire(f)|..] == r
            && s[..HeadLength(s)] + Payload(s) == Plain(f) && Payload(s) == f.payload
            && |Plain(f)| == |Wire(f)|
  {
    hide HeadLength, FrameLength, XorKey, Header;
    var masked := if f.key.Some? then XorKey(f.payload, f.key.value) else f.payload;
    var s, h := Wire(f) + r, |Header(f)|;
    HeaderRead(f, masked + r);
    assert s == Header(f) + (masked + r);
    assert s[h..h + |f.payload|] == masked;
    if f.key.Some? {
      XorKeyTwice(f.payload, f.key.value);
    }
  }

  /** A strict prefix with a readable second byte is incomplete. */
  lemma PartialFrame(f: Frame, t: bytes)
    requires ValidFrame(f) && IsStrictPrefix(t, Wire(f)) && |t| >= 2
    ensures Incomplete(t) && t[0] == FirstByte(f)
  {
    HeaderRead(f, []);
    var h := Header(f);
    assert h + [] == h;
    assert t[0] == h[0] && t[1] == h[1];
    if |t| >= |h| {
      assert t == h + t[|h|..];
      HeaderRead(f, t[|h|..]);
    }
  }
}
