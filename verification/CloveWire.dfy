/** The Clove format in plain numbers: which bytes the encoder writes, and what the decoder makes
    of any bytes. */
module CloveWire {
  import opened Bytes
  import opened CloveCodec
  import opened CloveRoundTrip

  // ---------- numbers in either byte order ----------

  /** The k-th byte of n, the lowest being the 0th. */
  function ByteAt(n: nat, k: nat): byte
    decreases k
  {
    if k == 0 then n % 0x100 else ByteAt(n / 0x100, k - 1)
  }

  /** The low `width` bytes of n, highest first in big-endian order and lowest first otherwise. */
  function Field(order: ByteOrder, n: nat, width: nat): (r: bytes)
    ensures |r| == width
  {
    seq(width, i requires 0 <= i < width => ByteAt(n, if order == BigEndian then width - 1 - i else i))
  }

  lemma PutNext(order: ByteOrder, n: nat, width: nat)
    requires width > 0
    ensures PutUint(order, n, width) ==
            if order == BigEndian then PutUint(order, n / 0x100, width - 1) + [n % 0x100]
            else [n % 0x100] + PutUint(order, n / 0x100, width - 1)
  {
  }

  lemma FieldNext(order: ByteOrder, n: nat, width: nat)
    requires width > 0
    ensures Field(order, n, width) ==
            if order == BigEndian then Field(order, n / 0x100, width - 1) + [n % 0x100]
            else [n % 0x100] + Field(order, n / 0x100, width - 1)
  {
  }

  lemma {:induction false} PutIsField(order: ByteOrder, n: nat, width: nat)
    ensures PutUint(order, n, width) == Field(order, n, width)
    decreases width
  {
    if width > 0 {
      hide PutUint, Field;
      PutNext(order, n, width);
      FieldNext(order, n, width);
      PutIsField(order, n / 0x100, width - 1);
    }
  }

  lemma UintSplit(order: ByteOrder, s: bytes)
    requires s != []
    ensures Uint(order, s) / 0x100 == Uint(order, if order == BigEndian then s[..|s| - 1] else s[1..])
    ensures Uint(order, s) % 0x100 == if order == BigEndian then s[|s| - 1] else s[0]
  {
  }

  /** Uint reads the number that these bytes are the field of. */
  lemma {:induction false} FieldOfUint(order: ByteOrder, s: bytes)
    ensures Field(order, Uint(order, s), |s|) == s
    decreases |s|
  {
    if s != [] {
      hide Field, Uint;
      UintSplit(order, s);
      FieldNext(order, Uint(order, s), |s|);
      FieldOfUint(order, if order == BigEndian then s[..|s| - 1] else s[1..]);
    }
  }

  // ---------- what is written ----------

  /** A header that counts bytes, items or pairs. */
  function Counting(order: ByteOrder, tag: byte, n: nat): bytes
    requires tag < 0x20
  {
    if n < 0x100 then [0xa0 + tag, n]
    else if n < 0x1_0000 then [0xc0 + tag] + Field(order, n, 2)
    else [0xe0 + tag] + Field(order, n, 4)
  }

  function SpelledInt(order: ByteOrder, n: int): bytes
    requires -0x8000_0000_0000_0000 <= n < 0x1_0000_0000_0000_0000
  {
    if 0 <= n < 0x80 then [n]
    else if n < -0x8000_0000 then [0x87] + Field(order, n + 0x1_0000_0000_0000_0000, 8)
    else if n < -0x8000 then [0x85] + Field(order, n + 0x1_0000_0000, 4)
    else if n < -0x80 then [0x83] + Field(order, n + 0x1_0000, 2)
    else if n < 0 then [0x81] + Field(order, n + 0x100, 1)
    else if n < 0x100 then [0x82] + Field(order, n, 1)
    else if n < 0x1_0000 then [0x84] + Field(order, n, 2)
    else if n < 0x1_0000_0000 then [0x86] + Field(order, n, 4)
    else [0x88] + Field(order, n, 8)
  }

  ghost function Spelled(order: ByteOrder, v: Value): bytes
    requires Supported(v)
    decreases v, 0
  {
    match v
    case Nil => [0x8b]
    case Bool(b) => if b then [0x8c] else [0x8d]
    case Int(_, n) => SpelledInt(order, n)
    case Float32(bits) => [0x89] + Field(order, bits, 4)
    case Float64(bits) =>
      if bits < 0x1_0000_0000 then [0x89] + Field(order, bits, 4) else [0x8a] + Field(order, bits, 8)
    case Str(s) => Counting(order, 14, |s|) + s
    case Blob(s) => Counting(order, 15, |s|) + s
    case Map(entries) => Counting(order, 16, |NormEntries(entries)|) + SpelledPairs(order, entries)
    case List(items) => Counting(order, 17, |items|) + SpelledItems(order, items)
  }

  ghost function SpelledItems(order: ByteOrder, items: seq<Value>): bytes
    requires SupportedItems(items)
    decreases items, 1
  {
    if items == [] then [] else Spelled(order, items[0]) + SpelledItems(order, items[1..])
  }

  /** Each key before its value; pairs with a part that cannot be written are left out. */
  ghost function SpelledPairs(order: ByteOrder, entries: seq<Entry>): bytes
    requires SupportedEntries(entries)
    decreases entries, 1
  {
    if entries == [] then []
    else if Writable(entries[0]) then SpelledPair(order, entries[0]) + SpelledPairs(order, entries[1..])
    else SpelledPairs(order, entries[1..])
  }

  ghost function SpelledPair(order: ByteOrder, e: Entry): bytes
    requires SupportedEntry(e) && Writable(e)
    decreases e, 0
  {
    Spelled(order, e.key) + Spelled(order, e.val)
  }

  lemma CountingHeader(order: ByteOrder, tag: byte, n: nat)
    requires tag < 0x20
    ensures MakeHeaderAndLength(order, tag, n) == Counting(order, tag, n)
  {
    hide PutUint, Field;
    PutIsField(order, n, 2);
    PutIsField(order, n, 4);
  }

  lemma IntSpelled(order: ByteOrder, kind: IntKind, n: int)
    requires InKind(kind, n)
    ensures EncodeInt(order, n) == SpelledInt(order, n)
  {
    if !(0 <= n < 0x80) {
      PutIsField(order, IntPayload(n), TypeSize(IntTag(n)));
      hide PutUint, Field, InKind;
      PayloadIs(n);
      hide IntPayload;
    }
  }

  lemma PayloadIs(n: int)
    requires -0x8000_0000_0000_0000 <= n < 0x1_0000_0000_0000_0000
    ensures IntPayload(n) == if n >= 0 then n
                             else if n >= -0x80 then n + 0x100
                             else if n >= -0x8000 then n + 0x1_0000
                             else if n >= -0x8000_0000 then n + 0x1_0000_0000
                             else n + 0x1_0000_0000_0000_0000
  {
    if n < 0 {
      ModOnce(n, if n >= -0x80 then 0x100 else if n >= -0x8000 then TWO16 else if n >= -0x8000_0000 then TWO32
                 else TWO64);
    }
  }

  lemma ModOnce(n: int, m: nat)
    requires n + m >= 0 > n
    ensures n % m == n + m
  {
  }

  lemma ScalarSpelled(order: ByteOrder, v: Value)
    requires Supported(v) && !v.Map? && !v.List?
    ensures EncodeScalar(order, v) == Spelled(order, v)
  {
    hide PutUint, Field, SpelledInt, EncodeInt, Counting, MakeHeaderAndLength;
    match v
    case Int(kind, n) => IntSpelled(order, kind, n);
    case Float32(bits) => PutIsField(order, bits, 4);
    case Float64(bits) =>
      PutIsField(order, bits, 4);
      PutIsField(order, bits, 8);
    case Str(s) => CountingHeader(order, 14, |s|);
    case Blob(s) => CountingHeader(order, 15, |s|);
    case _ =>
  }

  /** The encoder writes these bytes, for every supported value. */
  lemma {:induction false} EncodedSpelled(order: ByteOrder, v: Value)
    requires Supported(v)
    ensures Encoding(order, v) == Some(Spelled(order, v))
    decreases v, 0
  {
    if v.List? {
      ItemsSpelled(order, v.items);
      CountingHeader(order, 17, |v.items|);
    } else if v.Map? {
      EntriesSpelled(order, v.entries);
      EntriesCount(order, v.entries);
      CountingHeader(order, 16, |NormEntries(v.entries)|);
    } else {
      ScalarSpelled(order, v);
    }
  }

  lemma {:induction false} ItemsSpelled(order: ByteOrder, items: seq<Value>)
    requires SupportedItems(items)
    ensures ItemsEncoding(order, items) == SpelledItems(order, items)
    decreases items, 1
  {
    hide Encoded, Spelled;
    if items != [] {
      EncodedSpelled(order, items[0]);
      ItemsSpelled(order, items[1..]);
    }
  }

  lemma {:induction false} EntriesSpelled(order: ByteOrder, entries: seq<Entry>)
    requires SupportedEntries(entries)
    ensures EntriesEncoding(order, entries).bytes == SpelledPairs(order, entries)
    decreases entries, 1
  {
    hide Encoded, Spelled, EntryEncoding, SupportedEntry;
    if entries != [] {
      WritableEncodes(order, entries[0]);
      EntriesSpelled(order, entries[1..]);
      if Writable(entries[0]) {
        PairSpelled(order, entries[0]);
      }
    }
  }

  lemma {:induction false} PairSpelled(order: ByteOrder, e: Entry)
    requires SupportedEntry(e) && Writable(e)
    ensures Encoded(order, e.key) + Encoded(order, e.val) == SpelledPair(order, e)
    decreases e, 0
  {
    hide Encoded, Spelled;
    EncodedSpelled(order, e.key);
    EncodedSpelled(order, e.val);
  }

  // ---------- what is read ----------

  /** How many bytes a header without a length announces. */
  function DefaultSize(tag: nat): nat {
    match tag
    case 1 => 1 case 2 => 1
    case 3 => 2 case 4 => 2
    case 5 => 4 case 6 => 4 case 9 => 4
    case 7 => 8 case 8 => 8 case 10 => 8
    case _ => 0
  }

  /** The announced length and the bytes behind it, for each of the four forms of a header. */
  function HeaderOf(order: ByteOrder, raw: bytes): Header
    requires raw != [] && raw[0] >= 0x80
  {
    var tag := raw[0] % 0x20;
    if raw[0] < 0xa0 then Header(tag, DefaultSize(tag), raw[1..])
    else if raw[0] < 0xc0 then if |raw| < 2 then Short else Header(tag, raw[1], raw[2..])
    else if raw[0] < 0xe0 then if |raw| < 3 then Short else Header(tag, Uint(order, raw[1..3]), raw[3..])
    else if |raw| < 5 then Short else Header(tag, Uint(order, raw[1..5]), raw[5..])
  }

  function Signed(u: nat, half: nat): Value {
    Int(KInt, if u < half then u else u - half - half)
  }

  /** What the bits u of a number are for its tag. */
  function Number(tag: nat, u: nat): Value {
    match tag
    case 1 => Signed(u, 0x80)
    case 3 => Signed(u, 0x8000)
    case 5 => Signed(u, 0x8000_0000)
    case 7 => Signed(u, 0x8000_0000_0000_0000)
    case 9 => Float32(u)
    case 10 => Float64(u)
    case _ => Int(KUint, u)
  }

  function BigNumber(s: bytes): int {
    match ParseInt(s) case Some(k) => k case None => 0
  }

  /** What a scalar element with n announced bytes yields. A number is read from as many bytes as
      it takes, however many were announced, and panics if there are fewer. */
  function Meaning(order: ByteOrder, tag: nat, n: nat, data: bytes, raw: bytes): Decoded
    requires n <= |data|
  {
    if 1 <= tag <= 10 then
      var size := DefaultSize(tag);
      if |data| < size then Recovered else Done(Number(tag, Uint(order, data[..size])), data[n..])
    else
      match tag
      case 11 => Done(Nil, data[n..])
      case 12 => Done(Bool(true), data)
      case 13 => Done(Bool(false), data)
      case 14 => Done(Str(data[..n]), data[n..])
      case 15 => Done(Blob(data[..n]), data[n..])
      case 18 => Done(Int(KInt, BigNumber(data[..n])), data[n..])
      case _ => Done(Nil, raw)
  }

  lemma SameSize(tag: nat)
    ensures TypeSize(tag) == DefaultSize(tag)
  {
  }

  lemma HeaderRead(order: ByteOrder, raw: bytes)
    requires raw != [] && raw[0] >= 0x80
    ensures ParseHeader(order, raw) == HeaderOf(order, raw)
  {
    hide Uint, TypeSize, DefaultSize;
    SameSize(raw[0] % 0x20);
  }

  lemma ScalarMeans(order: ByteOrder, tag: nat, n: nat, data: bytes, raw: bytes)
    requires n <= |data| < |raw| && tag !in {16, 17}
    ensures DecodeScalar(order, tag, n, data, raw) == Meaning(order, tag, n, data, raw)
  {
    hide Uint, ParseInt;
    if 1 <= tag <= 10 && |data| >= DefaultSize(tag) {
      UintBound(order, data[..DefaultSize(tag)]);
    }
  }

  lemma UintBound(order: ByteOrder, s: bytes)
    ensures |s| == 1 ==> Uint(order, s) < 0x100
    ensures |s| == 2 ==> Uint(order, s) < 0x1_0000
    ensures |s| == 4 ==> Uint(order, s) < 0x1_0000_0000
    ensures |s| == 8 ==> Uint(order, s) < 0x1_0000_0000_0000_0000
  {
    hide Uint;
    UintFits(order, s);
    WidthBounds(Uint(order, s));
  }

  /** The decoder on any bytes: a number of its own up to 0x7f, else an element by its header.
      The length comparison keeps the low 32 bits of what is there. */
  lemma DecodedMeans(order: ByteOrder, raw: bytes)
    ensures Decoding(order, raw) ==
            if raw == [] then Failed(DataTooShort, [])
            else if raw[0] < 0x80 then Done(Int(KInt, raw[0]), raw[1..])
            else
              var h := HeaderOf(order, raw);
              if h.Short? then Failed(HeaderTooShort, raw)
              else if h.tag == 16 then EntriesDecoding(order, h.data, h.count, [])
              else if h.tag == 17 then ItemsDecoding(order, h.data, h.count, [])
              else if |h.data| % 0x1_0000_0000 < h.count then Failed(HeaderTooShort, [])
              else Meaning(order, h.tag, h.count, h.data, raw)
  {
    hide ParseHeader, HeaderOf, DecodeScalar, Meaning, EntriesDecoding, ItemsDecoding;
    if raw != [] && raw[0] >= 0x80 {
      HeaderRead(order, raw);
      var h := ParseHeader(order, raw);
      if h.Header? {
        ElementBody(order, raw);
        if h.tag !in {16, 17} && |h.data| % 0x1_0000_0000 >= h.count {
          ScalarMeans(order, h.tag, h.count, h.data, raw);
        }
      } else {
        assert Decoding(order, raw) == ElementDecoding(order, raw);
      }
    }
  }

  /** One turn of the pair loop: the first element is the key, the second the value, and a map,
      a list or a byte slice as a key panics. */
  lemma PairMeans(order: ByteOrder, data: bytes, n: nat, m: seq<Entry>)
    requires n > 0
    ensures var k := Decoding(order, data);
            var v := Decoding(order, k.Remainder());
            EntriesDecoding(order, data, n, m) ==
            if k.Failed? then Failed(k.error, [])
            else if v.Failed? then Failed(v.error, [])
            else if k.Result().Map? || k.Result().List? || k.Result().Blob? then Recovered
            else EntriesDecoding(order, v.Remainder(), n - 1, Put(m, k.Result(), v.Result()))
  {
    hide Decoding, PairDecoding, EntriesDecoding;
    EntriesStep(order, data, n, m);
    PairStep(order, data);
  }

  // ---------- decimal numbers ----------

  /** The decimal digits of n. */
  function Digits(n: nat): (r: bytes)
    ensures r != [] && forall d :: d in r ==> 48 <= d <= 57
  {
    if n < 10 then [48 + n] else Digits(n / 10) + [48 + n % 10]
  }

  lemma {:induction false} DecimalDigits(n: nat)
    ensures Decimal(Digits(n)) == n
    decreases n
  {
    var s := Digits(n);
    var front := s[..|s| - 1];
    if n < 10 {
      assert front == [];
      assert Decimal(front) == 0;
    } else {
      DecimalDigits(n / 10);
      assert front == Digits(n / 10);
    }
    assert Decimal(s) == Decimal(front) * 10 + (s[|s| - 1] - 48);
  }

  /** A number in decimal digits, with or without a sign, is that number if an int64 can hold
      it, and an error otherwise. */
  lemma ParsesDecimal(sign: bytes, n: nat)
    requires sign in {[], [43], [45]}
    ensures var k: int := if sign == [45] then 0 - n else n;
            ParseInt(sign + Digits(n)) ==
            if -0x8000_0000_0000_0000 <= k < 0x8000_0000_0000_0000 then Some(k) else None
  {
    hide Digits;
    DecimalDigits(n);
    var s, digits := sign + Digits(n), Digits(n);
    assert sign == [] ==> s == digits && s[0] in digits;
    assert sign != [] ==> s[0] == sign[0] && s[1..] == digits;
    assert forall i :: 0 <= i < |digits| ==> digits[i] in digits;
  }

  /** Everything else is an error: no digits, or a byte that is no digit behind the sign. */
  lemma ParsesDigitsOnly(s: bytes)
    ensures var digits := if s != [] && s[0] in {43, 45} then s[1..] else s;
            digits == [] || (exists d :: d in digits && !(48 <= d <= 57)) ==> ParseInt(s) == None
  {
  }

  /** The big number element: up to 255 characters read as a decimal number, 0 for an error. */
  lemma BigNumberMeans(order: ByteOrder, s: bytes, r: bytes)
    requires |s| < 0x100 && |s| + |r| < 0x1_0000_0000
    ensures Decoding(order, [0xb2, |s|] + s + r) ==
            Done(Int(KInt, BigNumber(s)), r)
  {
    hide ParseInt, Decoding;
    var raw := [0xb2, |s|] + (s + r);
    assert raw == [0xb2, |s|] + s + r && raw[2..] == s + r;
    assert (s + r)[..|s|] == s && (s + r)[|s|..] == r;
    DecodedMeans(order, raw);
  }
}
