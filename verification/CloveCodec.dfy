/** The Clove value codec: a recursive tag/length/value encoding of Go values
    (codec/clove.go), on a 64-bit platform. */
module CloveCodec {
  import opened Bytes

  // ---------- values ----------

  datatype IntKind =
    | KInt | KInt8 | KInt16 | KInt32 | KInt64
    | KUint | KUint8 | KUint16 | KUint32 | KUint64

  /** A Go value held in an `interface{}`. Floats are their bit patterns. A map carries its
      pairs in the order one run of the iterator yields them; Unsupported stands for every
      type the encoder rejects. */
  datatype Value =
    | Nil
    | Bool(b: bool)
    | Int(kind: IntKind, n: int)
    | Float32(bits: nat)
    | Float64(bits: nat)
    | Str(s: bytes)
    | Blob(s: bytes)
    | Map(entries: seq<Entry>)
    | List(items: seq<Value>)
    | Unsupported

  datatype Entry = Entry(key: Value, val: Value)

  predicate InKind(kind: IntKind, n: int) {
    match kind
    case KInt8 => -0x80 <= n < 0x80
    case KInt16 => -0x8000 <= n < 0x8000
    case KInt32 => -0x8000_0000 <= n < 0x8000_0000
    case KInt64 => -0x8000_0000_0000_0000 <= n < 0x8000_0000_0000_0000
    case KInt => -0x8000_0000_0000_0000 <= n < 0x8000_0000_0000_0000
    case KUint8 => 0 <= n < 0x100
    case KUint16 => 0 <= n < TWO16
    case KUint32 => 0 <= n < TWO32
    case KUint64 => 0 <= n < TWO64
    case KUint => 0 <= n < TWO64
  }

  // ---------- Go maps ----------

  predicate Hashable(v: Value) {
    !v.Map? && !v.List? && !v.Blob?
  }

  predicate IsNaN32(bits: nat) { bits / 0x80_0000 % 0x100 == 0xff && bits % 0x80_0000 != 0 }
  predicate IsNaN64(bits: nat) { bits / 0x10_0000_0000_0000 % 0x800 == 0x7ff && bits % 0x10_0000_0000_0000 != 0 }

  /** Go's == on two hashable interface values: same dynamic type and equal value. */
  predicate KeyEq(a: Value, b: Value) {
    match (a, b)
    case (Float32(x), Float32(y)) =>
      !IsNaN32(x) && !IsNaN32(y) && (x == y || (x % 0x8000_0000 == 0 && y % 0x8000_0000 == 0))
    case (Float64(x), Float64(y)) =>
      !IsNaN64(x) && !IsNaN64(y) && (x == y || (x % 0x8000_0000_0000_0000 == 0 && y % 0x8000_0000_0000_0000 == 0))
    case _ => a == b
  }

  /** The Go assignment m[k] = v: an equal key keeps its place and gets the new spelling. */
  function Put(m: seq<Entry>, k: Value, v: Value): seq<Entry> {
    if m == [] then [Entry(k, v)]
    else if KeyEq(m[0].key, k) then [Entry(k, v)] + m[1..]
    else [m[0]] + Put(m[1..], k, v)
  }

  /** The Go lookup `v, ok := m[k]`. */
  function Lookup(m: seq<Entry>, k: Value): Option<Value> {
    if m == [] then None
    else if KeyEq(m[0].key, k) then Some(m[0].val)
    else Lookup(m[1..], k)
  }

  // ---------- tags ----------

  const INT8 := 1
  const UINT8 := 2
  const INT16 := 3
  const UINT16 := 4
  const INT32 := 5
  const UINT32 := 6
  const INT64 := 7
  const UINT64 := 8
  const FLOAT32 := 9
  const FLOAT64 := 10
  const NIL := 11
  const TRUE := 12
  const FALSE := 13
  const STRING := 14
  const BYTES := 15
  const MAP := 16
  const LIST := 17
  const BIG_NUMBER := 18
  const RESERVED := 19

  /** calculateCloveTypeSize: how many payload bytes a tag has by default. */
  function TypeSize(tag: nat): nat {
    if tag == INT8 || tag == UINT8 then 1
    else if tag == INT16 || tag == UINT16 then 2
    else if tag == FLOAT32 || tag == INT32 || tag == UINT32 then 4
    else if tag == FLOAT64 || tag == INT64 || tag == UINT64 then 8
    else 0
  }

  /** makeHeader: top bit set, length-width code in bits 5-6, tag in the low five bits. */
  function MakeHeader(tag: nat, lenSize: nat): byte
    requires tag < 0x20
  {
    0x80 + tag + (if lenSize == 1 then 0x20 else if lenSize == 2 then 0x40 else if lenSize == 4 then 0x60 else 0)
  }

  /** makeHeaderAndLength; the length field keeps the low 32 bits of the length. */
  function MakeHeaderAndLength(order: ByteOrder, tag: nat, len: nat): bytes
    requires tag < 0x20
  {
    if len <= 0xff then [MakeHeader(tag, 1), len]
    else if len <= 0xffff then [MakeHeader(tag, 2)] + PutUint(order, len, 2)
    else [MakeHeader(tag, 4)] + PutUint(order, len, 4)
  }

  // ---------- encoding ----------

  /** The tag an integer is written with, unless it is its own encoding (0 to 127). */
  function IntTag(n: int): nat {
    if n < 0 then
      if n >= -0x80 then INT8 else if n >= -0x8000 then INT16 else if n >= -0x8000_0000 then INT32 else INT64
    else
      if n <= 0xff then UINT8 else if n <= 0xffff then UINT16 else if n <= 0xffff_ffff then UINT32 else UINT64
  }

  /** The unsigned number put after the header: n itself, or its two's complement. */
  function IntPayload(n: int): nat {
    if n >= 0 then n
    else if n >= -0x80 then n % 0x100
    else if n >= -0x8000 then n % TWO16
    else if n >= -0x8000_0000 then n % TWO32
    else n % TWO64
  }

  function EncodeInt(order: ByteOrder, n: int): bytes {
    if 0 <= n <= 0x7f then [n]
    else [MakeHeader(IntTag(n), 0)] + PutUint(order, IntPayload(n), TypeSize(IntTag(n)))
  }

  /** A float64 whose bit pattern fits in 32 bits is written under the float32 tag. */
  function FloatTag(bits: nat): nat {
    if bits <= 0xffff_ffff then FLOAT32 else FLOAT64
  }

  function EncodeFloat(order: ByteOrder, bits: nat): bytes {
    [MakeHeader(FloatTag(bits), 0)] + PutUint(order, bits, TypeSize(FloatTag(bits)))
  }

  function EncodeScalar(order: ByteOrder, v: Value): bytes
    requires !v.Map? && !v.List? && !v.Unsupported?
  {
    match v
    case Nil => [MakeHeader(NIL, 0)]
    case Bool(b) => [MakeHeader(if b then TRUE else FALSE, 0)]
    case Int(_, n) => EncodeInt(order, n)
    case Float32(bits) => EncodeFloat(order, bits)
    case Float64(bits) => EncodeFloat(order, bits)
    case Str(s) => MakeHeaderAndLength(order, STRING, |s|) + s
    case Blob(s) => MakeHeaderAndLength(order, BYTES, |s|) + s
  }

  /** What Encode writes; None is ErrTypeNotSupported. */
  function Encoding(order: ByteOrder, v: Value): Option<bytes>
    decreases v, 1
  {
    if v.Unsupported? then None else Some(Encoded(order, v))
  }

  function Encoded(order: ByteOrder, v: Value): bytes
    requires !v.Unsupported?
    decreases v, 0
  {
    if v.Map? then
      var body := EntriesEncoding(order, v.entries);
      MakeHeaderAndLength(order, MAP, body.count) + body.bytes
    else if v.List? then MakeHeaderAndLength(order, LIST, |v.items|) + ItemsEncoding(order, v.items)
    else EncodeScalar(order, v)
  }

  /** The pairs a map writes: how many, and their bytes. */
  datatype Pairs = Pairs(count: nat, bytes: bytes)

  /** A list writes nothing for an item it cannot encode, but still counts it. */
  function ItemsEncoding(order: ByteOrder, items: seq<Value>): bytes
    decreases items, 1
  {
    if items == [] then []
    else (match Encoding(order, items[0]) case None => [] case Some(e) => e) + ItemsEncoding(order, items[1..])
  }

  /** A map writes, and counts, only the pairs it can encode. */
  function EntriesEncoding(order: ByteOrder, entries: seq<Entry>): Pairs
    decreases entries, 1
  {
    if entries == [] then Pairs(0, [])
    else
      var rest := EntriesEncoding(order, entries[1..]);
      match EntryEncoding(order, entries[0])
      case Some(e) => Pairs(rest.count + 1, e + rest.bytes)
      case None => rest
  }

  function EntryEncoding(order: ByteOrder, e: Entry): Option<bytes>
    decreases e, 0
  {
    match (Encoding(order, e.key), Encoding(order, e.val))
    case (Some(k), Some(v)) => Some(k + v)
    case _ => None
  }

  /** The encoder as written: the map and list cases are loops that collect pieces. */
  method Encode(order: ByteOrder, v: Value) returns (r: Option<bytes>)
    ensures r == Encoding(order, v)
    decreases v, 0
  {
    match v {
      case Unsupported => r := None;
      case Map(entries) =>
        var pairs := EncodeEntries(order, entries);
        r := Some(MakeHeaderAndLength(order, MAP, pairs.count) + pairs.bytes);
      case List(items) =>
        var body := EncodeItems(order, items);
        r := Some(MakeHeaderAndLength(order, LIST, |items|) + body);
      case _ => r := Some(EncodeScalar(order, v));
    }
  }

  method EncodeEntries(order: ByteOrder, entries: seq<Entry>) returns (r: Pairs)
    ensures r == EntriesEncoding(order, entries)
    decreases entries, 1
  {
    var i: nat, body: bytes := 0, [];
    var k := 0;
    assert entries[0..] == entries;
    AfterNothing(EntriesEncoding(order, entries));
    while k < |entries|
      invariant 0 <= k <= |entries|
      invariant After(Pairs(i, body), EntriesEncoding(order, entries[k..])) == EntriesEncoding(order, entries)
    {
      var e := EncodeEntry(order, entries[k]);
      AfterEntry(order, Pairs(i, body), entries, k);
      if e.Some? {
        body := body + e.value;
        i := i + 1;
      }
      k := k + 1;
    }
    assert entries[k..] == [];
    return Pairs(i, body);
  }

  /** One turn of the map loop: a key or a value that cannot be encoded skips the pair. */
  method EncodeEntry(order: ByteOrder, e: Entry) returns (r: Option<bytes>)
    ensures r == EntryEncoding(order, e)
    decreases e, 1
  {
    var rk := Encode(order, e.key);
    if rk.None? {
      return None;
    }
    var vk := Encode(order, e.val);
    if vk.None? {
      return None;
    }
    return Some(rk.value + vk.value);
  }

  method EncodeItems(order: ByteOrder, items: seq<Value>) returns (body: bytes)
    ensures body == ItemsEncoding(order, items)
    decreases items, 1
  {
    body := [];
    var k := 0;
    assert items[0..] == items;
    while k < |items|
      invariant 0 <= k <= |items|
      invariant body + ItemsEncoding(order, items[k..]) == ItemsEncoding(order, items)
    {
      var vk := Encode(order, items[k]);
      AfterItem(order, body, items, k);
      if vk.Some? {
        body := body + vk.value;
      }
      k := k + 1;
    }
    assert items[k..] == [];
  }

  ghost function After(done: Pairs, rest: Pairs): Pairs {
    Pairs(done.count + rest.count, done.bytes + rest.bytes)
  }

  lemma AfterNothing(rest: Pairs)
    ensures After(Pairs(0, []), rest) == rest
  {
    assert [] + rest.bytes == rest.bytes;
  }

  lemma AfterEntry(order: ByteOrder, done: Pairs, entries: seq<Entry>, k: nat)
    requires k < |entries|
    ensures After(done, EntriesEncoding(order, entries[k..])) ==
            After(match EntryEncoding(order, entries[k])
                  case Some(e) => Pairs(done.count + 1, done.bytes + e)
                  case None => done,
                  EntriesEncoding(order, entries[k + 1..]))
  {
    assert entries[k..][0] == entries[k] && entries[k..][1..] == entries[k + 1..];
    var rest := EntriesEncoding(order, entries[k + 1..]).bytes;
    if e: bytes :| EntryEncoding(order, entries[k]) == Some(e) {
      assert done.bytes + (e + rest) == done.bytes + e + rest;
    }
  }

  lemma AfterItem(order: ByteOrder, done: bytes, items: seq<Value>, k: nat)
    requires k < |items|
    ensures done + ItemsEncoding(order, items[k..]) ==
            (match Encoding(order, items[k]) case Some(e) => done + e case None => done)
            + ItemsEncoding(order, items[k + 1..])
  {
    assert items[k..][0] == items[k] && items[k..][1..] == items[k + 1..];
  }

  // ---------- decoding ----------

  datatype DecodeError = DataTooShort | HeaderTooShort

  /** One return of Decode. Recovered is the (nil, nil, nil) that a recovered panic returns:
      its caller sees no error, the nil value and an empty remainder. */
  datatype Decoded =
    | Done(value: Value, rest: bytes)
    | Recovered
    | Failed(error: DecodeError, remain: bytes)
  {
    function Result(): Value { if Done? then value else Nil }
    function Remainder(): bytes {
      match this
      case Done(_, rest) => rest
      case Recovered => []
      case Failed(_, remain) => remain
    }
  }

  /** The header of an element that does not hold its value in its first byte. */
  datatype Header = Short | Header(tag: nat, count: nat, data: bytes)

  function ParseHeader(order: ByteOrder, raw: bytes): (h: Header)
    requires raw != [] && raw[0] >= 0x80
    ensures h.Header? ==> |h.data| < |raw| && h.tag < 0x20
  {
    var tag := raw[0] % 0x20;
    var code := raw[0] / 0x20 % 4;
    if code == 1 then if |raw| < 2 then Short else Header(tag, raw[1], raw[2..])
    else if code == 2 then if |raw| < 3 then Short else Header(tag, Uint(order, raw[1..3]), raw[3..])
    else if code == 3 then if |raw| < 5 then Short else Header(tag, Uint(order, raw[1..5]), raw[5..])
    else Header(tag, TypeSize(tag), raw[1..])
  }

  function WithoutSign(s: bytes): bytes {
    if |s| > 0 && (s[0] == '-' as int || s[0] == '+' as int) then s[1..] else s
  }

  predicate AllDigits(s: bytes) {
    forall d :: d in s ==> '0' as int <= d <= '9' as int
  }

  /** strconv.ParseInt(s, 10, 64), None for its errors. */
  function ParseInt(s: bytes): Option<int> {
    var digits := WithoutSign(s);
    if digits == [] || !AllDigits(digits) then None
    else
      var n := if s[0] == '-' as int then -Decimal(digits) else Decimal(digits);
      if InKind(KInt64, n) then Some(n) else None
  }

  function Decimal(s: bytes): int {
    if s == [] then 0 else Decimal(s[..|s| - 1]) * 10 + (s[|s| - 1] - '0' as int)
  }

  /** An element whose tag is neither map nor list, once its header is read. The four slices
      below panic when an explicit length is shorter than the fixed-width value. */
  function DecodeScalar(order: ByteOrder, tag: nat, count: nat, data: bytes, raw: bytes): (r: Decoded)
    requires count <= |data| < |raw|
    ensures |r.Remainder()| <= |raw|
  {
    if tag == NIL then Done(Nil, data[count..])
    else if tag == BIG_NUMBER then
      var parsed := ParseInt(data[..count]);
      Done(Int(KInt, if parsed.Some? then parsed.value else 0), data[count..])
    else if tag == TRUE then Done(Bool(true), data)
    else if tag == FALSE then Done(Bool(false), data)
    else if tag == STRING then Done(Str(data[..count]), data[count..])
    else if tag == BYTES then Done(Blob(data[..count]), data[count..])
    else if TypeSize(tag) == 0 then Done(Nil, raw)
    else if |data| < TypeSize(tag) then Recovered
    else Done(FixedValue(tag, Uint(order, data[..TypeSize(tag)])), data[count..])
  }

  /** A fixed-width value: every signed tag yields an int, every unsigned tag a uint. */
  function FixedValue(tag: nat, u: nat): Value {
    if tag == INT8 then Int(KInt, ToSigned(u, 0x100))
    else if tag == INT16 then Int(KInt, ToSigned(u, TWO16))
    else if tag == INT32 then Int(KInt, ToSigned(u, TWO32))
    else if tag == INT64 then Int(KInt, ToSigned(u, TWO64))
    else if tag == FLOAT32 then Float32(u)
    else if tag == FLOAT64 then Float64(u)
    else Int(KUint, u)
  }

  /** What Decode returns, for every byte string. */
  function Decoding(order: ByteOrder, raw: bytes): (r: Decoded)
    ensures |r.Remainder()| <= |raw|
    decreases |raw|, 1, 0
  {
    if raw == [] then Failed(DataTooShort, raw)
    else if raw[0] < 0x80 then Done(Int(KInt, raw[0]), raw[1..])
    else ElementDecoding(order, raw)
  }

  function ElementDecoding(order: ByteOrder, raw: bytes): (r: Decoded)
    requires raw != [] && raw[0] >= 0x80
    ensures |r.Remainder()| <= |raw|
    decreases |raw|, 0, 0
  {
    match ParseHeader(order, raw)
    case Short => Failed(HeaderTooShort, raw)
    case Header(tag, count, data) => BodyDecoding(order, tag, count, data, raw)
  }

  function BodyDecoding(order: ByteOrder, tag: nat, count: nat, data: bytes, raw: bytes): (r: Decoded)
    requires |data| < |raw|
    ensures |r.Remainder()| <= |raw|
    decreases |data|, 4, 0
  {
    if tag == MAP then EntriesDecoding(order, data, count, [])
    else if tag == LIST then ItemsDecoding(order, data, count, [])
    else if |data| % TWO32 < count then Failed(HeaderTooShort, [])
    else DecodeScalar(order, tag, count, data, raw)
  }

  /** The element loop of a list, with n elements to go and `items` already decoded. */
  function ItemsDecoding(order: ByteOrder, data: bytes, n: nat, items: seq<Value>): (r: Decoded)
    ensures |r.Remainder()| <= |data|
    decreases |data|, 2, n
  {
    if n == 0 then Done(List(items), data)
    else
      var v := Decoding(order, data);
      if v.Failed? then Failed(v.error, [])
      else ItemsDecoding(order, v.Remainder(), n - 1, items + [v.Result()])
  }

  /** The pair loop of a map, with n pairs to go and `m` already built; inserting under an
      unhashable key panics. */
  function EntriesDecoding(order: ByteOrder, data: bytes, n: nat, m: seq<Entry>): (r: Decoded)
    ensures |r.Remainder()| <= |data|
    decreases |data|, 3, n
  {
    if n == 0 then Done(Map(m), data)
    else
      match PairDecoding(order, data)
      case PairFailed(e) => Failed(e, [])
      case Pair(e, rest) =>
        if !Hashable(e.key) then Recovered else EntriesDecoding(order, rest, n - 1, Put(m, e.key, e.val))
  }

  datatype PairDecoded = Pair(e: Entry, rest: bytes) | PairFailed(error: DecodeError)

  function PairDecoding(order: ByteOrder, data: bytes): (r: PairDecoded)
    ensures r.Pair? ==> |r.rest| <= |data|
    decreases |data|, 2, 0
  {
    var k := Decoding(order, data);
    if k.Failed? then PairFailed(k.error)
    else
      var v := Decoding(order, k.Remainder());
      if v.Failed? then PairFailed(v.error)
      else Pair(Entry(k.Result(), v.Result()), v.Remainder())
  }

  lemma ElementBody(order: ByteOrder, raw: bytes)
    requires raw != [] && raw[0] >= 0x80 && ParseHeader(order, raw).Header?
    ensures var h := ParseHeader(order, raw);
            Decoding(order, raw) == BodyDecoding(order, h.tag, h.count, h.data, raw)
  {
    assert Decoding(order, raw) == ElementDecoding(order, raw);
  }

  lemma ItemsStep(order: ByteOrder, data: bytes, n: nat, items: seq<Value>)
    ensures n == 0 ==> ItemsDecoding(order, data, n, items) == Done(List(items), data)
    ensures n > 0 ==>
              var v := Decoding(order, data);
              ItemsDecoding(order, data, n, items) ==
              if v.Failed? then Failed(v.error, [])
              else ItemsDecoding(order, v.Remainder(), n - 1, items + [v.Result()])
  {
    hide Decoding;
  }

  lemma PairStep(order: ByteOrder, data: bytes)
    ensures PairDecoding(order, data) ==
            var k := Decoding(order, data);
            if k.Failed? then PairFailed(k.error)
            else
              var v := Decoding(order, k.Remainder());
              if v.Failed? then PairFailed(v.error) else Pair(Entry(k.Result(), v.Result()), v.Remainder())
  {
    hide Decoding;
  }

  lemma EntriesStep(order: ByteOrder, data: bytes, n: nat, m: seq<Entry>)
    ensures n == 0 ==> EntriesDecoding(order, data, n, m) == Done(Map(m), data)
    ensures n > 0 ==>
              EntriesDecoding(order, data, n, m) ==
              match PairDecoding(order, data)
              case PairFailed(e) => Failed(e, [])
              case Pair(e, rest) =>
                if !Hashable(e.key) then Recovered else EntriesDecoding(order, rest, n - 1, Put(m, e.key, e.val))
  {
    hide PairDecoding;
  }

  /** The decoder as written: the map and list cases are loops over the remaining bytes. */
  method Decode(order: ByteOrder, raw: bytes) returns (r: Decoded)
    ensures r == Decoding(order, raw)
    decreases |raw|, 0
  {
    if raw == [] {
      return Failed(DataTooShort, raw);
    }
    if raw[0] < 0x80 {
      return Done(Int(KInt, raw[0]), raw[1..]);
    }
    var h := ParseHeader(order, raw);
    if h.Short? {
      return Failed(HeaderTooShort, raw);
    }
    ElementBody(order, raw);
    var realData := h.data;
    if h.tag != MAP && h.tag != LIST {
      if |realData| % TWO32 < h.count {
        return Failed(HeaderTooShort, []);
      }
      return DecodeScalar(order, h.tag, h.count, realData, raw);
    }
    if h.tag == MAP {
      r := DecodeEntries(order, realData, h.count);
    } else {
      r := DecodeItems(order, realData, h.count);
    }
  }

  method DecodeEntries(order: ByteOrder, data: bytes, count: nat) returns (r: Decoded)
    ensures r == EntriesDecoding(order, data, count, [])
    decreases |data|, 2
  {
    var realData := data;
    var dstMap := [];
    var i := 0;
    while i < count
      invariant 0 <= i <= count && |realData| <= |data|
      invariant EntriesDecoding(order, data, count, []) == EntriesDecoding(order, realData, count - i, dstMap)
    {
      var p := DecodePair(order, realData);
      if p.PairFailed? {
        return Failed(p.error, []);
      }
      if !Hashable(p.e.key) {
        return Recovered;
      }
      realData := p.rest;
      dstMap := Put(dstMap, p.e.key, p.e.val);
      i := i + 1;
    }
    return Done(Map(dstMap), realData);
  }

  method DecodePair(order: ByteOrder, data: bytes) returns (r: PairDecoded)
    ensures r == PairDecoding(order, data)
    decreases |data|, 1
  {
    var k := Decode(order, data);
    if k.Failed? {
      return PairFailed(k.error);
    }
    var v := Decode(order, k.Remainder());
    if v.Failed? {
      return PairFailed(v.error);
    }
    return Pair(Entry(k.Result(), v.Result()), v.Remainder());
  }

  method DecodeItems(order: ByteOrder, data: bytes, count: nat) returns (r: Decoded)
    ensures r == ItemsDecoding(order, data, count, [])
    decreases |data|, 1
  {
    var realData := data;
    var dstList := [];
    var i := 0;
    while i < count
      invariant 0 <= i <= count && |realData| <= |data|
      invariant ItemsDecoding(order, data, count, []) == ItemsDecoding(order, realData, count - i, dstList)
    {
      var v := Decode(order, realData);
      if v.Failed? {
        return Failed(v.error, []);
      }
      realData := v.Remainder();
      dstList := dstList + [v.Result()];
      i := i + 1;
    }
    return Done(List(dstList), realData);
  }
}
