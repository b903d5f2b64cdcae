/** What the codec promises: decoding undoes encoding up to a normal form, whatever follows. */
module CloveRoundTrip {
  import opened Bytes
  import opened CloveCodec

  // ---------- the values the encoder supports, and their normal form ----------

  predicate Writable(e: Entry) {
    !e.key.Unsupported? && !e.val.Unsupported?
  }

  ghost predicate Supported(v: Value)
    decreases v, 0
  {
    match v
    case Nil => true
    case Bool(_) => true
    case Int(kind, n) => InKind(kind, n)
    case Float32(bits) => bits < TWO32
    case Float64(bits) => bits < TWO64
    case Str(s) => |s| < TWO32
    case Blob(s) => |s| < TWO32
    case Map(entries) =>
      && SupportedEntries(entries)
      && |NormEntries(entries)| < TWO32
    case List(items) => SupportedItems(items) && |items| < TWO32
    case Unsupported => false
  }

  ghost predicate SupportedItems(items: seq<Value>)
    decreases items, 1
  {
    items != [] ==> Supported(items[0]) && SupportedItems(items[1..])
  }

  /** A pair is either skipped by the encoder or has a hashable key and supported parts. */
  ghost predicate SupportedEntries(entries: seq<Entry>)
    decreases entries, 1
  {
    entries != [] ==> SupportedEntry(entries[0]) && SupportedEntries(entries[1..])
  }

  ghost predicate SupportedEntry(e: Entry)
    decreases e, 0
  {
    Writable(e) ==> Supported(e.key) && Supported(e.val) && Hashable(e.key)
  }

  /** The assignments m[k] = v of some pairs, in their order. */
  function PutAll(m: seq<Entry>, es: seq<Entry>): seq<Entry>
    decreases es
  {
    if es == [] then m else PutAll(Put(m, es[0].key, es[0].val), es[1..])
  }

  /** Decoded integers are ints up to 127 and uints above; a float64 whose bits fit in 32 bits
      comes back as the float32 with those bits. Of pairs whose keys become equal the last one
      written stays. */
  function Norm(v: Value): Value
    decreases v, 0
  {
    match v
    case Int(_, n) => Int(if n > 0x7f then KUint else KInt, n)
    case Float64(bits) => if bits <= 0xffff_ffff then Float32(bits) else v
    case Map(entries) => Map(PutAll([], NormEntries(entries)))
    case List(items) => List(NormItems(items))
    case _ => v
  }

  function NormItems(items: seq<Value>): (r: seq<Value>)
    ensures |r| == |items|
    decreases items, 1
  {
    if items == [] then [] else [Norm(items[0])] + NormItems(items[1..])
  }

  /** Pairs the encoder skips are gone; the others keep their order. */
  function NormEntries(entries: seq<Entry>): seq<Entry>
    decreases entries, 1
  {
    if entries == [] then []
    else if Writable(entries[0]) then [NormEntry(entries[0])] + NormEntries(entries[1..])
    else NormEntries(entries[1..])
  }

  function NormEntry(e: Entry): Entry
    decreases e, 0
  {
    Entry(Norm(e.key), Norm(e.val))
  }

  // ---------- where the 32-bit length comparison is right ----------

  /** `uint32(len(realData)) < count` is false when count payload bytes and `tail` more
      follow: the sum must not wrap below count. */
  predicate GuardPasses(count: nat, tail: nat) {
    (count + tail) % TWO32 >= count
  }

  function PayloadLength(v: Value): nat
    requires !v.Map? && !v.List?
  {
    match v
    case Int(_, n) => if 0 <= n <= 0x7f then 0 else TypeSize(IntTag(n))
    case Float32(bits) => if bits <= 0xffff_ffff then 4 else 8
    case Float64(bits) => if bits <= 0xffff_ffff then 4 else 8
    case Str(s) => |s|
    case Blob(s) => |s|
    case _ => 0
  }

  /** Every length check passed while decoding v with `tail` bytes behind it. */
  ghost predicate Fits(order: ByteOrder, v: Value, tail: nat)
    decreases v, 0
  {
    if v.Map? then FitsEntries(order, v.entries, tail)
    else if v.List? then FitsItems(order, v.items, tail)
    else GuardPasses(PayloadLength(v), tail)
  }

  ghost predicate FitsItems(order: ByteOrder, items: seq<Value>, tail: nat)
    decreases items, 1
  {
    items != [] ==>
      && Fits(order, items[0], |ItemsEncoding(order, items[1..])| + tail)
      && FitsItems(order, items[1..], tail)
  }

  ghost predicate FitsEntries(order: ByteOrder, entries: seq<Entry>, tail: nat)
    decreases entries, 1
  {
    entries != [] ==>
      && FitsEntry(order, entries[0], |EntriesEncoding(order, entries[1..]).bytes| + tail)
      && FitsEntries(order, entries[1..], tail)
  }

  ghost predicate FitsEntry(order: ByteOrder, e: Entry, tail: nat)
    decreases e, 0
  {
    Writable(e) ==> Fits(order, e.key, |Encoded(order, e.val)| + tail) && Fits(order, e.val, tail)
  }

  // ---------- scalars ----------

  lemma LengthField(order: ByteOrder, first: byte, n: nat, width: nat, body: bytes)
    requires FitsWidth(n, width)
    ensures var raw := [first] + PutUint(order, n, width) + body;
            Uint(order, raw[1..1 + width]) == n && raw[1 + width..] == body
  {
    var raw := [first] + PutUint(order, n, width) + body;
    UintPut(order, n, width);
    assert raw[1..1 + width] == PutUint(order, n, width);
  }

  lemma CountedHeader(order: ByteOrder, tag: nat, n: nat, body: bytes)
    requires tag < 0x20 && n < TWO32
    ensures var raw := MakeHeaderAndLength(order, tag, n) + body;
            raw != [] && raw[0] >= 0x80 && ParseHeader(order, raw) == Header(tag, n, body)
  {
    hide Uint, PutUint, TypeSize;
    var raw := MakeHeaderAndLength(order, tag, n) + body;
    if n <= 0xff {
      assert raw[2..] == body;
    } else {
      WidthBounds(n);
      var width := if n <= 0xffff then 2 else 4;
      LengthField(order, MakeHeader(tag, width), n, width, body);
    }
  }

  lemma DefaultHeader(order: ByteOrder, tag: nat, body: bytes)
    requires tag < 0x20
    ensures var raw := [MakeHeader(tag, 0)] + body;
            raw[0] >= 0x80 && ParseHeader(order, raw) == Header(tag, TypeSize(tag), body)
  {
    var raw := [MakeHeader(tag, 0)] + body;
    assert raw[1..] == body;
    assert raw[0] == 0x80 + tag;
    assert raw[0] % 0x20 == tag && raw[0] / 0x20 % 4 == 0;
  }

  /** A scalar element is decoded from its payload if the length check passes. */
  lemma ScalarElement(order: ByteOrder, raw: bytes, tag: nat, payload: bytes, r: bytes)
    requires raw != [] && raw[0] >= 0x80
    requires ParseHeader(order, raw) == Header(tag, |payload|, payload + r) && tag != MAP && tag != LIST
    ensures Decoding(order, raw) ==
            if GuardPasses(|payload|, |r|) then DecodeScalar(order, tag, |payload|, payload + r, raw)
            else Failed(HeaderTooShort, [])
  {
    ElementBody(order, raw);
  }

  lemma FixedScalar(order: ByteOrder, tag: nat, payload: bytes, r: bytes, raw: bytes)
    requires TypeSize(tag) == |payload| > 0 && |payload + r| < |raw|
    ensures DecodeScalar(order, tag, |payload|, payload + r, raw) == Done(FixedValue(tag, Uint(order, payload)), r)
  {
    assert (payload + r)[..|payload|] == payload && (payload + r)[|payload|..] == r;
  }

  lemma FixedElement(order: ByteOrder, tag: nat, payload: bytes, r: bytes)
    requires TypeSize(tag) == |payload| > 0
    ensures Decoding(order, [MakeHeader(tag, 0)] + payload + r) ==
            if GuardPasses(|payload|, |r|) then Done(FixedValue(tag, Uint(order, payload)), r)
            else Failed(HeaderTooShort, [])
  {
    hide ParseHeader, DecodeScalar, FixedValue, Decoding, Uint, MakeHeader;
    var raw := [MakeHeader(tag, 0)] + (payload + r);
    DefaultHeader(order, tag, payload + r);
    ScalarElement(order, raw, tag, payload, r);
    FixedScalar(order, tag, payload, r, raw);
    assert [MakeHeader(tag, 0)] + payload + r == raw;
  }

  /** A number that fits the tag's width comes back from its payload. */
  lemma FixedRoundTrip(order: ByteOrder, tag: nat, u: nat, width: nat, r: bytes)
    requires TypeSize(tag) == width > 0 && FitsWidth(u, width)
    ensures Decoding(order, [MakeHeader(tag, 0)] + PutUint(order, u, width) + r) ==
            if GuardPasses(width, |r|) then Done(FixedValue(tag, u), r) else Failed(HeaderTooShort, [])
  {
    UintPut(order, u, width);
    FixedElement(order, tag, PutUint(order, u, width), r);
  }

  lemma IntPayloadFits(kind: IntKind, n: int)
    requires InKind(kind, n) && !(0 <= n <= 0x7f)
    ensures FitsWidth(IntPayload(n), TypeSize(IntTag(n))) && TypeSize(IntTag(n)) > 0
    ensures FixedValue(IntTag(n), IntPayload(n)) == Norm(Int(kind, n))
  {
    hide FitsWidth;
    WidthBounds(IntPayload(n));
  }

  lemma IntRoundTrip(order: ByteOrder, kind: IntKind, n: int, r: bytes)
    requires InKind(kind, n)
    ensures Decoding(order, EncodeInt(order, n) + r) ==
            if GuardPasses(PayloadLength(Int(kind, n)), |r|) then Done(Norm(Int(kind, n)), r)
            else Failed(HeaderTooShort, [])
  {
    if 0 <= n <= 0x7f {
      assert ([n] + r)[1..] == r;
    } else {
      IntPayloadFits(kind, n);
      FixedRoundTrip(order, IntTag(n), IntPayload(n), TypeSize(IntTag(n)), r);
    }
  }

  lemma StringRoundTrip(order: ByteOrder, v: Value, r: bytes)
    requires (v.Str? || v.Blob?) && |v.s| < TWO32
    ensures Decoding(order, EncodeScalar(order, v) + r) ==
            if GuardPasses(|v.s|, |r|) then Done(v, r) else Failed(HeaderTooShort, [])
  {
    hide ParseHeader, Decoding, MakeHeaderAndLength, Uint;
    var n := |v.s|;
    var tag := if v.Str? then STRING else BYTES;
    var h := MakeHeaderAndLength(order, tag, n);
    var raw := h + (v.s + r);
    assert EncodeScalar(order, v) + r == raw;
    CountedHeader(order, tag, n, v.s + r);
    ScalarElement(order, raw, tag, v.s, r);
    assert (v.s + r)[..n] == v.s && (v.s + r)[n..] == r;
  }

  lemma FloatPayloadFits(bits: nat)
    requires bits < TWO64
    ensures var width := if bits <= 0xffff_ffff then 4 else 8;
            TypeSize(FloatTag(bits)) == width && FitsWidth(bits, width)
    ensures FixedValue(FloatTag(bits), bits) == if bits <= 0xffff_ffff then Float32(bits) else Float64(bits)
  {
    WidthBounds(bits);
  }

  lemma FloatRoundTrip(order: ByteOrder, bits: nat, r: bytes)
    requires bits < TWO64
    ensures Decoding(order, EncodeFloat(order, bits) + r) ==
            if !GuardPasses(if bits <= 0xffff_ffff then 4 else 8, |r|) then Failed(HeaderTooShort, [])
            else Done(if bits <= 0xffff_ffff then Float32(bits) else Float64(bits), r)
  {
    FloatPayloadFits(bits);
    FixedRoundTrip(order, FloatTag(bits), bits, TypeSize(FloatTag(bits)), r);
  }

  lemma PlainRoundTrip(order: ByteOrder, v: Value, r: bytes)
    requires v.Nil? || v.Bool?
    ensures Decoding(order, EncodeScalar(order, v) + r) == Done(v, r)
  {
    var tag := if v.Nil? then NIL else if v.b then TRUE else FALSE;
    var raw := [MakeHeader(tag, 0)] + r;
    DefaultHeader(order, tag, r);
    assert [] + r == r;
    ScalarElement(order, raw, tag, [], r);
  }

  lemma ScalarRoundTrip(order: ByteOrder, v: Value, r: bytes)
    requires Supported(v) && !v.Map? && !v.List?
    ensures Decoding(order, EncodeScalar(order, v) + r) ==
            if GuardPasses(PayloadLength(v), |r|) then Done(Norm(v), r) else Failed(HeaderTooShort, [])
  {
    match v
    case Int(kind, n) => IntRoundTrip(order, kind, n, r);
    case Float32(bits) => FloatRoundTrip(order, bits, r);
    case Float64(bits) => FloatRoundTrip(order, bits, r);
    case Str(_) => StringRoundTrip(order, v, r);
    case Blob(_) => StringRoundTrip(order, v, r);
    case _ => PlainRoundTrip(order, v, r);
  }

  // ---------- the round trip ----------

  /** Decode(Encode(v) ++ r) is the normal form of v and exactly r, if and only if no length
      check wraps; otherwise it is an error. */
  lemma {:induction false} RoundTrip(order: ByteOrder, v: Value, r: bytes)
    requires Supported(v)
    ensures Decoding(order, Encoded(order, v) + r) ==
            if Fits(order, v, |r|) then Done(Norm(v), r) else Failed(HeaderTooShort, [])
    decreases v, 0
  {
    if v.List? {
      ItemsRoundTrip(order, v.items, [], r);
      ListBody(order, v, r);
      assert [] + NormItems(v.items) == NormItems(v.items);
    } else if v.Map? {
      EntriesRoundTrip(order, v.entries, [], r);
      MapBody(order, v, r);
    } else {
      ScalarRoundTrip(order, v, r);
    }
  }

  lemma ListBody(order: ByteOrder, v: Value, r: bytes)
    requires v.List? && |v.items| < TWO32
    ensures Decoding(order, Encoded(order, v) + r) ==
            ItemsDecoding(order, ItemsEncoding(order, v.items) + r, |v.items|, [])
  {
    hide ItemsDecoding, EntriesDecoding, DecodeScalar, ParseHeader, Decoding, ItemsEncoding, MakeHeaderAndLength;
    var body := ItemsEncoding(order, v.items) + r;
    assert Encoded(order, v) + r == MakeHeaderAndLength(order, LIST, |v.items|) + body;
    CountedHeader(order, LIST, |v.items|, body);
    ElementBody(order, Encoded(order, v) + r);
  }

  lemma MapBody(order: ByteOrder, v: Value, r: bytes)
    requires v.Map? && |NormEntries(v.entries)| < TWO32
    ensures var pairs := EntriesEncoding(order, v.entries);
            Decoding(order, Encoded(order, v) + r) == EntriesDecoding(order, pairs.bytes + r, pairs.count, [])
  {
    hide ItemsDecoding, EntriesDecoding, DecodeScalar, ParseHeader, Decoding, EntriesEncoding, MakeHeaderAndLength;
    var pairs := EntriesEncoding(order, v.entries);
    assert Encoded(order, v) + r == MakeHeaderAndLength(order, MAP, pairs.count) + (pairs.bytes + r);
    EntriesCount(order, v.entries);
    CountedHeader(order, MAP, pairs.count, pairs.bytes + r);
    ElementBody(order, Encoded(order, v) + r);
  }

  lemma {:induction false} ItemsRoundTrip(order: ByteOrder, items: seq<Value>, done: seq<Value>, r: bytes)
    requires SupportedItems(items)
    ensures ItemsDecoding(order, ItemsEncoding(order, items) + r, |items|, done) ==
            if FitsItems(order, items, |r|) then Done(List(done + NormItems(items)), r) else Failed(HeaderTooShort, [])
    decreases items, 1
  {
    hide Decoding, ItemsDecoding, Encoding, Fits, Norm;
    if items == [] {
      ItemsStep(order, r, 0, done);
      assert [] + r == r && done + [] == done;
    } else {
      FirstItem(order, items, done, r);
      ItemsRoundTrip(order, items[1..], done + [Norm(items[0])], r);
      assert done + [Norm(items[0])] + NormItems(items[1..]) == done + NormItems(items);
    }
  }

  lemma FirstItemEncoding(order: ByteOrder, items: seq<Value>)
    requires items != [] && !items[0].Unsupported?
    ensures ItemsEncoding(order, items) == Encoded(order, items[0]) + ItemsEncoding(order, items[1..])
  {
    hide Encoded;
  }

  lemma {:induction false} FirstItem(order: ByteOrder, items: seq<Value>, done: seq<Value>, r: bytes)
    requires SupportedItems(items) && items != []
    ensures var tail := ItemsEncoding(order, items[1..]) + r;
            ItemsDecoding(order, ItemsEncoding(order, items) + r, |items|, done) ==
            if !Fits(order, items[0], |tail|) then Failed(HeaderTooShort, [])
            else ItemsDecoding(order, tail, |items| - 1, done + [Norm(items[0])])
    decreases items, 0
  {
    hide Decoding, ItemsDecoding, ItemsEncoding, Encoded, Fits, Norm;
    var tail := ItemsEncoding(order, items[1..]) + r;
    FirstItemEncoding(order, items);
    assert ItemsEncoding(order, items) + r == Encoded(order, items[0]) + tail;
    ItemsStep(order, Encoded(order, items[0]) + tail, |items|, done);
    RoundTrip(order, items[0], tail);
  }

  lemma WritableEncodes(order: ByteOrder, e: Entry)
    ensures EntryEncoding(order, e) ==
            if Writable(e) then Some(Encoded(order, e.key) + Encoded(order, e.val)) else None
  {
  }

  lemma {:induction false} EntriesCount(order: ByteOrder, entries: seq<Entry>)
    ensures EntriesEncoding(order, entries).count == |NormEntries(entries)|
  {
    if entries != [] {
      WritableEncodes(order, entries[0]);
      EntriesCount(order, entries[1..]);
    }
  }

  lemma {:induction false} EntriesRoundTrip(order: ByteOrder, entries: seq<Entry>, m: seq<Entry>, r: bytes)
    requires SupportedEntries(entries)
    ensures var pairs := EntriesEncoding(order, entries);
            EntriesDecoding(order, pairs.bytes + r, pairs.count, m) ==
            if FitsEntries(order, entries, |r|) then Done(Map(PutAll(m, NormEntries(entries))), r)
            else Failed(HeaderTooShort, [])
    decreases entries, 1
  {
    hide EntriesDecoding, EntryEncoding, Fits, Norm, Put;
    if entries == [] {
      EntriesStep(order, r, 0, m);
      assert [] + r == r;
      return;
    }
    WritableEncodes(order, entries[0]);
    if !Writable(entries[0]) {
      EntriesRoundTrip(order, entries[1..], m, r);
      return;
    }
    FirstEntry(order, entries, m, r);
    var n := NormEntry(entries[0]);
    EntriesRoundTrip(order, entries[1..], Put(m, n.key, n.val), r);
  }

  lemma {:induction false} FirstEntry(order: ByteOrder, entries: seq<Entry>, m: seq<Entry>, r: bytes)
    requires entries != [] && Writable(entries[0]) && SupportedEntry(entries[0])
    ensures var pairs, rest := EntriesEncoding(order, entries), EntriesEncoding(order, entries[1..]);
            var n := NormEntry(entries[0]);
            EntriesDecoding(order, pairs.bytes + r, pairs.count, m) ==
            if !FitsEntry(order, entries[0], |rest.bytes + r|) then Failed(HeaderTooShort, [])
            else EntriesDecoding(order, rest.bytes + r, rest.count, Put(m, n.key, n.val))
    decreases entries, 0
  {
    hide EntriesDecoding, PairDecoding, EntryEncoding, Encoded, FitsEntry, Norm;
    var e, rest := entries[0], EntriesEncoding(order, entries[1..]).bytes + r;
    WritableEncodes(order, e);
    assert EntriesEncoding(order, entries).bytes + r == Encoded(order, e.key) + Encoded(order, e.val) + rest;
    EntriesStep(order, Encoded(order, e.key) + Encoded(order, e.val) + rest, EntriesEncoding(order, entries).count, m);
    PairRoundTrip(order, e, rest);
  }

  lemma {:induction false} PairRoundTrip(order: ByteOrder, e: Entry, r: bytes)
    requires SupportedEntry(e) && Writable(e)
    ensures PairDecoding(order, Encoded(order, e.key) + Encoded(order, e.val) + r) ==
            if FitsEntry(order, e, |r|) then Pair(NormEntry(e), r) else PairFailed(HeaderTooShort)
    ensures Hashable(NormEntry(e).key)
    decreases e, 0
  {
    hide Decoding, PairDecoding, Encoded, Fits;
    var rest := Encoded(order, e.val) + r;
    PairStep(order, Encoded(order, e.key) + rest);
    RoundTrip(order, e.key, rest);
    RoundTrip(order, e.val, r);
    assert Encoded(order, e.key) + Encoded(order, e.val) + r == Encoded(order, e.key) + rest;
  }
}
