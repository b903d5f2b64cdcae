/** Encodings delimit themselves, however long they are. */
module CloveDelimiting {
  import opened Bytes
  import opened CloveCodec
  import opened CloveRoundTrip

  // ---------- one element ----------

  /** What the header and the payload of a scalar determine, whatever the length comparison
      says. */
  ghost predicate ReadsAs(order: ByteOrder, raw: bytes, v: Value, r: bytes) {
    && raw != [] && raw[0] >= 0x80
    && match ParseHeader(order, raw)
       case Short => false
       case Header(tag, count, data) =>
         && tag != MAP && tag != LIST && count <= |data|
         && DecodeScalar(order, tag, count, data, raw) == Done(v, r)
  }

  lemma FixedReads(order: ByteOrder, tag: nat, payload: bytes, r: bytes)
    requires TypeSize(tag) == |payload| > 0
    ensures ReadsAs(order, [MakeHeader(tag, 0)] + payload + r, FixedValue(tag, Uint(order, payload)), r)
  {
    var raw := [MakeHeader(tag, 0)] + (payload + r);
    DefaultHeader(order, tag, payload + r);
    FixedScalar(order, tag, payload, r, raw);
    hide ParseHeader, DecodeScalar, FixedValue, Uint, MakeHeader;
    assert [MakeHeader(tag, 0)] + payload + r == raw;
  }

  lemma FixedNumberReads(order: ByteOrder, tag: nat, u: nat, r: bytes)
    requires TypeSize(tag) > 0 && FitsWidth(u, TypeSize(tag))
    ensures ReadsAs(order, [MakeHeader(tag, 0)] + PutUint(order, u, TypeSize(tag)) + r, FixedValue(tag, u), r)
  {
    UintPut(order, u, TypeSize(tag));
    FixedReads(order, tag, PutUint(order, u, TypeSize(tag)), r);
  }

  lemma StringReads(order: ByteOrder, v: Value, r: bytes)
    requires (v.Str? || v.Blob?) && |v.s| < TWO32
    ensures ReadsAs(order, EncodeScalar(order, v) + r, v, r)
  {
    hide ParseHeader, MakeHeaderAndLength, Uint;
    var tag := if v.Str? then STRING else BYTES;
    var raw := MakeHeaderAndLength(order, tag, |v.s|) + (v.s + r);
    assert EncodeScalar(order, v) + r == raw;
    CountedHeader(order, tag, |v.s|, v.s + r);
    assert (v.s + r)[..|v.s|] == v.s && (v.s + r)[|v.s|..] == r;
  }

  lemma PlainReads(order: ByteOrder, v: Value, r: bytes)
    requires v.Nil? || v.Bool?
    ensures ReadsAs(order, EncodeScalar(order, v) + r, v, r)
  {
    var tag := if v.Nil? then NIL else if v.b then TRUE else FALSE;
    DefaultHeader(order, tag, r);
    assert r[0..] == r;
  }

  predicate SmallInt(v: Value) {
    v.Int? && 0 <= v.n <= 0x7f
  }

  lemma ScalarReads(order: ByteOrder, v: Value, r: bytes)
    requires Supported(v) && !v.Map? && !v.List? && !SmallInt(v)
    ensures ReadsAs(order, EncodeScalar(order, v) + r, Norm(v), r)
  {
    hide ReadsAs, PutUint, FixedValue;
    match v
    case Int(kind, n) =>
      IntPayloadFits(kind, n);
      FixedNumberReads(order, IntTag(n), IntPayload(n), r);
    case Float32(bits) =>
      FloatPayloadFits(bits);
      FixedNumberReads(order, FloatTag(bits), bits, r);
    case Float64(bits) =>
      FloatPayloadFits(bits);
      FixedNumberReads(order, FloatTag(bits), bits, r);
    case Str(_) => StringReads(order, v, r);
    case Blob(_) => StringReads(order, v, r);
    case _ => PlainReads(order, v, r);
  }

  /** How the encoding of a value starts: its own byte, or a header. */
  lemma Starts(order: ByteOrder, v: Value, r: bytes)
    requires Supported(v)
    ensures var raw := Encoded(order, v) + r;
            && raw != []
            && (SmallInt(v) ==> raw == [v.n] + r)
            && (!SmallInt(v) ==> raw[0] >= 0x80)
            && (v.List? ==>
                  ParseHeader(order, raw) == Header(LIST, |v.items|, ItemsEncoding(order, v.items) + r))
            && (v.Map? ==>
                  var pairs := EntriesEncoding(order, v.entries);
                  ParseHeader(order, raw) == Header(MAP, pairs.count, pairs.bytes + r))
            && (!v.List? && !v.Map? && !SmallInt(v) ==> ReadsAs(order, raw, Norm(v), r))
  {
    hide ParseHeader, MakeHeaderAndLength, ReadsAs, ItemsEncoding, EntriesEncoding, Norm, NormEntries;
    var raw := Encoded(order, v) + r;
    if v.List? {
      var body := ItemsEncoding(order, v.items);
      assert raw == MakeHeaderAndLength(order, LIST, |v.items|) + (body + r);
      CountedHeader(order, LIST, |v.items|, body + r);
    } else if v.Map? {
      var pairs := EntriesEncoding(order, v.entries);
      EntriesCount(order, v.entries);
      assert raw == MakeHeaderAndLength(order, MAP, pairs.count) + (pairs.bytes + r);
      CountedHeader(order, MAP, pairs.count, pairs.bytes + r);
    } else if !SmallInt(v) {
      ScalarReads(order, v, r);
      ReadsStart(order, raw, Norm(v), r);
    }
  }

  lemma ReadsStart(order: ByteOrder, raw: bytes, v: Value, r: bytes)
    requires ReadsAs(order, raw, v, r)
    ensures raw != [] && raw[0] >= 0x80
    ensures ParseHeader(order, raw).Header? && ParseHeader(order, raw).tag !in {MAP, LIST}
  {
  }

  lemma ReadsOnce(order: ByteOrder, raw: bytes, v: Value, r: bytes, w: Value, q: bytes)
    requires ReadsAs(order, raw, v, r) && ReadsAs(order, raw, w, q)
    ensures v == w && r == q
  {
  }

  // ---------- any value ----------

  /** One byte string cannot start with two encodings of different normal forms. */
  lemma {:induction false} SelfDelimiting(order: ByteOrder, v: Value, r: bytes, w: Value, q: bytes)
    requires Supported(v) && Supported(w) && Encoded(order, v) + r == Encoded(order, w) + q
    ensures Norm(v) == Norm(w) && r == q && Encoded(order, v) == Encoded(order, w)
    decreases v, 0
  {
    var raw := Encoded(order, v) + r;
    Starts(order, v, r);
    Starts(order, w, q);
    SameTail(Encoded(order, v), r, Encoded(order, w), q);
    hide Encoded, ParseHeader, ReadsAs;
    if SmallInt(v) {
      assert raw[0] == v.n && raw[1..] == r;
      assert SmallInt(w) && raw[0] == w.n && raw[1..] == q;
    } else if v.List? {
      Containers(order, w, raw, q);
      ItemsDelimited(order, v.items, r, w.items, q);
    } else if v.Map? {
      Containers(order, w, raw, q);
      EntriesDelimited(order, v.entries, r, w.entries, q);
    } else {
      ReadsStart(order, raw, Norm(v), r);
      assert !SmallInt(w) && !w.List? && !w.Map?;
      ReadsOnce(order, raw, Norm(v), r, Norm(w), q);
    }
  }

  /** A header says which kind of container follows. */
  lemma Containers(order: ByteOrder, w: Value, raw: bytes, q: bytes)
    requires Supported(w) && raw == Encoded(order, w) + q && raw != [] && raw[0] >= 0x80
    requires ParseHeader(order, raw).Header? && ParseHeader(order, raw).tag in {MAP, LIST}
    ensures if ParseHeader(order, raw).tag == LIST then w.List? else w.Map?
  {
    Starts(order, w, q);
    hide Encoded, ParseHeader, ReadsAs;
    if !w.List? && !w.Map? && !SmallInt(w) {
      ReadsStart(order, raw, Norm(w), q);
    }
  }

  lemma SameTail(a: bytes, r: bytes, b: bytes, q: bytes)
    requires a + r == b + q
    ensures r == q <==> a == b
  {
    var whole := a + r;
    if r == q {
      assert |a| == |b|;
    }
    if |a| == |b| {
      assert a == whole[..|a|] && b == (b + q)[..|a|] && r == whole[|a|..] && q == (b + q)[|a|..];
    }
  }

  lemma {:induction false} ItemsDelimited(order: ByteOrder, a: seq<Value>, r: bytes, b: seq<Value>, q: bytes)
    requires SupportedItems(a) && SupportedItems(b) && |a| == |b|
    requires ItemsEncoding(order, a) + r == ItemsEncoding(order, b) + q
    ensures NormItems(a) == NormItems(b) && r == q
    decreases a, 1
  {
    hide Encoded, Norm;
    if a == [] {
      assert [] + r == r && [] + q == q;
    } else {
      FirstItemEncoding(order, a);
      FirstItemEncoding(order, b);
      var s, t := ItemsEncoding(order, a[1..]), ItemsEncoding(order, b[1..]);
      assert Encoded(order, a[0]) + s + r == Encoded(order, a[0]) + (s + r);
      assert Encoded(order, b[0]) + t + q == Encoded(order, b[0]) + (t + q);
      SelfDelimiting(order, a[0], s + r, b[0], t + q);
      ItemsDelimited(order, a[1..], r, b[1..], q);
    }
  }

  /** The pairs that are written come in the same number and order. */
  lemma {:induction false} EntriesDelimited(order: ByteOrder, a: seq<Entry>, r: bytes, b: seq<Entry>, q: bytes)
    requires SupportedEntries(a) && SupportedEntries(b)
    requires var x, y := EntriesEncoding(order, a), EntriesEncoding(order, b);
             x.count == y.count && x.bytes + r == y.bytes + q
    ensures NormEntries(a) == NormEntries(b) && r == q
    decreases a, 1, |b|
  {
    hide EntryEncoding, Encoded, NormEntry;
    EntriesCount(order, a);
    EntriesCount(order, b);
    if a != [] && !Writable(a[0]) {
      WritableEncodes(order, a[0]);
      EntriesDelimited(order, a[1..], r, b, q);
    } else if b != [] && !Writable(b[0]) {
      WritableEncodes(order, b[0]);
      EntriesDelimited(order, a, r, b[1..], q);
    } else if a == [] {
      assert [] + r == r && [] + q == q && b == [];
    } else {
      WritableEncodes(order, a[0]);
      WritableEncodes(order, b[0]);
      var s, t := EntriesEncoding(order, a[1..]).bytes, EntriesEncoding(order, b[1..]).bytes;
      var d, e := EntryEncoding(order, a[0]).value, EntryEncoding(order, b[0]).value;
      assert d + s + r == d + (s + r);
      assert e + t + q == e + (t + q);
      PairDelimited(order, a[0], s + r, b[0], t + q);
      EntriesDelimited(order, a[1..], r, b[1..], q);
    }
  }

  lemma {:induction false} PairDelimited(order: ByteOrder, d: Entry, r: bytes, e: Entry, q: bytes)
    requires SupportedEntry(d) && SupportedEntry(e) && Writable(d) && Writable(e)
    requires Encoded(order, d.key) + Encoded(order, d.val) + r == Encoded(order, e.key) + Encoded(order, e.val) + q
    ensures NormEntry(d) == NormEntry(e) && r == q
    decreases d, 0
  {
    hide Encoded, Norm;
    var s, t := Encoded(order, d.val) + r, Encoded(order, e.val) + q;
    assert Encoded(order, d.key) + Encoded(order, d.val) + r == Encoded(order, d.key) + s;
    assert Encoded(order, e.key) + Encoded(order, e.val) + q == Encoded(order, e.key) + t;
    SelfDelimiting(order, d.key, s, e.key, t);
    SelfDelimiting(order, d.val, r, e.val, q);
  }
}
