/** Consequences of the round trip: what it promises below 4 GiB, and that no strict prefix of an
    encoding decodes. */
module CloveTheorems {
  import opened Bytes
  import opened CloveCodec
  import opened CloveRoundTrip

  // ---------- inputs below 4 GiB ----------

  /** Below 2^32 bytes no length check wraps. */
  lemma {:induction false} FitsBelow4G(order: ByteOrder, v: Value, tail: nat)
    requires Supported(v) && |Encoded(order, v)| + tail < TWO32
    ensures Fits(order, v, tail)
    decreases v, 0
  {
    EncodedLength(order, v);
    hide Encoded, ItemsEncoding, EntriesEncoding, PayloadLength, FitsItems, FitsEntries, NormEntries;
    if v.List? {
      ItemsFitBelow4G(order, v.items, tail);
    } else if v.Map? {
      EntriesFitBelow4G(order, v.entries, tail);
    }
  }

  lemma EncodedLength(order: ByteOrder, v: Value)
    requires Supported(v)
    ensures |Encoded(order, v)| >=
            if v.List? then |ItemsEncoding(order, v.items)|
            else if v.Map? then |EntriesEncoding(order, v.entries).bytes|
            else PayloadLength(v)
  {
    hide ItemsEncoding, EntriesEncoding, PutUint;
    if !v.List? && !v.Map? {
      assert Encoded(order, v) == EncodeScalar(order, v);
    }
  }

  lemma {:induction false} ItemsFitBelow4G(order: ByteOrder, items: seq<Value>, tail: nat)
    requires SupportedItems(items) && |ItemsEncoding(order, items)| + tail < TWO32
    ensures FitsItems(order, items, tail)
    decreases items, 1
  {
    hide Encoded, Fits, Norm;
    if items != [] {
      FirstItemEncoding(order, items);
      FitsBelow4G(order, items[0], |ItemsEncoding(order, items[1..])| + tail);
      ItemsFitBelow4G(order, items[1..], tail);
    }
  }

  lemma {:induction false} EntriesFitBelow4G(order: ByteOrder, entries: seq<Entry>, tail: nat)
    requires SupportedEntries(entries) && |EntriesEncoding(order, entries).bytes| + tail < TWO32
    ensures FitsEntries(order, entries, tail)
    decreases entries, 1
  {
    hide Encoded, EntryEncoding, Fits, Norm, NormEntries;
    if entries != [] {
      WritableEncodes(order, entries[0]);
      if Writable(entries[0]) {
        EntryFitsBelow4G(order, entries[0], |EntriesEncoding(order, entries[1..]).bytes| + tail);
      }
      EntriesFitBelow4G(order, entries[1..], tail);
    }
  }

  lemma {:induction false} EntryFitsBelow4G(order: ByteOrder, e: Entry, tail: nat)
    requires Writable(e) && SupportedEntry(e)
    requires |Encoded(order, e.key)| + |Encoded(order, e.val)| + tail < TWO32
    ensures FitsEntry(order, e, tail)
    decreases e, 0
  {
    hide Encoded, Fits, Norm;
    FitsBelow4G(order, e.key, |Encoded(order, e.val)| + tail);
    FitsBelow4G(order, e.val, tail);
  }

  /** The codec's promise on every input a 32-bit length can describe. */
  lemma DecodeUndoesEncode(order: ByteOrder, v: Value, r: bytes)
    requires Supported(v) && |Encoded(order, v)| + |r| < TWO32
    ensures Encoding(order, v) == Some(Encoded(order, v))
    ensures Decoding(order, Encoded(order, v) + r) == Done(Norm(v), r)
  {
    FitsBelow4G(order, v, |r|);
    RoundTrip(order, v, r);
  }

  /** Beyond that it fails: a one-byte string with 2^32 - 1 bytes behind it. */
  lemma LongTailRefuted(order: ByteOrder, r: bytes)
    requires |r| == TWO32 - 1
    ensures var v := Str([0]);
            Supported(v) && Decoding(order, Encoded(order, v) + r) == Failed(HeaderTooShort, [])
  {
    RoundTrip(order, Str([0]), r);
  }

  // ---------- strict prefixes ----------

  lemma ShortHeaderFails(order: ByteOrder, tag: nat, n: nat, p: bytes)
    requires tag < 0x20 && IsStrictPrefix(p, MakeHeaderAndLength(order, tag, n))
    ensures Decoding(order, p).Failed?
  {
    hide Uint, PutUint, BodyDecoding, TypeSize;
    if p != [] {
      assert p[0] == MakeHeaderAndLength(order, tag, n)[0];
      assert ParseHeader(order, p).Short?;
      assert Decoding(order, p) == ElementDecoding(order, p);
    }
  }

  lemma ScalarPrefixFails(order: ByteOrder, v: Value, p: bytes)
    requires Supported(v) && !v.Map? && !v.List? && IsStrictPrefix(p, EncodeScalar(order, v))
    ensures Decoding(order, p).Failed?
  {
    if p == [] {
      return;
    }
    match v
    case Int(kind, n) =>
      IntPayloadFits(kind, n);
      FixedPrefixFails(order, IntTag(n), PutUint(order, IntPayload(n), TypeSize(IntTag(n))), p);
    case Float32(bits) =>
      FloatPayloadFits(bits);
      FixedPrefixFails(order, FloatTag(bits), PutUint(order, bits, TypeSize(FloatTag(bits))), p);
    case Float64(bits) =>
      FloatPayloadFits(bits);
      FixedPrefixFails(order, FloatTag(bits), PutUint(order, bits, TypeSize(FloatTag(bits))), p);
    case Str(s) => StringPrefixFails(order, STRING, s, p);
    case Blob(s) => StringPrefixFails(order, BYTES, s, p);
    case _ =>
  }

  /** A scalar whose payload is cut short fails its length check. */
  lemma ShortBodyFails(order: ByteOrder, raw: bytes, tag: nat, count: nat, data: bytes)
    requires raw != [] && raw[0] >= 0x80 && ParseHeader(order, raw) == Header(tag, count, data)
    requires tag != MAP && tag != LIST && |data| < count < TWO32
    ensures Decoding(order, raw).Failed?
  {
    ElementBody(order, raw);
  }

  lemma FixedPrefixFails(order: ByteOrder, tag: nat, payload: bytes, p: bytes)
    requires TypeSize(tag) == |payload| > 0 && p != [] && IsStrictPrefix(p, [MakeHeader(tag, 0)] + payload)
    ensures Decoding(order, p).Failed?
  {
    assert p == [MakeHeader(tag, 0)] + p[1..];
    DefaultHeader(order, tag, p[1..]);
    ShortBodyFails(order, p, tag, |payload|, p[1..]);
  }

  lemma StringPrefixFails(order: ByteOrder, tag: nat, s: bytes, p: bytes)
    requires (tag == STRING || tag == BYTES) && |s| < TWO32
    requires IsStrictPrefix(p, MakeHeaderAndLength(order, tag, |s|) + s)
    ensures Decoding(order, p).Failed?
  {
    var h := MakeHeaderAndLength(order, tag, |s|);
    PrefixOfSum(p, h, s);
    hide MakeHeaderAndLength, ParseHeader, Decoding;
    if |p| < |h| {
      ShortHeaderFails(order, tag, |s|, p);
    } else {
      CountedHeader(order, tag, |s|, p[|h|..]);
      ShortBodyFails(order, p, tag, |s|, p[|h|..]);
    }
  }

  /** No strict prefix of an encoding decodes to a value: every one is an error. */
  lemma {:induction false} StrictPrefixFails(order: ByteOrder, v: Value, p: bytes)
    requires Supported(v) && IsStrictPrefix(p, Encoded(order, v))
    ensures Decoding(order, p).Failed?
    decreases v, 0
  {
    hide MakeHeaderAndLength, ParseHeader, Decoding, ItemsEncoding, EntriesEncoding, ItemsDecoding, EntriesDecoding,
      DecodeScalar, NormEntries, EncodeScalar;
    if v.List? {
      var h, body := MakeHeaderAndLength(order, LIST, |v.items|), ItemsEncoding(order, v.items);
      PrefixOfSum(p, h, body);
      if |p| < |h| {
        ShortHeaderFails(order, LIST, |v.items|, p);
      } else {
        var q := p[|h|..];
        ItemsPrefixFails(order, v.items, [], q);
        CountedHeader(order, LIST, |v.items|, q);
        ElementBody(order, p);
      }
    } else if v.Map? {
      var pairs := EntriesEncoding(order, v.entries);
      var h := MakeHeaderAndLength(order, MAP, pairs.count);
      PrefixOfSum(p, h, pairs.bytes);
      if |p| < |h| {
        ShortHeaderFails(order, MAP, pairs.count, p);
      } else {
        var q := p[|h|..];
        EntriesPrefixFails(order, v.entries, [], q);
        EntriesCount(order, v.entries);
        CountedHeader(order, MAP, pairs.count, q);
        ElementBody(order, p);
      }
    } else {
      ScalarPrefixFails(order, v, p);
    }
  }

  lemma {:induction false} ItemsPrefixFails(order: ByteOrder, items: seq<Value>, done: seq<Value>, p: bytes)
    requires SupportedItems(items) && IsStrictPrefix(p, ItemsEncoding(order, items))
    ensures ItemsDecoding(order, p, |items|, done).Failed?
    decreases items, 1
  {
    var first, rest := Encoded(order, items[0]), ItemsEncoding(order, items[1..]);
    FirstItemEncoding(order, items);
    ItemsStep(order, p, |items|, done);
    hide Decoding, ItemsDecoding, ItemsEncoding, Encoded, Fits, Norm;
    PrefixOfSum(p, first, rest);
    hide IsStrictPrefix;
    if |p| < |first| {
      StrictPrefixFails(order, items[0], p);
    } else {
      var q := p[|first|..];
      RoundTrip(order, items[0], q);
      if Fits(order, items[0], |q|) {
        ItemsPrefixFails(order, items[1..], done + [Norm(items[0])], q);
      }
    }
  }

  lemma {:induction false} EntriesPrefixFails(order: ByteOrder, entries: seq<Entry>, m: seq<Entry>, p: bytes)
    requires SupportedEntries(entries) && IsStrictPrefix(p, EntriesEncoding(order, entries).bytes)
    ensures EntriesDecoding(order, p, EntriesEncoding(order, entries).count, m).Failed?
    decreases entries, 1
  {
    var e, rest := entries[0], EntriesEncoding(order, entries[1..]);
    WritableEncodes(order, e);
    hide PairDecoding, EntriesDecoding, EntryEncoding, Encoded, FitsEntry, Norm;
    if !Writable(e) {
      EntriesPrefixFails(order, entries[1..], m, p);
      return;
    }
    var first := Encoded(order, e.key) + Encoded(order, e.val);
    assert EntriesEncoding(order, entries) == Pairs(rest.count + 1, first + rest.bytes);
    EntriesStep(order, p, rest.count + 1, m);
    PrefixOfSum(p, first, rest.bytes);
    hide IsStrictPrefix, KeyEq, Put;
    if |p| < |first| {
      PairPrefixFails(order, e, p);
    } else {
      var q, n := p[|first|..], NormEntry(e);
      PairRoundTrip(order, e, q);
      if FitsEntry(order, e, |q|) {
        EntriesPrefixFails(order, entries[1..], Put(m, n.key, n.val), q);
      }
    }
  }

  lemma {:induction false} PairPrefixFails(order: ByteOrder, e: Entry, p: bytes)
    requires Writable(e) && SupportedEntry(e)
    requires IsStrictPrefix(p, Encoded(order, e.key) + Encoded(order, e.val))
    ensures PairDecoding(order, p).PairFailed?
    decreases e, 0
  {
    PairStep(order, p);
    hide Decoding, PairDecoding, Encoded, Fits, Norm;
    hide IsStrictPrefix;
    var k := Encoded(order, e.key);
    PrefixOfSum(p, k, Encoded(order, e.val));
    if |p| < |k| {
      StrictPrefixFails(order, e.key, p);
    } else {
      var q := p[|k|..];
      RoundTrip(order, e.key, q);
      StrictPrefixFails(order, e.val, q);
    }
  }
}
