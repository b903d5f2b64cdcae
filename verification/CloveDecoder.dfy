/** The decoder on arbitrary bytes: what it leaves is a suffix, and when it makes progress. */
module CloveDecoder {
  import opened Bytes
  import opened CloveCodec

  /** The header is whole and its tag is unknown or reserved: Decode returns its input. */
  predicate Stalls(order: ByteOrder, raw: bytes) {
    && raw != [] && raw[0] >= 0x80 && ParseHeader(order, raw).Header?
    && (raw[0] % 0x20 == 0 || raw[0] % 0x20 >= RESERVED)
  }

  lemma HeaderSuffix(order: ByteOrder, raw: bytes)
    requires raw != [] && raw[0] >= 0x80 && ParseHeader(order, raw).Header?
    ensures var h := ParseHeader(order, raw);
            IsSuffix(h.data, raw) && |h.data| < |raw| && h.tag == raw[0] % 0x20
  {
  }

  lemma ScalarSuffix(order: ByteOrder, tag: nat, count: nat, data: bytes, raw: bytes)
    requires count <= |data| < |raw| && IsSuffix(data, raw) && tag != MAP && tag != LIST && tag < 0x20
    ensures var r := DecodeScalar(order, tag, count, data, raw);
            && IsSuffix(r.Remainder(), raw)
            && (|r.Remainder()| == |raw| <==> tag == 0 || tag >= RESERVED)
            && (|r.Remainder()| == |raw| ==> r == Done(Nil, raw))
  {
    assert IsSuffix(data[count..], raw);
  }

  /** What is left is always a suffix of the input, and all of it is left without an error
      exactly for unknown and reserved tags, which yield nil. */
  lemma {:induction false} RemainderIsSuffix(order: ByteOrder, raw: bytes)
    ensures var r := Decoding(order, raw);
            && IsSuffix(r.Remainder(), raw)
            && (!r.Failed? && |r.Remainder()| == |raw| ==> r == Done(Nil, raw) && Stalls(order, raw))
            && (Stalls(order, raw) && !r.Failed? ==> r == Done(Nil, raw))
    decreases |raw|, 0
  {
    if raw == [] || raw[0] < 0x80 || ParseHeader(order, raw).Short? {
      return;
    }
    var h := ParseHeader(order, raw);
    HeaderSuffix(order, raw);
    ElementBody(order, raw);
    if h.tag == MAP {
      EntriesSuffix(order, h.data, h.count, []);
      SuffixTransitive(Decoding(order, raw).Remainder(), h.data, raw);
    } else if h.tag == LIST {
      ItemsSuffix(order, h.data, h.count, []);
      SuffixTransitive(Decoding(order, raw).Remainder(), h.data, raw);
    } else if |h.data| % TWO32 >= h.count {
      ScalarSuffix(order, h.tag, h.count, h.data, raw);
    }
  }

  lemma {:induction false} ItemsSuffix(order: ByteOrder, data: bytes, n: nat, items: seq<Value>)
    ensures IsSuffix(ItemsDecoding(order, data, n, items).Remainder(), data)
    decreases |data|, 2, n
  {
    hide Decoding, ItemsDecoding;
    ItemsStep(order, data, n, items);
    if n != 0 {
      var v := Decoding(order, data);
      RemainderIsSuffix(order, data);
      if !v.Failed? {
        var rest := ItemsDecoding(order, v.Remainder(), n - 1, items + [v.Result()]);
        ItemsSuffix(order, v.Remainder(), n - 1, items + [v.Result()]);
        SuffixTransitive(rest.Remainder(), v.Remainder(), data);
      }
    }
  }

  lemma {:induction false} PairSuffix(order: ByteOrder, data: bytes)
    ensures PairDecoding(order, data).Pair? ==> IsSuffix(PairDecoding(order, data).rest, data)
    decreases |data|, 1
  {
    hide Decoding, PairDecoding;
    PairStep(order, data);
    var k := Decoding(order, data);
    RemainderIsSuffix(order, data);
    if !k.Failed? {
      RemainderIsSuffix(order, k.Remainder());
      SuffixTransitive(Decoding(order, k.Remainder()).Remainder(), k.Remainder(), data);
    }
  }

  lemma {:induction false} EntriesSuffix(order: ByteOrder, data: bytes, n: nat, m: seq<Entry>)
    ensures IsSuffix(EntriesDecoding(order, data, n, m).Remainder(), data)
    decreases |data|, 2, n
  {
    hide PairDecoding, EntriesDecoding;
    EntriesStep(order, data, n, m);
    if n != 0 {
      PairSuffix(order, data);
      var p := PairDecoding(order, data);
      if p.Pair? && Hashable(p.e.key) {
        EntriesSuffix(order, p.rest, n - 1, Put(m, p.e.key, p.e.val));
        SuffixTransitive(EntriesDecoding(order, data, n, m).Remainder(), p.rest, data);
      }
    }
  }
}
