/** Values with list items the encoder cannot write: a list counts them all the same, so what is
    missing is taken from what follows. */
module CloveMissing {
  import opened Bytes
  import opened CloveCodec
  import opened CloveRoundTrip

  // ---------- lists in lists ----------

  /** A supported value, or a list of such values and unsupported ones, in any nesting. */
  ghost predicate Nested(v: Value)
    decreases v, 0
  {
    Supported(v) || (v.List? && |v.items| < TWO32 && NestedItems(v.items))
  }

  ghost predicate NestedItems(items: seq<Value>)
    decreases items, 1
  {
    items != [] ==> (items[0].Unsupported? || Nested(items[0])) && NestedItems(items[1..])
  }

  /** How many items are missing, at any depth. */
  function Missing(v: Value): nat
    decreases v, 0
  {
    if v.List? then MissingItems(v.items) else if v.Map? then MissingEntries(v.entries) else 0
  }

  function MissingItems(items: seq<Value>): nat
    decreases items, 1
  {
    if items == [] then 0
    else (if items[0].Unsupported? then 1 else Missing(items[0])) + MissingItems(items[1..])
  }

  function MissingEntries(entries: seq<Entry>): nat
    decreases entries, 1
  {
    if entries == [] then 0
    else (if Writable(entries[0]) then MissingParts(entries[0]) else 0) + MissingEntries(entries[1..])
  }

  function MissingParts(e: Entry): nat
    decreases e, 0
  {
    Missing(e.key) + Missing(e.val)
  }

  // ---------- lists in lists and maps ----------

  /** Supported but for unsupported items of lists, anywhere. */
  ghost predicate Mixed(v: Value)
    decreases v, 0
  {
    match v
    case List(items) => |items| < TWO32 && MixedItems(items)
    case Map(entries) => MixedEntries(entries) && |NormEntries(entries)| < TWO32
    case _ => Supported(v)
  }

  ghost predicate MixedItems(items: seq<Value>)
    decreases items, 1
  {
    items != [] ==> (items[0].Unsupported? || Mixed(items[0])) && MixedItems(items[1..])
  }

  ghost predicate MixedEntries(entries: seq<Entry>)
    decreases entries, 1
  {
    entries != [] ==> MixedEntry(entries[0]) && MixedEntries(entries[1..])
  }

  ghost predicate MixedEntry(e: Entry)
    decreases e, 0
  {
    Writable(e) ==> Mixed(e.key) && Mixed(e.val) && Hashable(e.key)
  }

  /** The supported values are those that miss nothing. */
  lemma {:induction false} SupportedIff(v: Value)
    ensures Supported(v) <==> Mixed(v) && Missing(v) == 0
    decreases v, 0
  {
    if v.List? {
      ItemsSupportedIff(v.items);
    } else if v.Map? {
      EntriesSupportedIff(v.entries);
    }
  }

  lemma {:induction false} ItemsSupportedIff(items: seq<Value>)
    ensures SupportedItems(items) <==> MixedItems(items) && MissingItems(items) == 0
    decreases items, 1
  {
    if items != [] {
      SupportedIff(items[0]);
      ItemsSupportedIff(items[1..]);
    }
  }

  lemma {:induction false} EntriesSupportedIff(entries: seq<Entry>)
    ensures SupportedEntries(entries) <==> MixedEntries(entries) && MissingEntries(entries) == 0
    decreases entries, 1
  {
    if entries != [] {
      if Writable(entries[0]) {
        EntrySupportedIff(entries[0]);
      }
      EntriesSupportedIff(entries[1..]);
    }
  }

  lemma {:induction false} EntrySupportedIff(e: Entry)
    requires Writable(e)
    ensures SupportedEntry(e) <==> MixedEntry(e) && MissingParts(e) == 0
    decreases e, 0
  {
    SupportedIff(e.key);
    SupportedIff(e.val);
  }

  lemma {:induction false} NestedMixed(v: Value)
    requires Nested(v)
    ensures Mixed(v)
    decreases v, 0
  {
    SupportedIff(v);
    if !Supported(v) {
      NestedItemsMixed(v.items);
    }
  }

  lemma {:induction false} NestedItemsMixed(items: seq<Value>)
    requires NestedItems(items)
    ensures MixedItems(items)
    decreases items, 1
  {
    if items != [] {
      if !items[0].Unsupported? {
        NestedMixed(items[0]);
      }
      NestedItemsMixed(items[1..]);
    }
  }

  // ---------- what is missing is taken from what follows ----------

  /** What k elements in a row leave, None if one of them is an error. */
  function Skip(order: ByteOrder, p: bytes, k: nat): Option<bytes>
    decreases k
  {
    if k == 0 then Some(p)
    else
      var v := Decoding(order, p);
      if v.Failed? then None else Skip(order, v.Remainder(), k - 1)
  }

  lemma {:induction false} ItemsSkip(order: ByteOrder, p: bytes, k: nat, done: seq<Value>)
    ensures var d := ItemsDecoding(order, p, k, done);
            match Skip(order, p, k) case None => d.Failed? case Some(r) => d.Done? && d.rest == r
    decreases k
  {
    hide Decoding, ItemsDecoding;
    ItemsStep(order, p, k, done);
    if k > 0 {
      var v := Decoding(order, p);
      if !v.Failed? {
        ItemsSkip(order, v.Remainder(), k - 1, done + [v.Result()]);
      }
    }
  }

  lemma {:induction false} SkipSum(order: ByteOrder, p: bytes, a: nat, b: nat)
    ensures Skip(order, p, a + b) == match Skip(order, p, a) case None => None case Some(r) => Skip(order, r, b)
    decreases a
  {
    hide Decoding;
    if a > 0 {
      var v := Decoding(order, p);
      if !v.Failed? {
        SkipSum(order, v.Remainder(), a - 1, b);
      }
    }
  }

  lemma {:induction false} EntriesSkip(order: ByteOrder, p: bytes, n: nat, m: seq<Entry>)
    ensures var d := EntriesDecoding(order, p, n, m);
            d.Done? ==> Skip(order, p, 2 * n) == Some(d.rest)
    decreases n
  {
    hide Decoding, PairDecoding, EntriesDecoding, Put;
    EntriesStep(order, p, n, m);
    if n > 0 {
      PairStep(order, p);
      var d := PairDecoding(order, p);
      if d.Pair? && Hashable(d.e.key) {
        EntriesSkip(order, d.rest, n - 1, Put(m, d.e.key, d.e.val));
        SkipTwo(order, p, 2 * n);
      }
    }
  }

  lemma SkipTwo(order: ByteOrder, p: bytes, k: nat)
    requires k >= 2 && !Decoding(order, p).Failed? && !Decoding(order, Decoding(order, p).Remainder()).Failed?
    ensures Skip(order, p, k) == Skip(order, Decoding(order, Decoding(order, p).Remainder()).Remainder(), k - 2)
  {
    hide Decoding;
  }

  /** What a value misses, it takes from what follows. A map may recover from a panic instead
      of failing, but it leaves nothing then. */
  lemma {:induction false} TakesMore(order: ByteOrder, v: Value, q: bytes, k: nat)
    requires Mixed(v) && (k > 0 || Nested(v))
    requires Skip(order, q, k + Missing(v)) == None
    ensures Skip(order, Encoded(order, v) + q, k + 1) == None
    decreases v, 0
  {
    hide Decoding, Encoded;
    SupportedIff(v);
    if Supported(v) {
      RoundTrip(order, v, q);
    } else if v.List? {
      ItemsTakeMore(order, v.items, q, k);
      ListTakesMore(order, v, q, k);
    } else {
      EntriesTakeMore(order, v.entries, q, k);
      MapTakesMore(order, v, q, k);
    }
  }

  lemma ListTakesMore(order: ByteOrder, v: Value, q: bytes, k: nat)
    requires v.List? && |v.items| < TWO32
    requires Skip(order, ItemsEncoding(order, v.items) + q, |v.items| + k) == None
    ensures Skip(order, Encoded(order, v) + q, k + 1) == None
  {
    hide Decoding, ItemsDecoding, Encoded;
    var n, body := |v.items|, ItemsEncoding(order, v.items) + q;
    SkipSum(order, body, n, k);
    ItemsSkip(order, body, n, []);
    ListBody(order, v, q);
  }

  lemma MapTakesMore(order: ByteOrder, v: Value, q: bytes, k: nat)
    requires v.Map? && |NormEntries(v.entries)| < TWO32 && k > 0
    requires var pairs := EntriesEncoding(order, v.entries);
             Skip(order, pairs.bytes + q, 2 * pairs.count + k) == None
    ensures Skip(order, Encoded(order, v) + q, k + 1) == None
  {
    hide Decoding, EntriesDecoding, Encoded, EntriesEncoding, NormEntries;
    var n, body := EntriesEncoding(order, v.entries).count, EntriesEncoding(order, v.entries).bytes + q;
    SkipSum(order, body, 2 * n, k);
    EntriesSkip(order, body, n, []);
    MapBody(order, v, q);
    NothingLeft(order, k);
  }

  lemma {:induction false} ItemsTakeMore(order: ByteOrder, items: seq<Value>, q: bytes, j: nat)
    requires MixedItems(items) && (j > 0 || NestedItems(items))
    requires Skip(order, q, j + MissingItems(items)) == None
    ensures Skip(order, ItemsEncoding(order, items) + q, |items| + j) == None
    decreases items, 1
  {
    hide Encoded, Skip, Missing, Nested, Mixed;
    if items == [] {
      assert [] + q == q;
      return;
    }
    var v, rest := items[0], ItemsEncoding(order, items[1..]);
    if v.Unsupported? {
      assert ItemsEncoding(order, items) == [] + rest == rest;
      ItemsTakeMore(order, items[1..], q, j + 1);
    } else {
      FirstItemEncoding(order, items);
      assert Encoded(order, v) + rest + q == Encoded(order, v) + (rest + q);
      ItemsTakeMore(order, items[1..], q, j + Missing(v));
      TakesMore(order, v, rest + q, |items| - 1 + j);
    }
  }

  lemma {:induction false} EntriesTakeMore(order: ByteOrder, entries: seq<Entry>, q: bytes, j: nat)
    requires MixedEntries(entries) && j > 0 && Skip(order, q, j + MissingEntries(entries)) == None
    ensures var pairs := EntriesEncoding(order, entries);
            Skip(order, pairs.bytes + q, 2 * pairs.count + j) == None
    decreases entries, 1
  {
    hide EntryEncoding, Encoded, Skip, MissingParts, MixedEntry;
    if entries == [] {
      assert [] + q == q;
      return;
    }
    var e, rest := entries[0], EntriesEncoding(order, entries[1..]);
    WritableEncodes(order, e);
    if Writable(e) {
      var first := Encoded(order, e.key) + Encoded(order, e.val);
      assert first + rest.bytes + q == first + (rest.bytes + q);
      EntriesTakeMore(order, entries[1..], q, j + MissingParts(e));
      PairTakesMore(order, e, rest.bytes + q, 2 * rest.count + j);
    } else {
      EntriesTakeMore(order, entries[1..], q, j);
    }
  }

  lemma {:induction false} PairTakesMore(order: ByteOrder, e: Entry, q: bytes, k: nat)
    requires Writable(e) && MixedEntry(e) && k > 0 && Skip(order, q, k + MissingParts(e)) == None
    ensures Skip(order, Encoded(order, e.key) + Encoded(order, e.val) + q, k + 2) == None
    decreases e, 0
  {
    hide Skip, Encoded;
    assert Missing(e.key) == 0;
    assert Encoded(order, e.key) + Encoded(order, e.val) + q == Encoded(order, e.key) + (Encoded(order, e.val) + q);
    TakesMore(order, e.val, q, k);
    TakesMore(order, e.key, Encoded(order, e.val) + q, k + 1);
  }

  /** Whatever the nesting, a list decodes exactly when no item is missing and no length check
      wraps; otherwise decoding it is an error. */
  lemma ListDecodesIffAllWritten(order: ByteOrder, v: Value)
    requires Nested(v)
    ensures var d := Decoding(order, Encoded(order, v));
            if Missing(v) == 0 && Fits(order, v, 0) then d == Done(Norm(v), []) else d.Failed?
  {
    hide Decoding, Encoded, Fits;
    var raw := Encoded(order, v);
    assert raw + [] == raw;
    NestedMixed(v);
    SupportedIff(v);
    if Missing(v) == 0 {
      RoundTrip(order, v, []);
    } else {
      NothingLeft(order, Missing(v));
      TakesMore(order, v, [], 0);
      SkipOne(order, raw);
    }
  }

  lemma SkipOne(order: ByteOrder, p: bytes)
    ensures Skip(order, p, 1) == None <==> Decoding(order, p).Failed?
  {
    hide Decoding;
    var v := Decoding(order, p);
    assert !v.Failed? ==> Skip(order, v.Remainder(), 0) == Some(v.Remainder());
  }

  lemma NothingLeft(order: ByteOrder, k: nat)
    requires k > 0
    ensures Skip(order, [], k) == None
  {
  }

  // ---------- decoded values ----------

  /** No unsupported value anywhere. */
  predicate Plain(v: Value)
    decreases v, 0
  {
    match v
    case List(items) => PlainItems(items)
    case Map(entries) => PlainEntries(entries)
    case Unsupported => false
    case _ => true
  }

  predicate PlainItems(items: seq<Value>)
    decreases items, 1
  {
    items != [] ==> Plain(items[0]) && PlainItems(items[1..])
  }

  predicate PlainEntries(entries: seq<Entry>)
    decreases entries, 1
  {
    entries != [] ==> PlainEntry(entries[0]) && PlainEntries(entries[1..])
  }

  predicate PlainEntry(e: Entry)
    decreases e, 0
  {
    Plain(e.key) && Plain(e.val)
  }

  lemma {:induction false} PlainJoin(items: seq<Value>, v: Value)
    requires PlainItems(items) && Plain(v)
    ensures PlainItems(items + [v])
    decreases |items|
  {
    hide Plain;
    if items == [] {
      assert [v][1..] == [];
    } else {
      PlainJoin(items[1..], v);
      assert (items + [v])[1..] == items[1..] + [v];
    }
  }

  lemma {:induction false} PlainPut(m: seq<Entry>, k: Value, v: Value)
    requires PlainEntries(m) && Plain(k) && Plain(v)
    ensures PlainEntries(Put(m, k, v))
    decreases |m|
  {
    hide Plain, KeyEq;
    if m == [] {
      assert [Entry(k, v)][1..] == [];
    } else {
      PlainPut(m[1..], k, v);
      assert ([Entry(k, v)] + m[1..])[1..] == m[1..];
      assert ([m[0]] + Put(m[1..], k, v))[1..] == Put(m[1..], k, v);
    }
  }

  lemma ScalarPlain(order: ByteOrder, tag: nat, count: nat, data: bytes, raw: bytes)
    requires count <= |data| < |raw|
    ensures var r := DecodeScalar(order, tag, count, data, raw); r.Done? ==> Plain(r.value)
  {
    hide ParseInt, Uint, TypeSize;
  }

  /** Decoding yields no unsupported value. */
  lemma {:induction false} DecodedPlain(order: ByteOrder, raw: bytes)
    ensures Plain(Decoding(order, raw).Result())
    decreases |raw|, 0
  {
    if raw == [] || raw[0] < 0x80 || ParseHeader(order, raw).Short? {
      return;
    }
    var h := ParseHeader(order, raw);
    ElementBody(order, raw);
    hide ParseHeader, Decoding;
    if h.tag == MAP {
      EntriesPlain(order, h.data, h.count, []);
    } else if h.tag == LIST {
      ItemsPlain(order, h.data, h.count, []);
    } else if |h.data| % TWO32 >= h.count {
      ScalarPlain(order, h.tag, h.count, h.data, raw);
    }
  }

  lemma {:induction false} ItemsPlain(order: ByteOrder, data: bytes, n: nat, items: seq<Value>)
    requires PlainItems(items)
    ensures Plain(ItemsDecoding(order, data, n, items).Result())
    decreases |data|, 2, n
  {
    hide Decoding, ItemsDecoding;
    ItemsStep(order, data, n, items);
    if n != 0 {
      var v := Decoding(order, data);
      DecodedPlain(order, data);
      if !v.Failed? {
        PlainJoin(items, v.Result());
        ItemsPlain(order, v.Remainder(), n - 1, items + [v.Result()]);
      }
    }
  }

  lemma {:induction false} EntriesPlain(order: ByteOrder, data: bytes, n: nat, m: seq<Entry>)
    requires PlainEntries(m)
    ensures Plain(EntriesDecoding(order, data, n, m).Result())
    decreases |data|, 2, n
  {
    hide Decoding, PairDecoding, EntriesDecoding;
    EntriesStep(order, data, n, m);
    if n != 0 {
      var p := PairDecoding(order, data);
      PairPlain(order, data);
      if p.Pair? && Hashable(p.e.key) {
        PlainPut(m, p.e.key, p.e.val);
        EntriesPlain(order, p.rest, n - 1, Put(m, p.e.key, p.e.val));
      }
    }
  }

  lemma {:induction false} PairPlain(order: ByteOrder, data: bytes)
    ensures PairDecoding(order, data).Pair? ==> PlainEntry(PairDecoding(order, data).e)
    decreases |data|, 1
  {
    hide Decoding, PairDecoding;
    PairStep(order, data);
    var k := Decoding(order, data);
    DecodedPlain(order, data);
    if !k.Failed? {
      DecodedPlain(order, k.Remainder());
    }
  }

  // ---------- a wrong value without an error ----------

  lemma SmallInt(order: ByteOrder, n: byte, r: bytes)
    requires n < 0x80
    ensures Decoding(order, [n] + r) == Done(Int(KInt, n), r)
  {
    assert ([n] + r)[1..] == r;
  }

  /** The header of a list announcing one item. */
  function OneItem(order: ByteOrder): bytes {
    MakeHeaderAndLength(order, LIST, 1)
  }

  lemma ListOfOne(order: ByteOrder, n: byte, r: bytes)
    requires n < 0x80
    ensures Decoding(order, OneItem(order) + ([n] + r)) == Done(List([Int(KInt, n)]), r)
  {
    CountedHeader(order, LIST, 1, [n] + r);
    ElementBody(order, OneItem(order) + ([n] + r));
    SmallInt(order, n, r);
    hide Decoding, ItemsDecoding, ParseHeader, MakeHeaderAndLength;
    ItemsStep(order, [n] + r, 1, []);
    ItemsStep(order, r, 0, [] + [Int(KInt, n)]);
    assert [] + [Int(KInt, n)] == [Int(KInt, n)];
  }

  /** Three pairs, of which the first has a list that misses its item. */
  function ThreePairs(): seq<Entry> {
    [Entry(Int(KInt, 1), List([Unsupported])), Entry(Int(KInt, 2), List([Int(KInt, 3)])), Entry(Int(KInt, 4), Nil)]
  }

  function ThreePairsBytes(order: ByteOrder): bytes {
    [1] + (OneItem(order) + ([2] + (OneItem(order) + ([3] + ([4] + [MakeHeader(NIL, 0)])))))
  }

  lemma ThreePairsEncoding(order: ByteOrder)
    ensures EntriesEncoding(order, ThreePairs()) == Pairs(3, ThreePairsBytes(order))
  {
    var m := ThreePairs();
    assert m[1..] == [m[1], m[2]] && m[1..][1..] == [m[2]] && m[1..][1..][1..] == [];
    WritableEncodes(order, m[0]);
    WritableEncodes(order, m[1]);
    WritableEncodes(order, m[2]);
    EncodedParts(order);
    hide MakeHeaderAndLength, EntryEncoding, Encoded;
    assert EntriesEncoding(order, m[1..][1..][1..]) == Pairs(0, []);
    assert EntriesEncoding(order, m[1..][1..]).bytes == [4] + [MakeHeader(NIL, 0)] + [];
    assert EntriesEncoding(order, m[1..]).bytes == [2] + (OneItem(order) + [3]) + ([4] + [MakeHeader(NIL, 0)]);
  }

  lemma EncodedParts(order: ByteOrder)
    ensures Encoded(order, Int(KInt, 1)) == [1] && Encoded(order, Int(KInt, 2)) == [2]
    ensures Encoded(order, Int(KInt, 4)) == [4] && Encoded(order, Nil) == [MakeHeader(NIL, 0)]
    ensures Encoded(order, List([Unsupported])) == OneItem(order)
    ensures Encoded(order, List([Int(KInt, 3)])) == OneItem(order) + [3]
  {
    assert [Unsupported][1..] == [] && [Int(KInt, 3)][1..] == [];
    assert Encoded(order, Int(KInt, 3)) == [3];
    FirstItemEncoding(order, [Int(KInt, 3)]);
  }

  lemma MapRecovers(order: ByteOrder)
    ensures EntriesDecoding(order, ThreePairsBytes(order), 3, []) == Recovered
  {
    hide Decoding, PairDecoding, EntriesDecoding, OneItem, MakeHeader, KeyEq;
    var t := [4] + [MakeHeader(NIL, 0)];
    var u := OneItem(order) + ([3] + t);
    var w := OneItem(order) + ([2] + u);
    SmallInt(order, 1, w);
    ListOfOne(order, 2, u);
    ListOfOne(order, 3, t);
    SmallInt(order, 4, [MakeHeader(NIL, 0)]);
    PairStep(order, [1] + w);
    PairStep(order, u);
    EntriesStep(order, [1] + w, 3, []);
    EntriesStep(order, u, 2, Put([], Int(KInt, 1), List([Int(KInt, 2)])));
  }

  lemma MapInList(order: ByteOrder, n: nat, body: bytes)
    requires n < TWO32 && EntriesDecoding(order, body, n, []) == Recovered
    ensures Decoding(order, OneItem(order) + (MakeHeaderAndLength(order, MAP, n) + body)) == Done(List([Nil]), [])
  {
    var m := MakeHeaderAndLength(order, MAP, n) + body;
    CountedHeader(order, MAP, n, body);
    ElementBody(order, m);
    CountedHeader(order, LIST, 1, m);
    ElementBody(order, OneItem(order) + m);
    assert Decoding(order, m) == Recovered;
    hide Decoding, ItemsDecoding, EntriesDecoding, ParseHeader, MakeHeaderAndLength;
    ItemsStep(order, m, 1, []);
    ItemsStep(order, [], 0, [] + [Nil]);
    assert [] + [Nil] == [Nil];
  }

  lemma ThreeEntries()
    ensures var m := ThreePairs();
            MixedEntry(m[0]) && MixedEntry(m[1]) && MixedEntry(m[2]) && !SupportedEntry(m[0])
  {
    assert [Unsupported][1..] == [] && [Int(KInt, 3)][1..] == [];
    assert MixedItems([Unsupported]) && MixedItems([Int(KInt, 3)]) && !SupportedItems([Unsupported]);
  }

  lemma ThreeKeys()
    ensures |NormEntries(ThreePairs())| == 3
  {
    var m := ThreePairs();
    var a, b, c := m[0], m[1], m[2];
    assert m[1..] == [b, c] && [b, c][1..] == [c] && [c][1..] == [];
    assert NormEntries([c]) == [NormEntry(c)] + NormEntries([]);
    assert NormEntries([b, c]) == [NormEntry(b)] + NormEntries([c]);
    assert NormEntries(m) == [NormEntry(a)] + NormEntries([b, c]);
  }

  lemma ThreePairsMixed()
    ensures Mixed(Map(ThreePairs())) && !Supported(Map(ThreePairs()))
  {
    var m := ThreePairs();
    ThreeEntries();
    ThreeKeys();
    hide MixedEntry, SupportedEntry, NormEntries;
    assert m[1..][1..][1..] == [] && m[1..][0] == m[1] && m[1..][1..][0] == m[2];
    assert MixedEntries(m[1..][1..]) && MixedEntries(m[1..]) && MixedEntries(m);
    assert !SupportedEntries(m);
  }

  /** The list takes the next key, the list after it becomes a key, and inserting it panics in
      a nested call: its caller goes on with nil, and no error is reported. */
  lemma WrongWithoutError(order: ByteOrder)
    ensures var v := List([Map(ThreePairs())]);
            Mixed(v) && !Supported(v) && Decoding(order, Encoded(order, v)) == Done(List([Nil]), [])
  {
    var m, body := Map(ThreePairs()), ThreePairsBytes(order);
    ThreePairsMixed();
    ListOfMap(order, m);
    ThreePairsEncoding(order);
    assert Encoded(order, m) == MakeHeaderAndLength(order, MAP, 3) + body;
    MapRecovers(order);
    hide Encoded, EntriesDecoding, ThreePairsBytes, ThreePairs, MakeHeaderAndLength, Decoding;
    MapInList(order, 3, body);
  }

  lemma ListOfMap(order: ByteOrder, m: Value)
    requires m.Map? && Mixed(m) && !Supported(m)
    ensures Mixed(List([m])) && !Supported(List([m])) && Encoded(order, List([m])) == OneItem(order) + Encoded(order, m)
  {
    assert [m][1..] == [] && MixedItems([m]) && !SupportedItems([m]);
    FirstItemEncoding(order, [m]);
    assert ItemsEncoding(order, [m]) == Encoded(order, m) + [] == Encoded(order, m);
  }
}
