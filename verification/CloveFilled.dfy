/** A value with missing list items never comes back with nil in their place. */
module CloveFilled {
  import opened Bytes
  import opened CloveCodec
  import opened CloveRoundTrip
  import opened CloveMissing

  // ---------- nil for every missing item ----------

  /** The normal form of a value, with nil in place of each item the encoder cannot write. */
  function Filled(v: Value): Value
    decreases v, 0
  {
    match v
    case List(items) => List(FilledItems(items))
    case Map(entries) => Map(PutAll([], FilledEntries(entries)))
    case Unsupported => Nil
    case _ => Norm(v)
  }

  function FilledItems(items: seq<Value>): seq<Value>
    decreases items, 1
  {
    if items == [] then [] else [Filled(items[0])] + FilledItems(items[1..])
  }

  function FilledEntries(entries: seq<Entry>): seq<Entry>
    decreases entries, 1
  {
    if entries == [] then []
    else if Writable(entries[0]) then [FilledEntry(entries[0])] + FilledEntries(entries[1..])
    else FilledEntries(entries[1..])
  }

  function FilledEntry(e: Entry): Entry
    decreases e, 0
  {
    Entry(Norm(e.key), Filled(e.val))
  }

  lemma {:induction false} FilledSupported(v: Value)
    requires Supported(v)
    ensures Filled(v) == Norm(v)
    decreases v, 0
  {
    if v.List? {
      FilledSupportedItems(v.items);
    } else if v.Map? {
      FilledSupportedEntries(v.entries);
    }
  }

  lemma {:induction false} FilledSupportedItems(items: seq<Value>)
    requires SupportedItems(items)
    ensures FilledItems(items) == NormItems(items)
    decreases items, 1
  {
    if items != [] {
      FilledSupported(items[0]);
      FilledSupportedItems(items[1..]);
    }
  }

  lemma {:induction false} FilledSupportedEntries(entries: seq<Entry>)
    requires SupportedEntries(entries)
    ensures FilledEntries(entries) == NormEntries(entries)
    decreases entries, 1
  {
    if entries != [] {
      if Writable(entries[0]) {
        FilledSupportedEntry(entries[0]);
      }
      FilledSupportedEntries(entries[1..]);
    }
  }

  lemma {:induction false} FilledSupportedEntry(e: Entry)
    requires SupportedEntry(e) && Writable(e)
    ensures FilledEntry(e) == NormEntry(e)
    decreases e, 0
  {
    FilledSupported(e.val);
  }

  lemma {:induction false} FilledLength(order: ByteOrder, entries: seq<Entry>)
    ensures |FilledEntries(entries)| == EntriesEncoding(order, entries).count
  {
    hide Filled, Norm, EntryEncoding;
    if entries != [] {
      WritableEncodes(order, entries[0]);
      FilledLength(order, entries[1..]);
    }
  }

  lemma {:induction false} PutDiffers(m: seq<Entry>, k: Value, a: Value, b: Value)
    requires a != b
    ensures Put(m, k, a) != Put(m, k, b)
    decreases |m|
  {
    hide KeyEq;
    if m == [] {
      assert Put(m, k, a)[0] != Put(m, k, b)[0];
    } else if KeyEq(m[0].key, k) {
      assert Put(m, k, a)[0] != Put(m, k, b)[0];
    } else {
      PutDiffers(m[1..], k, a, b);
      assert Put(m, k, a)[1..] == Put(m[1..], k, a) && Put(m, k, b)[1..] == Put(m[1..], k, b);
    }
  }

  // ---------- a missing item is noticed or changes the value ----------

  lemma {:induction false} NeverFilled(order: ByteOrder, v: Value)
    requires Mixed(v) && Missing(v) > 0
    ensures var d := Decoding(order, Encoded(order, v)); d.Failed? || d.Result() != Filled(v)
    decreases v, 0
  {
    hide Decoding, Encoded, ItemsDecoding, EntriesDecoding;
    assert Encoded(order, v) + [] == Encoded(order, v);
    if v.List? {
      var body := ItemsEncoding(order, v.items);
      assert body + [] == body && [] + FilledItems(v.items) == FilledItems(v.items);
      ItemsNeverFilled(order, v.items, []);
      ListBody(order, v, []);
    } else {
      var body := EntriesEncoding(order, v.entries).bytes;
      assert body + [] == body;
      EntriesNeverFilled(order, v.entries, []);
      MapBody(order, v, []);
    }
  }

  lemma {:induction false} ItemsNeverFilled(order: ByteOrder, items: seq<Value>, done: seq<Value>)
    requires MixedItems(items) && MissingItems(items) > 0
    ensures var d := ItemsDecoding(order, ItemsEncoding(order, items), |items|, done);
            d.Failed? || d.Result() != List(done + FilledItems(items))
    decreases items, 1
  {
    hide Decoding, ItemsDecoding, ItemsEncoding, Encoded, Mixed, Missing, Filled, Norm, Supported, Fits;
    var v, rest := items[0], items[1..];
    var r := ItemsEncoding(order, rest);
    if v.Unsupported? || Missing(v) > 0 {
      if rest == [] {
        LastItemMissing(order, v, done);
        assert items == [v];
      } else {
        FirstItemMissing(order, items);
        ItemsSkip(order, ItemsEncoding(order, items), |items|, done);
      }
    } else {
      SupportedIff(v);
      FilledSupported(v);
      FirstItemEncoding(order, items);
      RoundTrip(order, v, r);
      ItemsStep(order, Encoded(order, v) + r, |items|, done);
      ItemsNeverFilled(order, rest, done + [Norm(v)]);
      assert done + FilledItems(items) == done + [Norm(v)] + FilledItems(rest);
    }
  }

  lemma {:induction false} LastItemMissing(order: ByteOrder, v: Value, done: seq<Value>)
    requires v.Unsupported? || (Mixed(v) && Missing(v) > 0)
    ensures var d := ItemsDecoding(order, ItemsEncoding(order, [v]), 1, done);
            d.Failed? || d.Result() != List(done + FilledItems([v]))
    decreases v, 1
  {
    hide Decoding, ItemsDecoding, Encoded, Mixed, Missing, Filled;
    assert [v][1..] == [];
    ItemsStep(order, ItemsEncoding(order, [v]), 1, done);
    if v.Unsupported? {
      assert ItemsEncoding(order, [v]) == [];
      NothingDecodes(order);
    } else {
      FirstItemEncoding(order, [v]);
      assert ItemsEncoding(order, [v]) == Encoded(order, v) + [] == Encoded(order, v);
      NeverFilled(order, v);
      var d := Decoding(order, Encoded(order, v));
      if !d.Failed? {
        ItemsStep(order, d.Remainder(), 0, done + [d.Result()]);
        assert (done + [d.Result()])[|done|] != (done + FilledItems([v]))[|done|];
      }
    }
  }

  lemma NothingDecodes(order: ByteOrder)
    ensures Decoding(order, []).Failed?
  {
  }

  /** An item that misses something takes it from the items behind it, and the last of them
      finds nothing. */
  lemma FirstItemMissing(order: ByteOrder, items: seq<Value>)
    requires MixedItems(items) && |items| > 1 && (items[0].Unsupported? || Missing(items[0]) > 0)
    ensures Skip(order, ItemsEncoding(order, items), |items|) == None
  {
    hide Encoded, Skip, Missing, Mixed;
    var v, rest := items[0], items[1..];
    var r := ItemsEncoding(order, rest);
    var j := if v.Unsupported? then 1 else Missing(v);
    assert r + [] == r;
    NothingLeft(order, j + MissingItems(rest));
    ItemsTakeMore(order, rest, [], j);
    if v.Unsupported? {
      assert ItemsEncoding(order, items) == [] + r == r;
    } else {
      FirstItemEncoding(order, items);
      TakesMore(order, v, r, |rest|);
    }
  }

  lemma {:induction false} EntriesNeverFilled(order: ByteOrder, entries: seq<Entry>, m: seq<Entry>)
    requires MixedEntries(entries) && MissingEntries(entries) > 0
    ensures var pairs := EntriesEncoding(order, entries);
            var d := EntriesDecoding(order, pairs.bytes, pairs.count, m);
            !d.Done? || d.value != Map(PutAll(m, FilledEntries(entries)))
    decreases entries, 1
  {
    hide EntriesDecoding, EntryEncoding, MixedEntry, MissingParts, FilledEntry, NormEntry, SupportedEntry, FitsEntry,
      Put;
    var e, rest := entries[0], EntriesEncoding(order, entries[1..]);
    WritableEncodes(order, e);
    if !Writable(e) {
      EntriesNeverFilled(order, entries[1..], m);
    } else if MissingParts(e) > 0 {
      FilledLength(order, entries[1..]);
      if rest.count == 0 {
        NoPairsLeft(order, entries[1..]);
        LastPairMissing(order, e, m);
        var first := Encoded(order, e.key) + Encoded(order, e.val);
        assert first + [] == first;
      } else {
        FirstPairMissing(order, entries);
        EntriesSkip(order, EntriesEncoding(order, entries).bytes, EntriesEncoding(order, entries).count, m);
      }
    } else {
      EntrySupportedIff(e);
      FilledSupportedEntry(e);
      FirstEntry(order, entries, m, []);
      assert EntriesEncoding(order, entries).bytes + [] == EntriesEncoding(order, entries).bytes;
      assert rest.bytes + [] == rest.bytes;
      var n := NormEntry(e);
      EntriesNeverFilled(order, entries[1..], Put(m, n.key, n.val));
    }
  }

  lemma {:induction false} NoPairsLeft(order: ByteOrder, entries: seq<Entry>)
    requires EntriesEncoding(order, entries).count == 0
    ensures EntriesEncoding(order, entries).bytes == []
  {
    hide EntryEncoding;
    if entries != [] {
      NoPairsLeft(order, entries[1..]);
    }
  }

  lemma {:induction false} LastPairMissing(order: ByteOrder, e: Entry, m: seq<Entry>)
    requires Writable(e) && MixedEntry(e) && MissingParts(e) > 0
    ensures var d := EntriesDecoding(order, Encoded(order, e.key) + Encoded(order, e.val), 1, m);
            !d.Done? || d.value != Map(Put(m, FilledEntry(e).key, FilledEntry(e).val))
    decreases e, 1
  {
    hide Decoding, PairDecoding, EntriesDecoding, Encoded, Put, Filled, Fits;
    var raw := Encoded(order, e.key) + Encoded(order, e.val);
    EntriesStep(order, raw, 1, m);
    PairStep(order, raw);
    SupportedIff(e.key);
    RoundTrip(order, e.key, Encoded(order, e.val));
    NeverFilled(order, e.val);
    var p := PairDecoding(order, raw);
    if p.Pair? {
      EntriesStep(order, p.rest, 0, Put(m, p.e.key, p.e.val));
      PutDiffers(m, p.e.key, p.e.val, Filled(e.val));
    }
  }

  lemma FirstPairMissing(order: ByteOrder, entries: seq<Entry>)
    requires MixedEntries(entries) && entries != [] && Writable(entries[0]) && MissingParts(entries[0]) > 0
    requires EntriesEncoding(order, entries[1..]).count > 0
    ensures var pairs := EntriesEncoding(order, entries);
            Skip(order, pairs.bytes, 2 * pairs.count) == None
  {
    hide Encoded, EntryEncoding, Skip, MissingParts, MixedEntry;
    var e, rest := entries[0], EntriesEncoding(order, entries[1..]);
    WritableEncodes(order, e);
    assert rest.bytes + [] == rest.bytes;
    NothingLeft(order, MissingParts(e) + MissingEntries(entries[1..]));
    EntriesTakeMore(order, entries[1..], [], MissingParts(e));
    PairTakesMore(order, e, rest.bytes, 2 * rest.count);
  }

  /** Whatever the nesting of lists and maps, a value comes back with nil for every missing
      item if and only if none is missing and no length check wraps. */
  lemma RoundTripIffAllWritten(order: ByteOrder, v: Value)
    requires Mixed(v)
    ensures Decoding(order, Encoded(order, v)) == Done(Filled(v), []) <==> Missing(v) == 0 && Fits(order, v, 0)
  {
    hide Decoding, Encoded, Norm, Filled, Fits;
    assert Encoded(order, v) + [] == Encoded(order, v);
    SupportedIff(v);
    if Missing(v) == 0 {
      RoundTrip(order, v, []);
      FilledSupported(v);
    } else {
      NeverFilled(order, v);
    }
  }
}
