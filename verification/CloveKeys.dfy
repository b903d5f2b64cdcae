/** Keys that differ in Go but not once they are decoded: which pairs a map loses, and the
    canonical form of a value. */
module CloveKeys {
  import opened Bytes
  import opened CloveCodec
  import opened CloveRoundTrip

  ghost predicate DistinctKeys(m: seq<Entry>) {
    forall i, j :: 0 <= i < j < |m| ==> !KeyEq(m[i].key, m[j].key)
  }

  ghost predicate Absent(m: seq<Entry>, k: Value) {
    forall i :: 0 <= i < |m| ==> !KeyEq(m[i].key, k)
  }

  lemma KeyEqTransitive(a: Value, b: Value, c: Value)
    ensures KeyEq(a, b) && KeyEq(b, c) ==> KeyEq(a, c)
    ensures KeyEq(a, b) ==> KeyEq(b, a) && KeyEq(a, a)
  {
  }

  /** Only floats can be equal without being the same, or the same without being equal. */
  lemma OtherKeys(a: Value, b: Value)
    requires !(a.Float32? && b.Float32?) && !(a.Float64? && b.Float64?)
    ensures KeyEq(a, b) <==> a == b
  {
  }

  /** A lookup finds the pair with an equal key. */
  lemma {:induction false} LookupFinds(m: seq<Entry>, k: Value, i: nat)
    requires i <= |m| && Absent(m[..i], k) && (i < |m| ==> KeyEq(m[i].key, k))
    ensures Lookup(m, k) == if i < |m| then Some(m[i].val) else None
    decreases i
  {
    hide KeyEq;
    if i > 0 {
      assert m[..i][0] == m[0] && m[1..][..i - 1] == m[..i][1..];
      LookupFinds(m[1..], k, i - 1);
    }
  }

  // ---------- assignments ----------

  lemma {:induction false} PutFresh(m: seq<Entry>, k: Value, v: Value)
    requires Absent(m, k)
    ensures Put(m, k, v) == m + [Entry(k, v)]
  {
    hide KeyEq;
    if m != [] {
      assert Absent(m[1..], k);
      PutFresh(m[1..], k, v);
      assert m == [m[0]] + m[1..];
    }
  }

  /** An equal key keeps its place and gets the new spelling. */
  lemma {:induction false} PutPlace(m: seq<Entry>, k: Value, v: Value, i: nat)
    requires i < |m| && KeyEq(m[i].key, k) && Absent(m[..i], k)
    ensures Put(m, k, v) == m[i := Entry(k, v)]
    decreases i
  {
    hide KeyEq;
    if i > 0 {
      assert m[..i][0] == m[0];
      assert m[1..][..i - 1] == m[..i][1..];
      PutPlace(m[1..], k, v, i - 1);
    }
  }

  /** An equal key is found once. */
  lemma {:induction false} PutHit(m: seq<Entry>, k: Value, v: Value)
    requires !Absent(m, k)
    ensures |Put(m, k, v)| == |m|
    ensures forall c :: Absent(m, c) && !KeyEq(k, c) ==> Absent(Put(m, k, v), c)
    ensures DistinctKeys(m) ==> DistinctKeys(Put(m, k, v))
  {
    hide KeyEq;
    if KeyEq(m[0].key, k) {
      forall j | 0 < j < |m| ensures DistinctKeys(m) ==> !KeyEq(k, m[j].key) {
        KeyEqTransitive(m[0].key, k, m[j].key);
      }
    } else {
      var rest := Put(m[1..], k, v);
      assert m[0] == m[..1][0] && forall i :: 0 < i < |m| ==> m[1..][i - 1] == m[i];
      assert !Absent(m[1..], k);
      PutHit(m[1..], k, v);
      if DistinctKeys(m) {
        SymmetricAbsent(m[1..], m[0].key);
        KeyEqTransitive(k, m[0].key, k);
        SymmetricAbsent(rest, m[0].key);
      }
    }
  }

  lemma SymmetricAbsent(m: seq<Entry>, k: Value)
    ensures Absent(m, k) <==> forall i :: 0 <= i < |m| ==> !KeyEq(k, m[i].key)
  {
    hide KeyEq;
    forall i | 0 <= i < |m| ensures KeyEq(k, m[i].key) <==> KeyEq(m[i].key, k) {
      KeyEqTransitive(k, m[i].key, k);
      KeyEqTransitive(m[i].key, k, m[i].key);
    }
  }

  lemma PutDistinct(m: seq<Entry>, k: Value, v: Value)
    requires DistinctKeys(m)
    ensures DistinctKeys(Put(m, k, v))
  {
    hide KeyEq;
    if Absent(m, k) {
      PutFresh(m, k, v);
    } else {
      PutHit(m, k, v);
    }
  }

  /** Assigning pairs to a map with distinct keys keeps them all, in order, if and only if
      all keys are distinct. */
  lemma {:induction false} PutAllKeeps(m: seq<Entry>, es: seq<Entry>)
    requires DistinctKeys(m)
    ensures var r := PutAll(m, es);
            && DistinctKeys(r)
            && if DistinctKeys(m + es) then r == m + es else |r| < |m| + |es|
    decreases es
  {
    hide KeyEq, Put;
    if es == [] {
      assert m + es == m;
      return;
    }
    var e, all := es[0], m + es;
    PutDistinct(m, e.key, e.val);
    PutAllKeeps(Put(m, e.key, e.val), es[1..]);
    if Absent(m, e.key) {
      PutFresh(m, e.key, e.val);
      assert m + [e] + es[1..] == all;
    } else {
      PutHit(m, e.key, e.val);
      var i :| 0 <= i < |m| && KeyEq(m[i].key, e.key);
      assert all[i] == m[i] && all[|m|] == e;
    }
  }

  /** The decoded map has as many pairs as were written, and then the same ones in the same
      order, if and only if no two of their keys are equal once decoded. */
  lemma NoPairLost(order: ByteOrder, entries: seq<Entry>)
    requires SupportedEntries(entries)
    ensures var decoded := Norm(Map(entries)).entries;
            && |decoded| <= EntriesEncoding(order, entries).count
            && (|decoded| == EntriesEncoding(order, entries).count <==> DistinctKeys(NormEntries(entries)))
            && (decoded == NormEntries(entries) <==> DistinctKeys(NormEntries(entries)))
            && DistinctKeys(decoded)
  {
    hide KeyEq, Put, PutAll, NormEntries, EntriesEncoding;
    EntriesCount(order, entries);
    PutAllKeeps([], NormEntries(entries));
    assert [] + NormEntries(entries) == NormEntries(entries);
  }

  // ---------- the canonical form ----------

  /** No map in v, at any depth, loses a pair. */
  ghost predicate KeysKept(v: Value)
    decreases v, 0
  {
    if v.Map? then DistinctKeys(NormEntries(v.entries)) && EntriesKept(v.entries)
    else v.List? ==> ItemsKept(v.items)
  }

  ghost predicate ItemsKept(items: seq<Value>)
    decreases items, 1
  {
    items != [] ==> KeysKept(items[0]) && ItemsKept(items[1..])
  }

  ghost predicate EntriesKept(entries: seq<Entry>)
    decreases entries, 1
  {
    entries != [] ==> (Writable(entries[0]) ==> EntryKept(entries[0])) && EntriesKept(entries[1..])
  }

  ghost predicate EntryKept(e: Entry)
    decreases e, 0
  {
    KeysKept(e.key) && KeysKept(e.val)
  }

  /** Pairs that decoding leaves as they are. */
  ghost predicate Canonicals(m: seq<Entry>) {
    m != [] ==> Writable(m[0]) && SupportedEntry(m[0]) && NormEntry(m[0]) == m[0] && Canonicals(m[1..])
  }

  lemma {:induction false} CanonicalsFixed(m: seq<Entry>)
    requires Canonicals(m)
    ensures SupportedEntries(m) && NormEntries(m) == m
  {
    hide SupportedEntry, Norm;
    if m != [] {
      CanonicalsFixed(m[1..]);
      assert m == [m[0]] + m[1..];
    }
  }

  function Size(order: ByteOrder, m: seq<Entry>): nat {
    |EntriesEncoding(order, m).bytes|
  }

  lemma SizeNext(order: ByteOrder, e: Entry, m: seq<Entry>)
    requires Writable(e)
    ensures Size(order, [e] + m) == |Encoded(order, e.key)| + |Encoded(order, e.val)| + Size(order, m)
  {
    hide Encoded, EntryEncoding;
    assert ([e] + m)[1..] == m;
    WritableEncodes(order, e);
  }

  lemma NonemptyEncoding(order: ByteOrder, v: Value)
    requires !v.Unsupported?
    ensures Encoded(order, v) != []
  {
    hide ItemsEncoding, EntriesEncoding, PutUint;
  }

  /** Replacing a pair makes a map shorter than adding one. */
  lemma {:induction false} PutShrinks(order: ByteOrder, m: seq<Entry>, e: Entry)
    requires Canonicals(m) && Writable(e) && SupportedEntry(e) && NormEntry(e) == e
    ensures var r := Put(m, e.key, e.val);
            && Canonicals(r)
            && Size(order, r) <= Size(order, m) + Size(order, [e])
            && (!Absent(m, e.key) ==> Size(order, r) < Size(order, m) + Size(order, [e]))
    decreases |m|
  {
    hide KeyEq, SupportedEntry, Norm, Size, Encoded, EntriesEncoding;
    assert [e] + [] == [e] && [e][1..] == [];
    SizeNext(order, e, []);
    if m == [] {
      SizeNothing(order);
      return;
    }
    assert m == [m[0]] + m[1..] && (Absent(m, e.key) <==> !KeyEq(m[0].key, e.key) && Absent(m[1..], e.key));
    SizeNext(order, m[0], m[1..]);
    if KeyEq(m[0].key, e.key) {
      assert Put(m, e.key, e.val) == [e] + m[1..] && ([e] + m[1..])[1..] == m[1..];
      SizeNext(order, e, m[1..]);
      NonemptyEncoding(order, m[0].key);
      SizeNothing(order);
    } else {
      var rest := Put(m[1..], e.key, e.val);
      PutShrinks(order, m[1..], e);
      assert ([m[0]] + rest)[1..] == rest;
      SizeNext(order, m[0], rest);
    }
  }

  lemma SizeNothing(order: ByteOrder)
    ensures Size(order, []) == 0
  {
  }

  lemma {:induction false} PutAllShrinks(order: ByteOrder, m: seq<Entry>, es: seq<Entry>)
    requires Canonicals(m) && Canonicals(es)
    ensures var r := PutAll(m, es);
            && Canonicals(r)
            && Size(order, r) <= Size(order, m) + Size(order, es)
            && (|r| < |m| + |es| ==> Size(order, r) < Size(order, m) + Size(order, es))
    decreases es
  {
    hide KeyEq, Norm, SupportedEntry, Size, Put;
    if es == [] {
      SizeNothing(order);
    } else {
      var e := es[0];
      assert es == [e] + es[1..] && [e] + [] == [e];
      PutShrinks(order, m, e);
      if Absent(m, e.key) {
        PutFresh(m, e.key, e.val);
      }
      PutAllShrinks(order, Put(m, e.key, e.val), es[1..]);
      SizeNext(order, e, es[1..]);
      SizeNext(order, e, []);
      SizeNothing(order);
    }
  }

  /** What was decoded decodes to itself. Encoded again it is never longer, and it is the same
      bytes if and only if no map in the value loses a pair. */
  lemma {:induction false} Canonical(order: ByteOrder, v: Value)
    requires Supported(v)
    ensures Supported(Norm(v)) && Norm(Norm(v)) == Norm(v)
    ensures |Encoded(order, Norm(v))| <= |Encoded(order, v)|
    ensures Encoded(order, Norm(v)) == Encoded(order, v) <==> KeysKept(v)
    ensures KeysKept(v) || |Encoded(order, Norm(v))| < |Encoded(order, v)|
    decreases v, 0
  {
    if v.List? {
      ItemsCanonical(order, v.items);
      ListCanonical(order, v);
    } else if v.Map? {
      EntriesCanonical(order, v.entries);
      MapCanonical(order, v);
    }
  }

  lemma ListCanonical(order: ByteOrder, v: Value)
    requires v.List? && Supported(v) && SupportedItems(NormItems(v.items))
    requires NormItems(NormItems(v.items)) == NormItems(v.items)
    requires var a, b := ItemsEncoding(order, NormItems(v.items)), ItemsEncoding(order, v.items);
             if ItemsKept(v.items) then a == b else |a| < |b|
    ensures Supported(Norm(v)) && Norm(Norm(v)) == Norm(v)
    ensures if KeysKept(v) then Encoded(order, Norm(v)) == Encoded(order, v)
            else |Encoded(order, Norm(v))| < |Encoded(order, v)|
  {
    hide ItemsEncoding, NormItems, SupportedItems, ItemsKept;
  }

  lemma HeaderMonotone(order: ByteOrder, a: nat, b: nat)
    requires a <= b
    ensures |MakeHeaderAndLength(order, MAP, a)| <= |MakeHeaderAndLength(order, MAP, b)|
  {
    hide PutUint;
  }

  lemma KeptPairs(order: ByteOrder, ns: seq<Entry>)
    requires Canonicals(ns)
    ensures var ps := PutAll([], ns);
            && SupportedEntries(ps) && NormEntries(ps) == ps && PutAll([], ps) == ps
            && EntriesEncoding(order, ps).count == |ps| <= |ns| == EntriesEncoding(order, ns).count
            && if DistinctKeys(ns) then ps == ns else Size(order, ps) < Size(order, ns)
  {
    hide KeyEq, Put, Norm, SupportedEntry, Encoded;
    var ps := PutAll([], ns);
    assert [] + ns == ns && [] + ps == ps;
    PutAllKeeps([], ns);
    PutAllKeeps([], ps);
    PutAllShrinks(order, [], ns);
    SizeNothing(order);
    CanonicalsFixed(ps);
    CanonicalsFixed(ns);
    EntriesCount(order, ps);
    EntriesCount(order, ns);
  }

  lemma MapCanonical(order: ByteOrder, v: Value)
    requires v.Map? && Supported(v)
    requires var ns := NormEntries(v.entries);
             Canonicals(ns) &&
             var a, b := EntriesEncoding(order, ns), EntriesEncoding(order, v.entries);
             a.count == b.count && if EntriesKept(v.entries) then a.bytes == b.bytes else |a.bytes| < |b.bytes|
    ensures Supported(Norm(v)) && Norm(Norm(v)) == Norm(v)
    ensures if KeysKept(v) then Encoded(order, Norm(v)) == Encoded(order, v)
            else |Encoded(order, Norm(v))| < |Encoded(order, v)|
  {
    hide PutAll, NormEntries, EntriesEncoding, MakeHeaderAndLength, SupportedEntries, EntriesKept, DistinctKeys,
      Canonicals;
    var ns := NormEntries(v.entries);
    var ps := PutAll([], ns);
    KeptPairs(order, ns);
    HeaderMonotone(order, |ps|, |ns|);
    assert Norm(v) == Map(ps) && Norm(Map(ps)) == Map(ps);
  }

  lemma {:induction false} ItemsCanonical(order: ByteOrder, items: seq<Value>)
    requires SupportedItems(items)
    ensures SupportedItems(NormItems(items)) && NormItems(NormItems(items)) == NormItems(items)
    ensures var a, b := ItemsEncoding(order, NormItems(items)), ItemsEncoding(order, items);
            if ItemsKept(items) then a == b else |a| < |b|
    decreases items, 1
  {
    hide Encoded, Norm, KeysKept;
    if items != [] {
      Canonical(order, items[0]);
      ItemsCanonical(order, items[1..]);
      assert NormItems(items)[1..] == NormItems(items[1..]);
      FirstItemEncoding(order, items);
      FirstItemEncoding(order, NormItems(items));
    }
  }

  lemma {:induction false} EntriesCanonical(order: ByteOrder, entries: seq<Entry>)
    requires SupportedEntries(entries)
    ensures Canonicals(NormEntries(entries))
    ensures var a, b := EntriesEncoding(order, NormEntries(entries)), EntriesEncoding(order, entries);
            a.count == b.count && if EntriesKept(entries) then a.bytes == b.bytes else |a.bytes| < |b.bytes|
    decreases entries, 1
  {
    hide Encoded, EntryEncoding, NormEntry, EntryKept;
    if entries != [] {
      var e := entries[0];
      WritableEncodes(order, e);
      EntriesCanonical(order, entries[1..]);
      if Writable(e) {
        EntryCanonical(order, e);
        WritableEncodes(order, NormEntry(e));
        assert NormEntries(entries)[1..] == NormEntries(entries[1..]);
      }
    }
  }

  lemma {:induction false} EntryCanonical(order: ByteOrder, e: Entry)
    requires Writable(e) && SupportedEntry(e)
    ensures Writable(NormEntry(e)) && SupportedEntry(NormEntry(e)) && NormEntry(NormEntry(e)) == NormEntry(e)
    ensures var n := NormEntry(e);
            var a, b := Encoded(order, n.key) + Encoded(order, n.val), Encoded(order, e.key) + Encoded(order, e.val);
            if EntryKept(e) then a == b else |a| < |b|
    decreases e, 0
  {
    Canonical(order, e.key);
    Canonical(order, e.val);
    hide Encoded, Supported, KeysKept;
  }
}
