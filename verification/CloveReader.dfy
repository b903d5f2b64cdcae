/** CloveMapReader (codec/codec.go): lookups by number in a decoded map. */
module CloveReader {
  import opened Bytes
  import opened CloveCodec
  import opened CloveRoundTrip
  import opened CloveTheorems
  import opened CloveKeys

  const TWO63 := 0x8000_0000_0000_0000

  // ---------- the reader ----------

  function Wrap(n: int, modulus: nat, signed: bool): int
    requires modulus > 0
  {
    if signed then ToSigned(n % modulus, modulus) else n % modulus
  }

  /** The Go conversion of an integer to a kind: it keeps the low bits. */
  function Convert(kind: IntKind, n: int): int {
    match kind
    case KInt8 => Wrap(n, 0x100, true)
    case KInt16 => Wrap(n, TWO16, true)
    case KInt32 => Wrap(n, TWO32, true)
    case KInt64 => Wrap(n, TWO64, true)
    case KInt => Wrap(n, TWO64, true)
    case KUint8 => Wrap(n, 0x100, false)
    case KUint16 => Wrap(n, TWO16, false)
    case KUint32 => Wrap(n, TWO32, false)
    case KUint64 => Wrap(n, TWO64, false)
    case KUint => Wrap(n, TWO64, false)
  }

  predicate IsSigned(kind: IntKind) {
    kind in {KInt, KInt8, KInt16, KInt32, KInt64}
  }

  const SIGNED_KINDS := [KInt, KInt8, KInt16, KInt32, KInt64]
  const UNSIGNED_KINDS := [KUint, KUint8, KUint16, KUint32, KUint64]

  /** The first kind, in order, under which the converted number is a key. */
  function FirstHit(m: seq<Entry>, kinds: seq<IntKind>, n: int): Value {
    if kinds == [] then Nil
    else
      match Lookup(m, Int(kinds[0], Convert(kinds[0], n)))
      case Some(v) => v
      case None => FirstHit(m, kinds[1..], n)
  }

  /** TryReadValue for every kind of key but floats; a nil key makes the source panic. */
  function TryReadValue(m: seq<Entry>, key: Value): Value
    requires !key.Nil? && !key.Float32? && !key.Float64?
  {
    match key
    case Str(_) => (match Lookup(m, key) case Some(v) => v case None => Nil)
    case Int(kind, n) =>
      FirstHit(m, if IsSigned(kind) then SIGNED_KINDS + UNSIGNED_KINDS else UNSIGNED_KINDS + SIGNED_KINDS, n)
    case _ => Nil
  }

  function IntValueOf(m: seq<Entry>, key: Value, def: int): int
    requires !key.Nil? && !key.Float32? && !key.Float64?
  {
    var v := TryReadValue(m, key);
    if v.Int? then Convert(KInt64, v.n) else def
  }

  function UintValueOf(m: seq<Entry>, key: Value, def: int): int
    requires !key.Nil? && !key.Float32? && !key.Float64?
  {
    var v := TryReadValue(m, key);
    if v.Int? then Convert(KUint64, v.n) else def
  }

  // ---------- any map ----------

  /** The kinds in the order in which a number of this kind is looked for. */
  function Order(kind: IntKind): seq<IntKind> {
    if kind in {KInt, KInt8, KInt16, KInt32, KInt64}
    then [KInt, KInt8, KInt16, KInt32, KInt64, KUint, KUint8, KUint16, KUint32, KUint64]
    else [KUint, KUint8, KUint16, KUint32, KUint64, KInt, KInt8, KInt16, KInt32, KInt64]
  }

  /** The number converted to the kinds before the i-th is no key. */
  predicate NoneBefore(m: seq<Entry>, kinds: seq<IntKind>, n: int, i: nat)
    requires i <= |kinds|
  {
    forall j :: 0 <= j < i ==> Lookup(m, Int(kinds[j], Convert(kinds[j], n))) == None
  }

  lemma {:induction false} FirstHitAt(m: seq<Entry>, kinds: seq<IntKind>, n: int, i: nat)
    requires i <= |kinds| && NoneBefore(m, kinds, n, i)
    requires i < |kinds| ==> Lookup(m, Int(kinds[i], Convert(kinds[i], n))).Some?
    ensures FirstHit(m, kinds, n) ==
            if i < |kinds| then Lookup(m, Int(kinds[i], Convert(kinds[i], n))).value else Nil
    decreases i
  {
    hide Lookup, Convert;
    if i > 0 {
      assert NoneBefore(m, kinds[1..], n, i - 1);
      FirstHitAt(m, kinds[1..], n, i - 1);
    }
  }

  /** In any map, a number is read under the first kind in this order under which it is a key, or
      as nil if there is none. */
  lemma ReadsFirstKind(m: seq<Entry>, kind: IntKind, n: int, i: nat)
    requires i <= 10 && NoneBefore(m, Order(kind), n, i)
    requires i < 10 ==> Lookup(m, Int(Order(kind)[i], Convert(Order(kind)[i], n))).Some?
    ensures TryReadValue(m, Int(kind, n)) ==
            if i < 10 then Lookup(m, Int(Order(kind)[i], Convert(Order(kind)[i], n))).value else Nil
  {
    hide Lookup, Convert;
    assert Order(kind) == if IsSigned(kind) then SIGNED_KINDS + UNSIGNED_KINDS else UNSIGNED_KINDS + SIGNED_KINDS;
    FirstHitAt(m, Order(kind), n, i);
  }

  // ---------- the map read as numbers ----------

  /** The map that decoding yields for the pairs of a map. */
  function Stored(entries: seq<Entry>): seq<Entry> {
    PutAll([], NormEntries(entries))
  }

  /** The value of the last pair with this key. */
  function LastLookup(es: seq<Entry>, k: Value): Option<Value> {
    if es == [] then None
    else
      match LastLookup(es[1..], k)
      case Some(v) => Some(v)
      case None => if KeyEq(es[0].key, k) then Some(es[0].val) else None
  }

  lemma {:induction false} LookupPut(m: seq<Entry>, e: Entry, k: Value)
    ensures Lookup(Put(m, e.key, e.val), k) == if KeyEq(e.key, k) then Some(e.val) else Lookup(m, k)
    decreases |m|
  {
    hide KeyEq;
    if m != [] {
      KeyEqTransitive(m[0].key, e.key, k);
      KeyEqTransitive(e.key, m[0].key, k);
      KeyEqTransitive(m[0].key, k, e.key);
      KeyEqTransitive(e.key, k, k);
      LookupPut(m[1..], e, k);
      assert ([e] + m[1..])[1..] == m[1..];
      assert ([m[0]] + Put(m[1..], e.key, e.val))[1..] == Put(m[1..], e.key, e.val);
    }
  }

  lemma {:induction false} LookupPutAll(m: seq<Entry>, es: seq<Entry>, k: Value)
    ensures Lookup(PutAll(m, es), k) == match LastLookup(es, k) case Some(v) => Some(v) case None => Lookup(m, k)
    decreases es
  {
    hide KeyEq, Put;
    if es != [] {
      LookupPut(m, es[0], k);
      LookupPutAll(Put(m, es[0].key, es[0].val), es[1..], k);
    }
  }

  /** The value written last under the number k. */
  function NumberLookup(entries: seq<Entry>, k: int): Option<Value> {
    if entries == [] then None
    else
      match NumberLookup(entries[1..], k)
      case Some(v) => Some(v)
      case None =>
        if Writable(entries[0]) && entries[0].key.Int? && entries[0].key.n == k then Some(entries[0].val) else None
  }

  function KindOfNumber(k: int): IntKind {
    if k > 0x7f then KUint else KInt
  }

  function NormOption(v: Option<Value>): Option<Value> {
    match v case None => None case Some(x) => Some(Norm(x))
  }

  lemma {:induction false} LastNumber(entries: seq<Entry>, kind: IntKind, k: int)
    ensures LastLookup(NormEntries(entries), Int(kind, k)) ==
            if kind == KindOfNumber(k) then NormOption(NumberLookup(entries, k)) else None
  {
    if entries != [] {
      LastNumber(entries[1..], kind, k);
      if Writable(entries[0]) {
        var key := Norm(entries[0].key);
        assert NormEntries(entries)[0] == NormEntry(entries[0]) == Entry(key, Norm(entries[0].val));
        assert NormEntries(entries)[1..] == NormEntries(entries[1..]);
        assert KeyEq(key, Int(kind, k)) <==> entries[0].key.Int? && entries[0].key.n == k && kind == KindOfNumber(k);
      }
    }
  }

  /** A decoded map has the number k under one kind only. */
  lemma LookupDecoded(entries: seq<Entry>, kind: IntKind, k: int)
    ensures Lookup(Stored(entries), Int(kind, k)) ==
            if kind == KindOfNumber(k) then NormOption(NumberLookup(entries, k)) else None
  {
    LastNumber(entries, kind, k);
    LookupPutAll([], NormEntries(entries), Int(kind, k));
  }

  lemma LookupConverted(entries: seq<Entry>, kind: IntKind, n: int)
    ensures Lookup(Stored(entries), Int(kind, Convert(kind, n))) ==
            if kind == KindOfNumber(Convert(kind, n)) then NormOption(NumberLookup(entries, Convert(kind, n))) else None
  {
    LookupDecoded(entries, kind, Convert(kind, n));
  }

  /** The narrow kinds are never keys of a decoded map, so a search skips them. */
  lemma {:induction false} SkipNarrow(entries: seq<Entry>, kinds: seq<IntKind>, rest: seq<IntKind>, n: int)
    requires forall kind :: kind in kinds ==> kind != KInt && kind != KUint
    ensures FirstHit(Stored(entries), kinds + rest, n) == FirstHit(Stored(entries), rest, n)
  {
    if kinds == [] {
      assert kinds + rest == rest;
    } else {
      LookupConverted(entries, kinds[0], n);
      assert kinds[0] in kinds && forall kind :: kind in kinds[1..] ==> kind in kinds;
      assert (kinds + rest)[1..] == kinds[1..] + rest;
      SkipNarrow(entries, kinds[1..], rest, n);
    }
  }

  /** The search tries the wide kind of the key's own sign, then the other wide kind. */
  lemma SearchOrder(entries: seq<Entry>, kind: IntKind, n: int)
    ensures var m := Stored(entries);
            var first, second := if IsSigned(kind) then KInt else KUint, if IsSigned(kind) then KUint else KInt;
            TryReadValue(m, Int(kind, n)) ==
            match Lookup(m, Int(first, Convert(first, n)))
            case Some(v) => v
            case None => match Lookup(m, Int(second, Convert(second, n))) case Some(v) => v case None => Nil
  {
    var m := Stored(entries);
    var a, b := SIGNED_KINDS, UNSIGNED_KINDS;
    if !IsSigned(kind) {
      a, b := b, a;
    }
    var all := a + b;
    assert all[1..] == a[1..] + b;
    SkipNarrow(entries, a[1..], b, n);
    SkipNarrow(entries, b[1..], [], n);
    assert b[1..] + [] == b[1..];
  }

  /** The other number whose 64-bit pattern is the same. */
  function Alias(k: int): int {
    if k < 0 then k + TWO64 else if k >= TWO63 then k - TWO64 else k
  }

  function Numeric(entries: seq<Entry>, k: int): Value {
    match NumberLookup(entries, k) case Some(v) => Norm(v) case None => Nil
  }

  /** What reading the number k finds in a decoded map: the value stored under k, else the
      value stored under the number that shares its 64-bit pattern. */
  lemma ReadNumber(entries: seq<Entry>, kind: IntKind, k: int)
    requires InKind(kind, k)
    ensures TryReadValue(Stored(entries), Int(kind, k)) ==
            if NumberLookup(entries, k).Some? then Numeric(entries, k) else Numeric(entries, Alias(k))
  {
    SearchOrder(entries, kind, k);
    assert -TWO63 <= k < TWO64 && (IsSigned(kind) ==> k < TWO63) && (!IsSigned(kind) ==> k >= 0);
    WideConversions(k);
    LookupConverted(entries, KInt, k);
    LookupConverted(entries, KUint, k);
  }

  lemma WideConversions(k: int)
    requires -TWO63 <= k < TWO64
    ensures Convert(KInt, k) == if k < TWO63 then k else k - TWO64
    ensures Convert(KUint, k) == if k >= 0 then k else k + TWO64
  {
  }

  /** After encoding and decoding, reading by number agrees with the map that was encoded if
      and only if the number was a key, or no value that reads differently from nil is stored
      under its 64-bit alias; below 2^63 and above -1 it always agrees. */
  lemma ReadAfterDecode(order: ByteOrder, entries: seq<Entry>, kind: IntKind, k: int)
    requires Supported(Map(entries)) && |Encoded(order, Map(entries))| < TWO32 && InKind(kind, k)
    ensures var d := Decoding(order, Encoded(order, Map(entries)));
            && d == Done(Map(Stored(entries)), [])
            && (TryReadValue(d.value.entries, Int(kind, k)) == Numeric(entries, k) <==>
                NumberLookup(entries, k).Some? || Numeric(entries, Alias(k)) == Nil)
            && (0 <= k < TWO63 ==> TryReadValue(d.value.entries, Int(kind, k)) == Numeric(entries, k))
  {
    DecodeUndoesEncode(order, Map(entries), []);
    assert Encoded(order, Map(entries)) + [] == Encoded(order, Map(entries));
    ReadNumber(entries, kind, k);
  }

  /** A negative number that is not a key finds the unsigned number that shares its bits. */
  lemma NegativeAliasFound(v: Value)
    requires Supported(v)
    ensures var entries := [Entry(Int(KUint64, TWO64 - 1), v)];
            Numeric(entries, -1) == Nil && TryReadValue(Stored(entries), Int(KInt, -1)) == Norm(v)
  {
    var entries := [Entry(Int(KUint64, TWO64 - 1), v)];
    assert NumberLookup(entries, TWO64 - 1) == Some(v);
    assert NumberLookup(entries[1..], -1) == None;
    ReadNumber(entries, KInt, -1);
  }

  /** IntValueOf and UintValueOf return a stored integer unchanged when it is in range, and
      its two's complement reading otherwise. */
  lemma ReadStoredInteger(entries: seq<Entry>, kind: IntKind, k: int, stored: IntKind, n: int, def: int)
    requires InKind(kind, k) && InKind(stored, n) && NumberLookup(entries, k) == Some(Int(stored, n))
    ensures var m := Stored(entries);
            && IntValueOf(m, Int(kind, k), def) == (if n < TWO63 then n else n - TWO64)
            && UintValueOf(m, Int(kind, k), def) == (if n >= 0 then n else n + TWO64)
  {
    ReadNumber(entries, kind, k);
    WideConversions(n);
  }

  // ---------- keys of any kind ----------

  /** The value written last under the string k. */
  function TextLookup(entries: seq<Entry>, k: bytes): Option<Value> {
    if entries == [] then None
    else
      match TextLookup(entries[1..], k)
      case Some(v) => Some(v)
      case None => if Writable(entries[0]) && entries[0].key == Str(k) then Some(entries[0].val) else None
  }

  lemma {:induction false} LastText(entries: seq<Entry>, k: bytes)
    ensures LastLookup(NormEntries(entries), Str(k)) == NormOption(TextLookup(entries, k))
  {
    if entries != [] {
      LastText(entries[1..], k);
      if Writable(entries[0]) {
        var key := Norm(entries[0].key);
        assert NormEntries(entries)[0] == NormEntry(entries[0]) == Entry(key, Norm(entries[0].val));
        assert NormEntries(entries)[1..] == NormEntries(entries[1..]);
        assert KeyEq(key, Str(k)) <==> entries[0].key == Str(k);
      }
    }
  }

  /** What reading a key finds in a map that was encoded and decoded: under a string what was
      written last under it, under a number what ReadNumber says, nil under any other key. */
  function Found(entries: seq<Entry>, key: Value): Value {
    match key
    case Str(k) => (match TextLookup(entries, k) case Some(v) => Norm(v) case None => Nil)
    case Int(_, k) => if NumberLookup(entries, k).Some? then Numeric(entries, k) else Numeric(entries, Alias(k))
    case _ => Nil
  }

  lemma ReadAny(entries: seq<Entry>, key: Value)
    requires !key.Nil? && !key.Float32? && !key.Float64? && (key.Int? ==> InKind(key.kind, key.n))
    ensures TryReadValue(Stored(entries), key) == Found(entries, key)
  {
    match key
    case Str(k) =>
      LastText(entries, k);
      LookupPutAll([], NormEntries(entries), key);
    case Int(kind, k) => ReadNumber(entries, kind, k);
    case _ =>
  }

  /** After encoding and decoding a map, every key but a float reads as what was written last
      under it, or under the number with the same 64-bit pattern. */
  lemma ReadBack(order: ByteOrder, entries: seq<Entry>, key: Value)
    requires Supported(Map(entries)) && |Encoded(order, Map(entries))| < TWO32
    requires !key.Nil? && !key.Float32? && !key.Float64? && (key.Int? ==> InKind(key.kind, key.n))
    ensures var d := Decoding(order, Encoded(order, Map(entries)));
            && d.Done? && d.value.Map? && d.rest == []
            && TryReadValue(d.value.entries, key) == Found(entries, key)
  {
    DecodeUndoesEncode(order, Map(entries), []);
    assert Encoded(order, Map(entries)) + [] == Encoded(order, Map(entries));
    ReadAny(entries, key);
  }

  /** IntValueOf and UintValueOf return an integer that is found, wrapped to 64 bits, and the
      default if nothing or no integer is. */
  lemma ReadIntegers(entries: seq<Entry>, key: Value, def: int)
    requires SupportedEntries(entries)
    requires !key.Nil? && !key.Float32? && !key.Float64? && (key.Int? ==> InKind(key.kind, key.n))
    ensures var m, v := Stored(entries), Found(entries, key);
            && IntValueOf(m, key, def) ==
               (if !v.Int? then def
                else if v.n < 0x8000_0000_0000_0000 then v.n else v.n - 0x1_0000_0000_0000_0000)
            && UintValueOf(m, key, def) ==
               (if !v.Int? then def else if v.n >= 0 then v.n else v.n + 0x1_0000_0000_0000_0000)
  {
    ReadAny(entries, key);
    FoundSupported(entries, key);
    var v := Found(entries, key);
    if v.Int? {
      WideConversions(v.n);
      assert Convert(KInt64, v.n) == Convert(KInt, v.n) && Convert(KUint64, v.n) == Convert(KUint, v.n);
    }
  }

  lemma FoundSupported(entries: seq<Entry>, key: Value)
    requires SupportedEntries(entries)
    ensures var v := Found(entries, key); v.Int? ==> -TWO63 <= v.n < TWO64
  {
    match key
    case Str(k) => TextSupported(entries, k);
    case Int(_, k) =>
      NumberSupported(entries, k);
      NumberSupported(entries, Alias(k));
    case _ =>
  }

  lemma {:induction false} TextSupported(entries: seq<Entry>, k: bytes)
    requires SupportedEntries(entries)
    ensures match TextLookup(entries, k) case Some(v) => Supported(v) case None => true
  {
    if entries != [] {
      TextSupported(entries[1..], k);
    }
  }

  lemma {:induction false} NumberSupported(entries: seq<Entry>, k: int)
    requires SupportedEntries(entries)
    ensures match NumberLookup(entries, k) case Some(v) => Supported(v) case None => true
  {
    if entries != [] {
      NumberSupported(entries[1..], k);
    }
  }

  // ---------- conversions ----------

  /** The smallest number of a kind, and how many there are. */
  function Smallest(kind: IntKind): int {
    match kind
    case KInt8 => -0x80
    case KInt16 => -0x8000
    case KInt32 => -0x8000_0000
    case KInt64 => -0x8000_0000_0000_0000
    case KInt => -0x8000_0000_0000_0000
    case _ => 0
  }

  function HowMany(kind: IntKind): nat {
    match kind
    case KInt8 => 0x100 case KUint8 => 0x100
    case KInt16 => 0x1_0000 case KUint16 => 0x1_0000
    case KInt32 => 0x1_0000_0000 case KUint32 => 0x1_0000_0000
    case _ => 0x1_0000_0000_0000_0000
  }

  ghost predicate Congruent(a: int, b: int, modulus: nat) {
    exists q: int :: a == b - q * modulus
  }

  lemma Multiple(k: int, m: nat)
    ensures k >= 1 ==> k * m >= m
    ensures k <= -1 ==> k * m <= 0 - m
    ensures (k + 1) * m == k * m + m
  {
  }

  /** Of the numbers in a row of m, one is congruent to n. */
  lemma OneInRange(low: int, r: int, n: int, k: int, m: nat)
    requires low <= r < low + m && r == n - k * m
    ensures r == n <==> low <= n < low + m
  {
    Multiple(k, m);
    if low <= n < low + m {
      assert k == 0;
    }
  }

  lemma WrapExact(n: int, modulus: nat, signed: bool)
    requires modulus > 0 && modulus % 2 == 0
    ensures var low, r := if signed then 0 - modulus / 2 else 0, Wrap(n, modulus, signed);
            low <= r < low + modulus && Congruent(r, n, modulus) && (r == n <==> low <= n < low + modulus)
  {
    var q, u, half := n / modulus, n % modulus, modulus / 2;
    assert n == q * modulus + u && modulus == half + half;
    Multiple(q, modulus);
    var low, r := if signed then 0 - half else 0, Wrap(n, modulus, signed);
    var k := if r == u then q else q + 1;
    assert r == u || r == u - modulus;
    assert r == n - k * modulus;
    OneInRange(low, r, n, k, modulus);
  }

  /** A conversion yields the one number of the kind that agrees with n modulo the kind's size;
      the numbers of the kind are those it leaves as they are. */
  lemma ConvertExact(kind: IntKind, n: int)
    ensures var low, r := Smallest(kind), Convert(kind, n);
            && low <= r < low + HowMany(kind) && Congruent(r, n, HowMany(kind))
            && (r == n <==> low <= n < low + HowMany(kind)) && (r == n <==> InKind(kind, n))
  {
    hide Wrap, Congruent;
    WrapExact(n, HowMany(kind), IsSigned(kind));
  }

  // ---------- iteration order ----------

  lemma {:induction false} NormEntriesMembers(entries: seq<Entry>)
    ensures forall e :: e in NormEntries(entries) <==> exists w :: w in entries && Writable(w) && NormEntry(w) == e
  {
    if entries != [] {
      NormEntriesMembers(entries[1..]);
      assert entries == [entries[0]] + entries[1..];
    }
  }

  /** Pairs whose keys are equal have equal values. */
  ghost predicate Agreeing(m: seq<Entry>) {
    forall e, f :: e in m && f in m && KeyEq(e.key, f.key) ==> e.val == f.val
  }

  lemma {:induction false} LastMember(m: seq<Entry>, k: Value)
    ensures LastLookup(m, k).Some? ==> exists e :: e in m && KeyEq(e.key, k) && LastLookup(m, k) == Some(e.val)
    ensures LastLookup(m, k).None? ==> forall e :: e in m ==> !KeyEq(e.key, k)
  {
    hide KeyEq;
    if m != [] {
      assert m == [m[0]] + m[1..];
      LastMember(m[1..], k);
      if LastLookup(m[1..], k).Some? {
        var e :| e in m[1..] && KeyEq(e.key, k) && LastLookup(m[1..], k) == Some(e.val);
        assert e in m;
      } else {
        assert m[0] in m;
      }
    }
  }

  lemma SameMembers(a: seq<Entry>, b: seq<Entry>, k: Value)
    requires Agreeing(a) && forall e :: e in a <==> e in b
    ensures LastLookup(a, k) == LastLookup(b, k)
  {
    hide KeyEq, LastLookup;
    LastMember(a, k);
    LastMember(b, k);
    if LastLookup(a, k).Some? && LastLookup(b, k).Some? {
      var e :| e in a && KeyEq(e.key, k) && LastLookup(a, k) == Some(e.val);
      var f :| f in b && KeyEq(f.key, k) && LastLookup(b, k) == Some(f.val);
      KeyEqTransitive(f.key, k, f.key);
      KeyEqTransitive(e.key, k, f.key);
    }
  }

  lemma StoredLookup(entries: seq<Entry>, k: Value)
    ensures Lookup(Stored(entries), k) == LastLookup(NormEntries(entries), k)
  {
    LookupPutAll([], NormEntries(entries), k);
  }

  lemma {:induction false} LastOfJoin(m: seq<Entry>, e: Entry, k: Value)
    ensures LastLookup(m + [e], k) == if KeyEq(e.key, k) then Some(e.val) else LastLookup(m, k)
  {
    if m == [] {
      assert [e][1..] == [] && m + [e] == [e];
    } else {
      assert (m + [e])[1..] == m[1..] + [e];
      LastOfJoin(m[1..], e, k);
    }
  }

  lemma {:induction false} NormEntriesJoin(entries: seq<Entry>, e: Entry)
    requires Writable(e)
    ensures NormEntries(entries + [e]) == NormEntries(entries) + [NormEntry(e)]
  {
    hide NormEntry;
    if entries == [] {
      assert [e][1..] == [] && entries + [e] == [e];
    } else {
      assert (entries + [e])[1..] == entries[1..] + [e];
      NormEntriesJoin(entries[1..], e);
    }
  }

  lemma ReadLast(rest: seq<Entry>, a: Entry, b: Entry, k: Value)
    requires Writable(a) && Writable(b) && KeyEq(Norm(b.key), k)
    ensures Lookup(Stored(rest + [a, b]), k) == Some(Norm(b.val))
  {
    hide KeyEq, Norm, NormEntries, LastLookup, Stored;
    assert rest + [a, b] == rest + [a] + [b];
    NormEntriesJoin(rest + [a], b);
    LastOfJoin(NormEntries(rest + [a]), NormEntry(b), k);
    StoredLookup(rest + [a, b], k);
  }

  function Without(s: seq<Entry>, i: nat): seq<Entry>
    requires i < |s|
  {
    s[..i] + s[i + 1..]
  }

  lemma WithoutOne(s: seq<Entry>, i: nat)
    requires i < |s|
    ensures multiset(Without(s, i)) + multiset{s[i]} == multiset(s)
  {
    assert s == s[..i] + [s[i]] + s[i + 1..];
  }

  /** Some order of the pairs in which two of them come last. */
  lemma TwoLast(s: seq<Entry>, a: Entry, b: Entry) returns (rest: seq<Entry>)
    requires a in s && b in s && a != b
    ensures multiset(rest + [a, b]) == multiset(rest + [b, a]) == multiset(s)
  {
    var i :| 0 <= i < |s| && s[i] == a;
    WithoutOne(s, i);
    var t := Without(s, i);
    assert multiset(s)[b] > 0 && multiset(t)[b] == multiset(s)[b];
    assert b in t;
    var j :| 0 <= j < |t| && t[j] == b;
    WithoutOne(t, j);
    rest := Without(t, j);
    assert multiset([a, b]) == multiset{a, b} == multiset([b, a]);
  }

  lemma SameNorms(entries: seq<Entry>, other: seq<Entry>)
    requires multiset(other) == multiset(entries)
    ensures forall e :: e in NormEntries(entries) <==> e in NormEntries(other)
  {
    hide NormEntries, NormEntry;
    NormEntriesMembers(entries);
    NormEntriesMembers(other);
    assert forall w :: w in entries <==> w in multiset(entries);
    assert forall w :: w in other <==> w in multiset(other);
  }

  lemma SameReading(entries: seq<Entry>, other: seq<Entry>, k: Value)
    requires Agreeing(NormEntries(entries)) && multiset(other) == multiset(entries)
    ensures Lookup(Stored(other), k) == Lookup(Stored(entries), k)
  {
    hide Agreeing, LastLookup, Stored, NormEntries, Lookup;
    SameNorms(entries, other);
    SameMembers(NormEntries(entries), NormEntries(other), k);
    StoredLookup(entries, k);
    StoredLookup(other, k);
  }

  /** Every key reads the same after decoding, whatever order the iterator walks the map in. */
  ghost predicate ReadsAlike(entries: seq<Entry>) {
    forall other, k :: multiset(other) == multiset(entries) ==> Lookup(Stored(other), k) == Lookup(Stored(entries), k)
  }

  lemma AlikeAt(entries: seq<Entry>, other: seq<Entry>, k: Value)
    requires ReadsAlike(entries) && multiset(other) == multiset(entries)
    ensures Lookup(Stored(other), k) == Lookup(Stored(entries), k)
  {
  }

  /** Of two pairs whose keys become equal the map reads one or the other. */
  lemma OrderMatters(entries: seq<Entry>, a: Entry, b: Entry)
    requires a in entries && b in entries && Writable(a) && Writable(b)
    requires KeyEq(Norm(a.key), Norm(b.key)) && Norm(a.val) != Norm(b.val)
    ensures !ReadsAlike(entries)
  {
    hide KeyEq, Norm, Stored, Lookup;
    var k := Norm(b.key);
    var rest := TwoLast(entries, a, b);
    KeyEqTransitive(Norm(a.key), k, k);
    KeyEqTransitive(k, Norm(a.key), k);
    ReadLast(rest, a, b, k);
    ReadLast(rest, b, a, k);
    var one, other := rest + [a, b], rest + [b, a];
    assert multiset(one) == multiset(entries) == multiset(other);
    if ReadsAlike(entries) {
      AlikeAt(entries, one, k);
      AlikeAt(entries, other, k);
    }
  }

  /** The order does not matter if and only if the pairs whose keys become equal have values
      that become equal. */
  lemma OrderIndependent(entries: seq<Entry>)
    ensures ReadsAlike(entries) <==> Agreeing(NormEntries(entries))
  {
    hide KeyEq, Norm, Stored, NormEntries, Lookup;
    var m := NormEntries(entries);
    if Agreeing(m) {
      forall other, k | multiset(other) == multiset(entries)
        ensures Lookup(Stored(other), k) == Lookup(Stored(entries), k)
      {
        SameReading(entries, other, k);
      }
    } else {
      NormEntriesMembers(entries);
      var e, f :| e in m && f in m && KeyEq(e.key, f.key) && e.val != f.val;
      var a :| a in entries && Writable(a) && NormEntry(a) == e;
      var b :| b in entries && Writable(b) && NormEntry(b) == f;
      OrderMatters(entries, a, b);
    }
  }
}
