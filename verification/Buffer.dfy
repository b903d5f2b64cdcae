/** The FIFO the parsers and the sender run on (base/buffer.go), with the storage policy of the
    bytes.Buffer underneath: what Next returns is a range of that storage. */
module Buffer {
  import opened Bytes

  // ---------- the storage ----------

  /** The backing array up to its capacity; the unread bytes are cells[off..end]. */
  datatype Block = Block(cells: bytes, off: nat, end: nat)

  type Storage = st: Block | st.off <= st.end <= |st.cells| witness Block([], 0, 0)

  function Unread(st: Storage): bytes {
    st.cells[st.off..st.end]
  }

  const EMPTY: Storage := Block([], 0, 0)

  /** Where a write of n bytes goes: behind the unread bytes; to the front of the same array,
      which an empty buffer is reset to and a mostly consumed one slides to; or to a new array. */
  datatype Room = Behind | Front | Fresh

  function RoomFor(st: Storage, n: nat): Room {
    var unread, capacity := st.end - st.off, |st.cells|;
    if n <= capacity - st.end then Behind
    else if (unread == 0 && n <= capacity) || n + unread <= capacity / 2 then Front
    else Fresh
  }

  /** The array after copying `put` into it. */
  function Copied(cells: bytes, from: nat, put: bytes): (r: bytes)
    requires from + |put| <= |cells|
    ensures |r| == |cells|
    ensures forall k :: 0 <= k < |r| ==> r[k] == if from <= k < from + |put| then put[k - from] else cells[k]
  {
    cells[..from] + put + cells[from + |put|..]
  }

  /** What a write copies into the same array, and from which cell on. */
  function PlacedFrom(st: Storage, n: nat): nat {
    if RoomFor(st, n) == Behind then st.end else 0
  }

  function Placed(st: Storage, p: bytes): bytes {
    if RoomFor(st, |p|) == Behind then p else Unread(st) + p
  }

  function Zeros(n: nat): bytes {
    seq(n, i => 0)
  }

  /** The storage after a write; `capacity` is what the runtime allocates if it has to. */
  function WrittenTo(st: Storage, p: bytes, capacity: nat): Storage {
    var put, from := Placed(st, p), PlacedFrom(st, |p|);
    if RoomFor(st, |p|) == Fresh then Block(put + Zeros(if capacity < |put| then 0 else capacity - |put|), 0, |put|)
    else Block(Copied(st.cells, from, put), if RoomFor(st, |p|) == Behind then st.off else 0, from + |put|)
  }

  lemma WriteAppends(st: Storage, p: bytes, capacity: nat)
    ensures Unread(WrittenTo(st, p, capacity)) == Unread(st) + p
  {
    hide Zeros;
    var r, all := WrittenTo(st, p, capacity), Unread(st) + p;
    if RoomFor(st, |p|) == Fresh {
      assert r.cells[..|all|] == all;
    }
    assert |Unread(r)| == |all|;
  }

  // ---------- slices of the storage ----------

  /** Copying `put` brings another byte into the range lo..hi. */
  predicate Clobbers(cells: bytes, from: nat, put: bytes, lo: nat, hi: nat)
    requires from + |put| <= |cells| && hi <= |cells|
  {
    exists k | lo <= k < hi :: from <= k < from + |put| && put[k - from] != cells[k]
  }

  lemma CopyKeeps(cells: bytes, from: nat, put: bytes, lo: nat, hi: nat)
    requires from + |put| <= |cells| && lo <= hi <= |cells|
    ensures Copied(cells, from, put)[lo..hi] == cells[lo..hi] <==> !Clobbers(cells, from, put, lo, hi)
  {
    var r := Copied(cells, from, put);
    if k :| lo <= k < hi && from <= k < from + |put| && put[k - from] != cells[k] {
      assert r[lo..hi][k - lo] != cells[lo..hi][k - lo];
    }
  }

  /** The write brings another byte into the range lo..hi of the array. */
  predicate Overwrites(st: Storage, p: bytes, lo: nat, hi: nat)
    requires RoomFor(st, |p|) != Fresh && hi <= |st.cells|
  {
    Clobbers(st.cells, PlacedFrom(st, |p|), Placed(st, p), lo, hi)
  }

  /** A slice taken earlier keeps its bytes through a write into the same array exactly when
      the write does not overwrite it. */
  lemma SliceKept(st: Storage, p: bytes, capacity: nat, lo: nat, hi: nat)
    requires RoomFor(st, |p|) != Fresh && lo <= hi <= |st.cells|
    ensures |WrittenTo(st, p, capacity).cells| == |st.cells|
    ensures WrittenTo(st, p, capacity).cells[lo..hi] == st.cells[lo..hi] <==> !Overwrites(st, p, lo, hi)
  {
    hide RoomFor, Copied, Clobbers;
    RoomFits(st, |p|);
    CopyKeeps(st.cells, PlacedFrom(st, |p|), Placed(st, p), lo, hi);
  }

  lemma RoomFits(st: Storage, n: nat)
    requires RoomFor(st, n) != Fresh
    ensures PlacedFrom(st, n) + (if RoomFor(st, n) == Behind then n else st.end - st.off + n) <= |st.cells|
  {
  }

  // ---------- the class ----------

  /** The built-in copy. */
  method Copy(target: array<byte>, from: nat, p: bytes)
    requires from + |p| <= target.Length
    modifies target
    ensures target[..] == Copied(old(target[..]), from, p)
  {
    forall i | 0 <= i < |p| {
      target[from + i] := p[i];
    }
  }

  method Allocate(p: bytes, capacity: nat) returns (a: array<byte>)
    ensures fresh(a) && a.Length >= |p| && a[..] == p + Zeros(a.Length - |p|)
  {
    a := new byte[if capacity < |p| then |p| else capacity](_ => 0);
    forall i | 0 <= i < |p| {
      a[i] := p[i];
    }
  }

  class StandardBuffer {
    var buf: array<byte>
    var off: nat
    var end: nat

    ghost predicate Valid()
      reads this
    {
      off <= end <= buf.Length
    }

    ghost function Backing(): Storage
      reads this, buf
      requires Valid()
    {
      Block(buf[..], off, end)
    }

    ghost function Contents(): bytes
      reads this, buf
      requires Valid()
    {
      buf[off..end]
    }

    constructor ()
      ensures Valid() && fresh(buf) && Backing() == EMPTY && Contents() == []
    {
      buf := new byte[0];
      off, end := 0, 0;
    }

    method Len() returns (n: nat)
      requires Valid()
      ensures n == |Contents()|
    {
      n := end - off;
    }

    /** The first n bytes, or all of them if there are fewer; they stay in the buffer. */
    method Peek(n: nat) returns (p: bytes, sn: nat)
      requires Valid()
      ensures sn == (if |Contents()| < n then |Contents()| else n) && p == Contents()[..sn]
    {
      sn := n;
      if end - off < n {
        sn := end - off;
      }
      p := buf[off..off + sn];
      assert p == buf[off..end][..sn];
    }

    /** The bytes returned are the range of the array that ends at the new `off`. */
    method Next(n: nat) returns (p: bytes, sn: nat)
      requires Valid()
      modifies this`off
      ensures Valid() && off == old(off) + sn
      ensures sn == (if |old(Contents())| < n then |old(Contents())| else n)
      ensures p == buf[off - sn..off] == old(Contents())[..sn] && Contents() == old(Contents())[sn..]
    {
      sn := n;
      if end - off < n {
        sn := end - off;
      }
      p := buf[off..off + sn];
      assert p == buf[off..end][..sn] && buf[off + sn..end] == buf[off..end][sn..];
      off := off + sn;
    }

    /** In place where it fits, into a new array of any sufficient capacity otherwise. */
    method Write(p: bytes) returns (n: nat)
      requires Valid()
      modifies this, buf
      ensures Valid() && n == |p|
      ensures if RoomFor(old(Backing()), |p|) == Fresh
              then fresh(buf) && old(buf)[..] == old(buf[..]) else buf == old(buf)
      ensures Backing() == WrittenTo(old(Backing()), p, buf.Length)
      ensures Contents() == old(Contents()) + p
    {
      hide Copied;
      n := |p|;
      ghost var was := Backing();
      var m := end - off;
      if n <= buf.Length - end {
        Copy(buf, end, p);
        end := end + n;
      } else {
        var all := buf[off..end] + p;
        assert all == Placed(was, p);
        if (m == 0 && n <= buf.Length) || n + m <= buf.Length / 2 {
          Copy(buf, 0, all);
        } else {
          var capacity: nat := *;
          buf := Allocate(all, capacity);
        }
        off, end := 0, m + n;
      }
      WriteAppends(was, p, buf.Length);
    }

    method Reset()
      requires Valid()
      modifies this`off, this`end
      ensures Valid() && Contents() == []
      ensures buf == old(buf) && off == end == 0
    {
      off, end := 0, 0;
    }
  }
}
