/** Bulk transfer: a source region cut into slices, written to a cyclic table of remote slices, and acknowledged. */
module Bulk {
  import opened Bytes
  import opened Modular

  // The image a bulk transfer leaves.

  /** One posted operation: a remote write with its key, or a message that leaves remote memory alone. */
  datatype Op = Write(addr: nat, rkey: nat, data: seq<byte>) | Message(data: seq<byte>)

  ghost predicate FitsOp(op: Op, memory: nat) {
    op.Write? ==> op.addr + |op.data| <= memory
  }

  ghost predicate FitsAll(ops: seq<Op>, memory: nat) {
    forall i :: 0 <= i < |ops| ==> FitsOp(ops[i], memory)
  }

  ghost function Apply(remote: seq<byte>, op: Op): (r: seq<byte>)
    requires FitsOp(op, |remote|)
    ensures |r| == |remote|
  {
    if op.Write? then Splice(remote, op.addr, op.data) else remote
  }

  /** The device executes operations in the order they were posted. */
  ghost function ApplyAll(remote: seq<byte>, ops: seq<Op>): (r: seq<byte>)
    requires FitsAll(ops, |remote|)
    ensures |r| == |remote|
    decreases |ops|
  {
    if |ops| == 0 then remote else Apply(ApplyAll(remote, ops[..|ops| - 1]), ops[|ops| - 1])
  }

  /** The remote end: where each table entry points and its key, the address and key of the handshake, and the size of an
      entry. */
  datatype Table = Table(raddrs: seq<nat>, rkeys: seq<nat>, fallback: nat, fallbackKey: nat, gap: nat)

  /** rdma_post_send sends to an entry that is all zero at the address of the handshake instead. */
  function Target(t: Table, i: nat): nat
    requires i < |t.raddrs| == |t.rkeys|
  {
    if t.rkeys[i] == 0 && t.raddrs[i] == 0 then t.fallback else t.raddrs[i]
  }

  /** The write of a slice to entry i, with the key that belongs to the address. */
  function WriteTo(t: Table, i: nat, data: seq<byte>): Op
    requires i < |t.raddrs| == |t.rkeys|
  {
    Write(Target(t, i), if t.rkeys[i] == 0 && t.raddrs[i] == 0 then t.fallbackKey else t.rkeys[i], data)
  }

  /** The entries name disjoint regions of the remote memory. */
  ghost predicate GoodTable(t: Table, memory: nat) {
    && 0 < t.gap && 0 < |t.raddrs| == |t.rkeys|
    && (forall i :: 0 <= i < |t.raddrs| ==> Target(t, i) + t.gap <= memory)
    && (forall i, j :: 0 <= i < j < |t.raddrs| ==>
          Target(t, i) + t.gap <= Target(t, j) || Target(t, j) + t.gap <= Target(t, i))
  }

  /** The source cut into slices of gap bytes and a shorter last one. */
  function Cut(src: seq<byte>, gap: nat): (r: seq<seq<byte>>)
    requires 0 < gap
    ensures forall k :: 0 <= k < |r| ==> 0 < |r[k]| <= gap
    decreases |src|
  {
    if |src| == 0 then []
    else if |src| <= gap then [src]
    else [src[..gap]] + Cut(src[gap..], gap)
  }

  lemma {:induction false} CutIsWhole(src: seq<byte>, gap: nat)
    requires 0 < gap
    ensures Flatten(Cut(src, gap)) == src
    decreases |src|
  {
    if |src| > gap {
      CutIsWhole(src[gap..], gap);
      assert Cut(src, gap)[1..] == Cut(src[gap..], gap);
      assert src[..gap] + src[gap..] == src;
    } else if |src| > 0 {
      assert Flatten([src]) == src + Flatten<byte>([]);
    }
  }

  /** The slices from cursor on: the next one, and those behind it. */
  lemma CutNext(src: seq<byte>, gap: nat, cursor: nat, len: nat)
    requires 0 < gap && cursor < |src| && len == Least(gap, |src| - cursor)
    ensures Cut(src[cursor..], gap) == [src[cursor..cursor + len]] + Cut(src[cursor + len..], gap)
  {
    var tail := src[cursor..];
    if |tail| <= gap {
      assert src[cursor..cursor + len] == tail && src[cursor + len..] == [];
    } else {
      assert tail[..len] == src[cursor..cursor + len] && tail[len..] == src[cursor + len..];
    }
  }

  /** The table entry slice k goes to: index + k modulo the number of entries. */
  function Entry(t: Table, index: nat, k: nat): (r: nat)
    requires 0 < |t.raddrs|
    ensures r < |t.raddrs|
  {
    Rem(index + k, |t.raddrs|)
  }

  lemma EntryIsMod(t: Table, index: nat, k: nat)
    requires 0 < |t.raddrs|
    ensures Entry(t, index, k) == (index + k) % |t.raddrs|
  {
    RemIsMod(index + k, |t.raddrs|);
  }

  lemma EntriesApart(t: Table, index: nat, j: nat, k: nat)
    requires 0 < |t.raddrs| && j < k < j + |t.raddrs|
    ensures Entry(t, index, j) != Entry(t, index, k)
  {
    EntryIsMod(t, index, j);
    EntryIsMod(t, index, k);
    assert index + j + (k - j) == index + k;
    ModApart(index + j, k - j, |t.raddrs|);
  }

  /** What bulk posts: slice k goes to table entry index + k, round the table. */
  ghost function Writes(t: Table, index: nat, parts: seq<seq<byte>>): (r: seq<Op>)
    requires 0 < |t.raddrs| == |t.rkeys|
    ensures |r| == |parts|
    ensures forall k :: 0 <= k < |parts| ==> r[k] == WriteTo(t, Entry(t, index, k), parts[k])
  {
    seq(|parts|, k requires 0 <= k < |parts| => WriteTo(t, Entry(t, index, k), parts[k]))
  }

  ghost predicate Sized(parts: seq<seq<byte>>, gap: nat) {
    forall k :: 0 <= k < |parts| ==> |parts[k]| <= gap
  }

  lemma WritesFit(t: Table, index: nat, parts: seq<seq<byte>>, memory: nat)
    requires GoodTable(t, memory) && Sized(parts, t.gap)
    ensures FitsAll(Writes(t, index, parts), memory)
  {
  }

  /** Remote memory after the slices parts were written from entry index on. */
  ghost function After(remote: seq<byte>, t: Table, index: nat, parts: seq<seq<byte>>): (r: seq<byte>)
    requires GoodTable(t, |remote|) && Sized(parts, t.gap)
    ensures |r| == |remote|
  {
    WritesFit(t, index, parts, |remote|);
    ApplyAll(remote, Writes(t, index, parts))
  }

  lemma AfterSnoc(remote: seq<byte>, t: Table, index: nat, parts: seq<seq<byte>>)
    requires GoodTable(t, |remote|) && Sized(parts, t.gap) && |parts| > 0
    ensures var k := |parts| - 1;
            && FitsOp(WriteTo(t, Entry(t, index, k), parts[k]), |remote|)
            && After(remote, t, index, parts)
               == Splice(After(remote, t, index, parts[..k]), Target(t, Entry(t, index, k)), parts[k])
  {
    var k := |parts| - 1;
    WritesFit(t, index, parts, |remote|);
    assert Writes(t, index, parts)[..k] == Writes(t, index, parts[..k]);
  }

  /** The bytes of one entry. */
  ghost function Region(remote: seq<byte>, t: Table, i: nat, n: nat): seq<byte>
    requires GoodTable(t, |remote|) && i < |t.raddrs| && n <= t.gap
  {
    remote[Target(t, i)..Target(t, i) + n]
  }

  lemma RegionKept(remote: seq<byte>, t: Table, i: nat, j: nat, n: nat, data: seq<byte>)
    requires GoodTable(t, |remote|) && i < |t.raddrs| && j < |t.raddrs| && i != j && n <= t.gap && |data| <= t.gap
    ensures Region(Splice(remote, Target(t, j), data), t, i, n) == Region(remote, t, i, n)
  {
    SpliceApart(remote, Target(t, j), data, Target(t, i), Target(t, i) + n);
  }

  lemma RegionWritten(remote: seq<byte>, t: Table, i: nat, data: seq<byte>)
    requires GoodTable(t, |remote|) && i < |t.raddrs| && |data| <= t.gap
    ensures Region(Splice(remote, Target(t, i), data), t, i, |data|) == data
  {
    SpliceAt(remote, Target(t, i), data);
  }

  /** The last slice written to an entry is what it holds: that is so for the last |raddrs| slices. */
  lemma {:induction false} LastWriteStays(remote: seq<byte>, t: Table, index: nat, parts: seq<seq<byte>>, k: nat)
    requires GoodTable(t, |remote|) && Sized(parts, t.gap) && k < |parts| <= k + |t.raddrs|
    ensures Region(After(remote, t, index, parts), t, Entry(t, index, k), |parts[k]|) == parts[k]
    decreases |parts|
  {
    var last := |parts| - 1;
    var at := Entry(t, index, last);
    var before := After(remote, t, index, parts[..last]);
    AfterSnoc(remote, t, index, parts);
    if k == last {
      RegionWritten(before, t, at, parts[last]);
    } else {
      EntriesApart(t, index, k, last);
      RegionKept(before, t, Entry(t, index, k), at, |parts[k]|, parts[last]);
      LastWriteStays(remote, t, index, parts[..last], k);
    }
  }

  /** Address a is in none of the ranges written. */
  ghost predicate Untouched(t: Table, index: nat, parts: seq<seq<byte>>, a: nat)
    requires 0 < |t.raddrs| == |t.rkeys|
  {
    forall k :: 0 <= k < |parts| ==>
      !(Target(t, Entry(t, index, k)) <= a < Target(t, Entry(t, index, k)) + |parts[k]|)
  }

  lemma {:induction false} OthersKept(remote: seq<byte>, t: Table, index: nat, parts: seq<seq<byte>>, a: nat)
    requires GoodTable(t, |remote|) && Sized(parts, t.gap) && a < |remote| && Untouched(t, index, parts, a)
    ensures After(remote, t, index, parts)[a] == remote[a]
    decreases |parts|
  {
    if |parts| > 0 {
      var last := |parts| - 1;
      var at := Target(t, Entry(t, index, last));
      AfterSnoc(remote, t, index, parts);
      OthersKept(remote, t, index, parts[..last], a);
      assert !(at <= a < at + |parts[last]|);
      OutsideKept(After(remote, t, index, parts[..last]), at, parts[last], a);
    }
  }

  lemma OutsideKept(buf: seq<byte>, at: nat, part: seq<byte>, a: nat)
    requires at + |part| <= |buf| && a < |buf| && !(at <= a < at + |part|)
    ensures Splice(buf, at, part)[a] == buf[a]
  {
  }

  /** The entries read from index on, round the table: as many bytes of each as the slice written there had. */
  ghost function ReadBack(remote: seq<byte>, t: Table, index: nat, parts: seq<seq<byte>>): (r: seq<seq<byte>>)
    requires GoodTable(t, |remote|) && Sized(parts, t.gap)
    ensures |r| == |parts|
    ensures forall k :: 0 <= k < |parts| ==> r[k] == Region(remote, t, Entry(t, index, k), |parts[k]|)
  {
    seq(|parts|, k requires 0 <= k < |parts| => Region(remote, t, Entry(t, index, k), |parts[k]|))
  }

  /** Reading the table back gives the source. */
  ghost predicate Delivered(remote: seq<byte>, t: Table, index: nat, src: seq<byte>)
    requires GoodTable(t, |remote|)
  {
    Flatten(ReadBack(After(remote, t, index, Cut(src, t.gap)), t, index, Cut(src, t.gap))) == src
  }

  /** With a table entry for every slice, the remote entries read in order are exactly the source. */
  lemma BulkImage(remote: seq<byte>, t: Table, index: nat, src: seq<byte>)
    requires GoodTable(t, |remote|) && |Cut(src, t.gap)| <= |t.raddrs|
    ensures Delivered(remote, t, index, src)
  {
    var parts := Cut(src, t.gap);
    var after := After(remote, t, index, parts);
    forall k | 0 <= k < |parts|
      ensures ReadBack(after, t, index, parts)[k] == parts[k]
    {
      LastWriteStays(remote, t, index, parts, k);
    }
    assert ReadBack(after, t, index, parts) == parts;
    CutIsWhole(src, t.gap);
  }

  lemma {:induction false} CutCount(src: seq<byte>, gap: nat)
    requires 0 < gap
    ensures |Cut(src, gap)| == Pieces(|src|, gap)
    decreases |src|
  {
    if |src| > gap {
      CutCount(src[gap..], gap);
      PiecesNext(|src|, gap);
    } else if |src| == gap {
      DivUnique(gap, 1, 0, gap);
    } else {
      DivUnique(|src|, 0, |src|, gap);
    }
  }

  lemma {:induction false} CutAt(src: seq<byte>, gap: nat, k: nat)
    requires 0 < gap && k < |Cut(src, gap)|
    ensures Times(k, gap) < |src| && Cut(src, gap)[k][0] == src[Times(k, gap)]
    decreases k
  {
    if k > 0 {
      CutAt(src[gap..], gap, k - 1);
      assert Times(k, gap) == Times(k - 1, gap) + gap;
    }
  }

  lemma {:induction false} FlattenInjective(a: seq<seq<byte>>, b: seq<seq<byte>>, k: nat)
    requires |a| == |b| && Flatten(a) == Flatten(b) && k < |a|
    requires forall i :: 0 <= i < |a| ==> |a[i]| == |b[i]|
    ensures a[k] == b[k]
    decreases k
  {
    assert a[0] == Flatten(a)[..|a[0]|] && b[0] == Flatten(b)[..|b[0]|];
    if k > 0 {
      assert Flatten(a[1..]) == Flatten(a)[|a[0]|..] && Flatten(b[1..]) == Flatten(b)[|b[0]|..];
      FlattenInjective(a[1..], b[1..], k - 1);
    }
  }

  lemma ReadBackExact(remote: seq<byte>, t: Table, index: nat, parts: seq<seq<byte>>, k: nat)
    requires GoodTable(t, |remote|) && Sized(parts, t.gap) && k < |parts|
    requires Flatten(ReadBack(remote, t, index, parts)) == Flatten(parts)
    ensures Region(remote, t, Entry(t, index, k), |parts[k]|) == parts[k]
  {
    FlattenInjective(ReadBack(remote, t, index, parts), parts, k);
  }

  lemma SameEntry(t: Table, index: nat, k: nat)
    requires 0 < |t.raddrs|
    ensures Entry(t, index, k) == Entry(t, index, k + |t.raddrs|)
  {
    EntryIsMod(t, index, k);
    EntryIsMod(t, index, k + |t.raddrs|);
    ModApart(index + k, |t.raddrs|, |t.raddrs|);
    assert index + k + |t.raddrs| == index + (k + |t.raddrs|);
  }

  /** A slice that reads back begins with the first byte of its entry. */
  lemma FirstByte(remote: seq<byte>, t: Table, index: nat, parts: seq<seq<byte>>, k: nat)
    requires GoodTable(t, |remote|) && Sized(parts, t.gap) && k < |parts| && |parts[k]| > 0
    requires Flatten(ReadBack(remote, t, index, parts)) == Flatten(parts)
    ensures Target(t, Entry(t, index, k)) < |remote| && parts[k][0] == remote[Target(t, Entry(t, index, k))]
  {
    ReadBackExact(remote, t, index, parts, k);
  }

  /** No entry is all zero. */
  ghost predicate NoZeros(t: Table) {
    |t.raddrs| == |t.rkeys| && forall i :: 0 <= i < |t.raddrs| ==> t.raddrs[i] != 0 || t.rkeys[i] != 0
  }

  /** The bytes of the source from k * gap on, gap of them or what is left. */
  ghost predicate IsSlice(src: seq<byte>, gap: nat, k: nat, part: seq<byte>) {
    && Times(k, gap) + |part| == Least(Times(k, gap) + gap, |src|)
    && part == src[Times(k, gap)..Times(k, gap) + |part|]
  }

  lemma {:induction false} SliceIs(src: seq<byte>, gap: nat, k: nat)
    requires 0 < gap && k < |Cut(src, gap)|
    ensures IsSlice(src, gap, k, Cut(src, gap)[k])
    decreases k
  {
    if k > 0 {
      var part, from := Cut(src, gap)[k], Times(k - 1, gap);
      SliceIs(src[gap..], gap, k - 1);
      assert part == Cut(src[gap..], gap)[k - 1];
      SliceSlice(src, gap, |src|, from, from + |part|);
      assert src[gap..] == src[gap..|src|] && Times(k, gap) == from + gap;
    }
  }

  /** Slice k of the source lies at the address of entry index + k, round the table. */
  ghost predicate SliceAt(remote: seq<byte>, t: Table, index: nat, src: seq<byte>, k: nat)
    requires 0 < |t.raddrs|
  {
    exists part :: IsSlice(src, t.gap, k, part) && LiesAt(remote, t.raddrs[Entry(t, index, k)], part)
  }

  ghost predicate LiesAt(remote: seq<byte>, a: nat, part: seq<byte>) {
    a + |part| <= |remote| && remote[a..a + |part|] == part
  }

  /** The bulk image on the addresses of the table, for one without all-zero entries. */
  lemma BulkImageAt(remote: seq<byte>, t: Table, index: nat, src: seq<byte>, k: nat)
    requires GoodTable(t, |remote|) && NoZeros(t) && k < |Cut(src, t.gap)| <= |t.raddrs|
    ensures SliceAt(After(remote, t, index, Cut(src, t.gap)), t, index, src, k)
  {
    var parts := Cut(src, t.gap);
    var after, part := After(remote, t, index, parts), parts[k];
    SliceIs(src, t.gap, k);
    LastWriteStays(remote, t, index, parts, k);
    RegionIs(after, t, Entry(t, index, k), part);
  }

  lemma RegionIs(remote: seq<byte>, t: Table, i: nat, part: seq<byte>)
    requires GoodTable(t, |remote|) && NoZeros(t) && i < |t.raddrs| && |part| <= t.gap
    requires Region(remote, t, i, |part|) == part
    ensures LiesAt(remote, t.raddrs[i], part)
  {
    assert Target(t, i) == t.raddrs[i];
  }

  /** If the table is lapped and reads back as the slices, the slice that shares an entry with the last one begins with
      its first byte. */
  lemma LappedSlice(after: seq<byte>, t: Table, index: nat, parts: seq<seq<byte>>, k: nat, last: nat)
    requires GoodTable(t, |after|) && Sized(parts, t.gap) && k + |t.raddrs| == last < |parts|
    requires |parts[k]| > 0 && |parts[last]| > 0
    requires Flatten(ReadBack(after, t, index, parts)) == Flatten(parts)
    ensures parts[k][0] == parts[last][0]
  {
    FirstByte(after, t, index, parts, k);
    FirstByte(after, t, index, parts, last);
    SameEntry(t, index, k);
  }

  /** Zeros up to position p and ones from there on. */
  function OnesFrom(size: nat, p: nat): (r: seq<byte>)
    ensures |r| == size && forall i :: 0 <= i < size ==> r[i] == if i < p then 0 else 1
  {
    seq(size, i => if i < p then 0 else 1)
  }

  /** The source that is one only in its last slice: an earlier slice and the last one begin differently. */
  lemma OnesSlices(size: nat, gap: nat, k: nat, last: nat)
    requires 0 < gap && k < last && last + 1 == Pieces(size, gap)
    ensures |Cut(OnesFrom(size, Times(last, gap)), gap)| == last + 1
    ensures Cut(OnesFrom(size, Times(last, gap)), gap)[k][0] != Cut(OnesFrom(size, Times(last, gap)), gap)[last][0]
  {
    var src := OnesFrom(size, Times(last, gap));
    CutCount(src, gap);
    TimesMono(k + 1, last, gap);
    CutAt(src, gap, k);
    CutAt(src, gap, last);
  }

  /** That source is not given back by a table it laps. */
  lemma LappedSource(remote: seq<byte>, t: Table, index: nat, size: nat) returns (src: seq<byte>)
    requires GoodTable(t, |remote|) && |t.raddrs| < Pieces(size, t.gap)
    ensures |src| == size && !Delivered(remote, t, index, src)
  {
    var last := Pieces(size, t.gap) - 1;
    var k := last - |t.raddrs|;
    src := OnesFrom(size, Times(last, t.gap));
    OnesSlices(size, t.gap, k, last);
    if Delivered(remote, t, index, src) {
      var parts := Cut(src, t.gap);
      CutIsWhole(src, t.gap);
      LappedSlice(After(remote, t, index, parts), t, index, parts, k, last);
    }
  }

  ghost predicate AllDelivered(remote: seq<byte>, t: Table, index: nat, size: nat)
    requires GoodTable(t, |remote|)
  {
    forall src: seq<byte> :: |src| == size ==> Delivered(remote, t, index, src)
  }

  /** The image is right for every source of a size exactly when the table has an entry for each of its slices. */
  lemma BulkImageIff(remote: seq<byte>, t: Table, index: nat, size: nat)
    requires GoodTable(t, |remote|)
    ensures AllDelivered(remote, t, index, size) <==> Pieces(size, t.gap) <= |t.raddrs|
  {
    if Pieces(size, t.gap) <= |t.raddrs| {
      forall src: seq<byte> | |src| == size
        ensures Delivered(remote, t, index, src)
      {
        CutCount(src, t.gap);
        BulkImage(remote, t, index, src);
      }
    } else {
      var src := LappedSource(remote, t, index, size);
    }
  }
}
