/** send: a list of buffers of any sizes packed into fixed-size chunks and chained as work requests. */
module Packing {
  import opened Bytes
  import opened Modular
  import opened Chunks

  /** held is what each chunk holds while done bytes of the stream have been copied: the chunks before cur are full,
      those after it empty, and together they hold exactly those bytes. */
  ghost predicate Packed(held: seq<seq<byte>>, size: nat, stream: seq<byte>, done: nat, cur: nat) {
    && cur <= |held| && done <= |stream|
    && (forall k :: 0 <= k < cur ==> |held[k]| == size)
    && (forall k :: cur < k < |held| ==> held[k] == [])
    && (cur < |held| ==> |held[cur]| < size)
    && Flatten(held) == stream[..done]
  }

  lemma {:induction false} FlattenFull(held: seq<seq<byte>>, size: nat)
    requires forall k :: 0 <= k < |held| ==> |held[k]| == size
    ensures |Flatten(held)| == Times(|held|, size)
  {
    if |held| > 0 {
      FlattenFull(held[1..], size);
    }
  }

  /** Full chunks before cur, empty ones behind it: the concatenation is theirs and that of chunk cur. */
  lemma FlattenAt(held: seq<seq<byte>>, cur: nat)
    requires cur < |held| && forall k :: cur < k < |held| ==> held[k] == []
    ensures Flatten(held) == Flatten(held[..cur]) + held[cur]
  {
    var head, tail := held[..cur + 1], held[cur + 1..];
    FlattenEmpty(tail);
    assert held == head + tail;
    FlattenConcat(head, tail);
    FlattenUpTo(held, cur);
  }

  lemma FlattenGrow(held: seq<seq<byte>>, cur: nat, more: seq<byte>)
    requires cur < |held| && forall k :: cur < k < |held| ==> held[k] == []
    ensures Flatten(held[cur := held[cur] + more]) == Flatten(held) + more
  {
    var held' := held[cur := held[cur] + more];
    FlattenAt(held, cur);
    FlattenAt(held', cur);
    assert held'[..cur] == held[..cur];
  }

  /** Bytes still to copy mean a chunk with room, as long as there are chunks enough. */
  lemma RoomLeft(held: seq<seq<byte>>, size: nat, stream: seq<byte>, done: nat, cur: nat)
    requires Packed(held, size, stream, done, cur) && done < |stream| <= Times(|held|, size)
    ensures cur < |held|
  {
    if cur == |held| {
      FlattenFull(held, size);
    }
  }

  lemma PackMore(held: seq<seq<byte>>, size: nat, stream: seq<byte>, done: nat, cur: nat, more: seq<byte>, held': seq<seq<byte>>)
    requires Packed(held, size, stream, done, cur) && cur < |held|
    requires done + |more| <= |stream| && more == stream[done..done + |more|] && |held[cur]| + |more| <= size
    requires held' == held[cur := held[cur] + more]
    ensures Packed(held', size, stream, done + |more|, if |held'[cur]| == size then cur + 1 else cur)
  {
    FlattenGrow(held, cur, more);
    assert stream[..done] + more == stream[..done + |more|];
  }

  /** What the peer gets: the chunk contents in order are the stream, all full but the last, which is not empty. */
  ghost predicate Image(held: seq<seq<byte>>, size: nat, stream: seq<byte>) {
    && held != []
    && Flatten(held) == stream
    && (forall k :: 0 <= k < |held| - 1 ==> |held[k]| == size)
    && 0 < |held[|held| - 1]| <= size
  }

  /** Everything copied into the least number of chunks is such an image. */
  lemma PackedIsImage(held: seq<seq<byte>>, size: nat, stream: seq<byte>, cur: nat)
    requires 0 < size && Packed(held, size, stream, |stream|, cur)
    requires |stream| > 0 && |held| > 0 && Times(|held| - 1, size) < |stream|
    ensures Image(held, size, stream)
  {
    assert stream[..|stream|] == stream;
    if cur < |held| - 1 {
      FlattenAt(held, cur);
      FlattenFull(held[..cur], size);
      TimesMono(cur + 1, |held| - 1, size);
    } else if cur == |held| - 1 {
      FlattenAt(held, cur);
      FlattenFull(held[..cur], size);
    }
  }

  ghost predicate Parts(bl: seq<array<byte>>, parts: seq<seq<byte>>)
    reads bl
  {
    |bl| == |parts| && forall i :: 0 <= i < |bl| ==> bl[i][..] == parts[i]
  }

  lemma PartAt(parts: seq<seq<byte>>, i: nat)
    requires i < |parts|
    ensures |Flatten(parts[..i])| + |parts[i]| == |Flatten(parts[..i + 1])| <= |Flatten(parts)|
    ensures Flatten(parts)[|Flatten(parts[..i])|..|Flatten(parts[..i + 1])|] == parts[i]
  {
    FlattenUpTo(parts, i);
    assert parts == parts[..i + 1] + parts[i + 1..];
    FlattenConcat(parts[..i + 1], parts[i + 1..]);
  }

  /** The inner copy loop: one buffer of the list. */
  method PackOne(chunks: seq<Chunk>, size: nat, cur: nat, src: array<byte>, ghost stream: seq<byte>, ghost done: nat)
    returns (cur': nat)
    requires 0 < size && Separate(chunks, size) && src !in Buffers(chunks)
    requires |stream| <= Times(|chunks|, size) && Packed(Contents(chunks), size, stream, done, cur)
    requires done + src.Length <= |stream| && src[..] == stream[done..done + src.Length]
    modifies chunks, Buffers(chunks)
    ensures Separate(chunks, size)
    ensures Packed(Contents(chunks), size, stream, done + src.Length, cur')
  {
    cur' := cur;
    var copied := 0;
    ghost var part := src[..];
    while copied < src.Length
      invariant copied <= src.Length && Separate(chunks, size) && src[..] == part
      invariant Packed(Contents(chunks), size, stream, done + copied, cur')
      decreases src.Length - copied
    {
      RoomLeft(Contents(chunks), size, stream, done + copied, cur');
      cur', copied := PackStep(chunks, size, cur', src, copied, stream, done);
    }
  }

  lemma PartOfStream(part: seq<byte>, stream: seq<byte>, done: nat, copied: nat, n: nat)
    requires done + |part| <= |stream| && part == stream[done..done + |part|] && copied + n <= |part|
    ensures part[copied..copied + n] == stream[done + copied..done + copied + n]
  {
    SliceSlice(stream, done, done + |part|, copied, copied + n);
  }

  /** One round of it: a write to the current chunk, and on to the next if that filled it. */
  method PackStep(chunks: seq<Chunk>, size: nat, cur: nat, src: array<byte>, copied: nat,
                  ghost stream: seq<byte>, ghost done: nat)
    returns (cur': nat, copied': nat)
    requires 0 < size && Separate(chunks, size) && src !in Buffers(chunks)
    requires cur < |chunks| && Packed(Contents(chunks), size, stream, done + copied, cur)
    requires copied < src.Length && done + src.Length <= |stream| && src[..] == stream[done..done + src.Length]
    modifies chunks, Buffers(chunks)
    ensures Separate(chunks, size) && src[..] == old(src[..])
    ensures copied < copied' <= src.Length
    ensures Packed(Contents(chunks), size, stream, done + copied', cur')
  {
    ghost var held := Contents(chunks);
    var n;
    ghost var more;
    n, more := CopyIn(chunks, size, cur, src, copied, stream, done);
    PackMore(held, size, stream, done + copied, cur, more, Contents(chunks));
    copied' := copied + n;
    cur' := if chunks[cur].Full() then cur + 1 else cur;
  }

  /** That write: more is the part of the stream that went into the chunk. */
  method CopyIn(chunks: seq<Chunk>, size: nat, cur: nat, src: array<byte>, copied: nat,
                ghost stream: seq<byte>, ghost done: nat)
    returns (n: nat, ghost more: seq<byte>)
    requires 0 < size && Separate(chunks, size) && src !in Buffers(chunks)
    requires cur < |chunks| && |Contents(chunks)[cur]| < size
    requires copied < src.Length && done + src.Length <= |stream| && src[..] == stream[done..done + src.Length]
    modifies chunks, Buffers(chunks)
    ensures Separate(chunks, size)
    ensures 0 < n == |more| && copied + n <= src.Length && more == stream[done + copied..done + copied + n]
    ensures |old(Contents(chunks))[cur]| + n <= size
    ensures Contents(chunks) == old(Contents(chunks))[cur := old(Contents(chunks))[cur] + more]
  {
    n := WriteTo(chunks, size, cur, src, copied);
    more := src[copied..copied + n];
    PartOfStream(src[..], stream, done, copied, n);
    assert more == src[..][copied..copied + n];
  }

  lemma PackedNone(held: seq<seq<byte>>, size: nat, stream: seq<byte>)
    requires 0 < size && forall k :: 0 <= k < |held| ==> held[k] == []
    ensures Packed(held, size, stream, 0, 0)
  {
    FlattenEmpty(held);
  }

  /** i buffers of the list are packed. */
  ghost predicate PackedUpTo(chunks: seq<Chunk>, size: nat, parts: seq<seq<byte>>, i: nat, cur: nat)
    requires i <= |parts|
    reads chunks, Buffers(chunks)
  {
    Separate(chunks, size) && Packed(Contents(chunks), size, Flatten(parts), |Flatten(parts[..i])|, cur)
  }

  /** The outer loop: every buffer of the list, in order. */
  method PackAll(chunks: seq<Chunk>, size: nat, bl: seq<array<byte>>, ghost parts: seq<seq<byte>>)
    returns (ghost cur: nat)
    requires 0 < size && Separate(chunks, size)
    requires Parts(bl, parts) && forall i :: 0 <= i < |bl| ==> bl[i] !in Buffers(chunks)
    requires forall k :: 0 <= k < |chunks| ==> chunks[k].offset == 0
    requires |Flatten(parts)| <= Times(|chunks|, size)
    modifies chunks, Buffers(chunks)
    ensures PackedUpTo(chunks, size, parts, |parts|, cur)
  {
    var at, i := 0, 0;
    PackedNone(Contents(chunks), size, Flatten(parts));
    while i < |bl|
      invariant i <= |bl| && Parts(bl, parts) && PackedUpTo(chunks, size, parts, i, at)
    {
      at := PackNext(chunks, size, at, bl, i, parts);
      i := i + 1;
    }
    cur := at;
  }

  method PackNext(chunks: seq<Chunk>, size: nat, cur: nat, bl: seq<array<byte>>, i: nat, ghost parts: seq<seq<byte>>)
    returns (cur': nat)
    requires 0 < size && Parts(bl, parts) && i < |bl| && bl[i] !in Buffers(chunks)
    requires |Flatten(parts)| <= Times(|chunks|, size) && PackedUpTo(chunks, size, parts, i, cur)
    modifies chunks, Buffers(chunks)
    ensures PackedUpTo(chunks, size, parts, i + 1, cur')
  {
    PartAt(parts, i);
    cur' := PackOne(chunks, size, cur, bl[i], Flatten(parts), |Flatten(parts[..i])|);
  }

  /** A work request: the chunk it names (as wr_id and as its one segment), the segment length, and the index of the
      next request, or -1. */
  datatype WorkRequest = WorkRequest(chunk: Chunk, length: nat, next: int)

  /** What the device follows from a request on: the chain of next links. */
  ghost function Chain(wrs: seq<WorkRequest>, from: nat): seq<WorkRequest>
    requires from < |wrs| && forall k :: 0 <= k < |wrs| ==> wrs[k].next == -1 || k < wrs[k].next < |wrs|
    decreases |wrs| - from
  {
    [wrs[from]] + (if wrs[from].next == -1 then [] else Chain(wrs, wrs[from].next))
  }

  ghost predicate Linked(wrs: seq<WorkRequest>) {
    forall k :: 0 <= k < |wrs| ==> wrs[k].next == if k + 1 < |wrs| then k + 1 else -1
  }

  /** Requests linked in order are all followed, each once. */
  lemma {:induction false} ChainIsAll(wrs: seq<WorkRequest>, from: nat)
    requires Linked(wrs) && from < |wrs|
    ensures Chain(wrs, from) == wrs[from..]
    decreases |wrs| - from
  {
    if from + 1 < |wrs| {
      ChainIsAll(wrs, from + 1);
    }
  }

  /** The second loop of send: one work request per chunk, each linked from the one before. */
  method BuildChain(chunks: seq<Chunk>) returns (wrs: seq<WorkRequest>)
    ensures |wrs| == |chunks| && Linked(wrs)
    ensures forall k :: 0 <= k < |wrs| ==> wrs[k].chunk == chunks[k] && wrs[k].length == chunks[k].offset
  {
    wrs := [];
    var pre := -1;
    for i := 0 to |chunks|
      invariant |wrs| == i && pre == i - 1 && Linked(wrs)
      invariant forall k :: 0 <= k < i ==> wrs[k].chunk == chunks[k] && wrs[k].length == chunks[k].offset
    {
      wrs := wrs + [WorkRequest(chunks[i], chunks[i].offset, -1)];
      if pre != -1 {
        wrs := wrs[pre := wrs[pre].(next := i)];
      }
      pre := i;
    }
  }

  /** The first loop of send: the number of bytes to send. */
  method TotalLength(bl: seq<array<byte>>, ghost parts: seq<seq<byte>>) returns (bytes: nat)
    requires Parts(bl, parts)
    ensures bytes == |Flatten(parts)|
  {
    bytes := 0;
    for i := 0 to |bl|
      invariant bytes == |Flatten(parts[..i])|
    {
      PartAt(parts, i);
      bytes := bytes + bl[i].Length;
    }
    assert parts[..|parts|] == parts;
  }

  /** What a send can take from the free list: chunks that share nothing, among themselves or with the caller's
      buffers, with nothing written to them. */
  ghost predicate Ready(free: seq<Chunk>, size: nat, bl: seq<array<byte>>)
    reads free
  {
    && 0 < size && Separate(free, size)
    && (forall k :: 0 <= k < |free| ==> free[k].offset == 0)
    && (forall i :: 0 <= i < |bl| ==> bl[i] !in Buffers(free))
  }

  lemma PoppedReady(free: seq<Chunk>, size: nat, bl: seq<array<byte>>, num: nat)
    requires Ready(free, size, bl) && num <= |free|
    ensures Ready(Popped(free, num), size, bl)
    ensures Buffers(Popped(free, num)) <= Buffers(free)
    ensures forall c :: c in Popped(free, num) ==> c in free
  {
    var p := Popped(free, num);
    forall j: nat, k: nat
      ensures Apart(p, j, k)
    {
      if j < k < num {
        assert Apart(free, |free| - 1 - k, |free| - 1 - j);
      }
    }
  }

  lemma RestReady(free: seq<Chunk>, size: nat, bl: seq<array<byte>>, num: nat)
    requires Ready(free, size, bl) && num <= |free|
    ensures Ready(free[..|free| - num], size, bl)
    ensures forall c :: c in free[..|free| - num] ==> c !in Popped(free, num)
  {
    var rest, taken := free[..|free| - num], Popped(free, num);
    forall j: nat, k: nat
      ensures Apart(rest, j, k)
    {
      assert Apart(free, j, k);
    }
    forall i, j | 0 <= i < |rest| && 0 <= j < num
      ensures rest[i] != taken[j]
    {
      assert Apart(free, i, |free| - 1 - j);
    }
  }

  /** The chunks a send of so many bytes gets, and the free list it leaves. */
  ghost function TakenFor(free: seq<Chunk>, size: nat, bytes: nat): seq<Chunk>
    requires 0 < size
  {
    if bytes == 0 then free
    else if Pieces(bytes, size) > |free| then []
    else Popped(free, Pieces(bytes, size))
  }

  ghost function LeftBy(free: seq<Chunk>, size: nat, bytes: nat): seq<Chunk>
    requires 0 < size
  {
    if bytes == 0 || Pieces(bytes, size) > |free| then free else free[..|free| - Pieces(bytes, size)]
  }

  /** get_tx_buffers for the bytes of a send: chunks that hold them if the pool has enough, and none otherwise. */
  method TakeChunks(cluster: Cluster, bytes: nat, bl: seq<array<byte>>) returns (tx: seq<Chunk>)
    requires Ready(cluster.freeChunks, cluster.chunkSize, bl)
    modifies cluster
    ensures tx == TakenFor(old(cluster.freeChunks), cluster.chunkSize, bytes)
    ensures cluster.freeChunks == LeftBy(old(cluster.freeChunks), cluster.chunkSize, bytes)
    ensures Ready(tx, cluster.chunkSize, bl) && Ready(cluster.freeChunks, cluster.chunkSize, bl)
    ensures Buffers(tx) <= Buffers(old(cluster.freeChunks)) && forall c :: c in tx ==> c in old(cluster.freeChunks)
    ensures bytes <= Times(|tx|, cluster.chunkSize) <==>
            bytes == 0 || Pieces(bytes, cluster.chunkSize) <= |old(cluster.freeChunks)|
    ensures tx != [] && bytes > 0 ==> Times(|tx| - 1, cluster.chunkSize) < bytes
    ensures if bytes == 0 then cluster.freeChunks == tx else forall c :: c in cluster.freeChunks ==> c !in tx
  {
    tx := cluster.GetBuffers(bytes);
    if bytes > 0 {
      EnoughPieces(bytes, cluster.chunkSize);
      PoppedReady(old(cluster.freeChunks), cluster.chunkSize, bl, |tx|);
      RestReady(old(cluster.freeChunks), cluster.chunkSize, bl, |tx|);
    }
  }

  /** The copy loop for so many bytes, into n empty chunks, writes through no iterator past the last chunk. */
  ghost predicate Inside(n: nat, size: nat, bytes: nat) {
    forall held: seq<seq<byte>>, stream: seq<byte>, done: nat, cur: nat ::
      |held| == n && |stream| == bytes && done < bytes && Packed(held, size, stream, done, cur) ==> cur < n
  }

  lemma InsideIff(n: nat, size: nat, bytes: nat)
    requires 0 < size
    ensures Inside(n, size, bytes) <==> bytes <= Times(n, size)
  {
    if bytes <= Times(n, size) {
      forall held: seq<seq<byte>>, stream: seq<byte>, done: nat, cur: nat |
        |held| == n && |stream| == bytes && done < bytes && Packed(held, size, stream, done, cur)
        ensures cur < n
      {
        RoomLeft(held, size, stream, done, cur);
      }
    } else {
      var full := seq(n, _ => seq<byte>(size, _ => 0));
      FlattenFull(full, size);
      var stream := Flatten(full) + seq<byte>(bytes - Times(n, size), _ => 0);
      assert stream[..Times(n, size)] == Flatten(full);
      assert Packed(full, size, stream, Times(n, size), n);
    }
  }

  /** The copy loop of a send stays inside the chunks it took exactly if the free list had enough of them. */
  lemma SendInsideIff(free: seq<Chunk>, size: nat, bytes: nat)
    requires 0 < size
    ensures Inside(|TakenFor(free, size, bytes)|, size, bytes) <==> bytes == 0 || Pieces(bytes, size) <= |free|
  {
    InsideIff(|TakenFor(free, size, bytes)|, size, bytes);
    if bytes > 0 {
      EnoughPieces(bytes, size);
    }
  }

  /** The work requests are the chunks in order, all reached from the first, and carry the stream. */
  ghost predicate Carries(wrs: seq<WorkRequest>, tx: seq<Chunk>, size: nat, stream: seq<byte>)
    reads tx, Buffers(tx)
  {
    && Separate(tx, size)
    && |wrs| == |tx| && Linked(wrs)
    && (wrs != [] ==> Chain(wrs, 0) == wrs)
    && (forall k :: 0 <= k < |wrs| ==> wrs[k].chunk == tx[k] && wrs[k].length == |Contents(tx)[k]|)
    && Flatten(Contents(tx)) == stream
    && (|stream| > 0 ==> Image(Contents(tx), size, stream))
  }

  lemma PackedWhole(tx: seq<Chunk>, size: nat, parts: seq<seq<byte>>, cur: nat)
    requires 0 < size && PackedUpTo(tx, size, parts, |parts|, cur)
    requires |Flatten(parts)| > 0 ==> |tx| > 0 && Times(|tx| - 1, size) < |Flatten(parts)|
    ensures Flatten(Contents(tx)) == Flatten(parts)
    ensures |Flatten(parts)| > 0 ==> Image(Contents(tx), size, Flatten(parts))
  {
    assert parts[..|parts|] == parts;
    WholeImage(Contents(tx), size, Flatten(parts), cur);
  }

  /** The copy loops and the chain loop of send. */
  method FillAndChain(tx: seq<Chunk>, size: nat, bl: seq<array<byte>>, ghost parts: seq<seq<byte>>)
    returns (wrs: seq<WorkRequest>)
    requires Ready(tx, size, bl) && Parts(bl, parts) && |Flatten(parts)| <= Times(|tx|, size)
    requires |Flatten(parts)| > 0 ==> |tx| > 0 && Times(|tx| - 1, size) < |Flatten(parts)|
    modifies tx, Buffers(tx)
    ensures Carries(wrs, tx, size, Flatten(parts))
  {
    ghost var cur := PackAll(tx, size, bl, parts);
    PackedWhole(tx, size, parts, cur);
    wrs := BuildChain(tx);
    ChainCarries(wrs, tx, size, Flatten(parts));
  }

  lemma ChainCarries(wrs: seq<WorkRequest>, tx: seq<Chunk>, size: nat, stream: seq<byte>)
    requires Separate(tx, size) && |wrs| == |tx| && Linked(wrs)
    requires forall k :: 0 <= k < |wrs| ==> wrs[k].chunk == tx[k] && wrs[k].length == tx[k].offset
    requires Flatten(Contents(tx)) == stream && (|stream| > 0 ==> Image(Contents(tx), size, stream))
    ensures Carries(wrs, tx, size, stream)
  {
    if wrs != [] {
      ChainIsAll(wrs, 0);
      assert wrs[0..] == wrs;
    }
  }

  /** After an empty send the chunks named are as empty as before. */
  lemma EmptyStaysReady(tx: seq<Chunk>, size: nat, bl: seq<array<byte>>)
    requires 0 < size && Separate(tx, size) && Flatten(Contents(tx)) == []
    requires forall i :: 0 <= i < |bl| ==> bl[i] !in Buffers(tx)
    ensures Ready(tx, size, bl)
  {
    forall k | 0 <= k < |tx|
      ensures tx[k].offset == 0
    {
      FlattenNone(Contents(tx), k);
    }
  }

  /** The same, beside the free list the chunks came from, which stays ready for the next send. */
  method FillBeside(tx: seq<Chunk>, size: nat, bl: seq<array<byte>>, ghost parts: seq<seq<byte>>, ghost rest: seq<Chunk>)
    returns (wrs: seq<WorkRequest>)
    requires Ready(tx, size, bl) && Parts(bl, parts) && |Flatten(parts)| <= Times(|tx|, size)
    requires |Flatten(parts)| > 0 ==> |tx| > 0 && Times(|tx| - 1, size) < |Flatten(parts)|
    requires Ready(rest, size, bl)
    requires if |Flatten(parts)| == 0 then rest == tx else forall c :: c in rest ==> c !in tx
    modifies tx, Buffers(tx)
    ensures Carries(wrs, tx, size, Flatten(parts))
    ensures Ready(rest, size, bl)
  {
    wrs := FillAndChain(tx, size, bl, parts);
    if |Flatten(parts)| == 0 {
      EmptyStaysReady(tx, size, bl);
    } else {
      forall k | 0 <= k < |rest|
        ensures rest[k].Valid() && rest[k].offset == 0
      {
        assert rest[k] in rest && rest[k] !in tx;
      }
    }
  }

  /** send. posted says whether the device accepts the chain. The pool must hold chunks enough (and one, for an empty
      send): with fewer the source writes through an end iterator (SendInsideIff). */
  method Send(cluster: Cluster, bl: seq<array<byte>>, ghost parts: seq<seq<byte>>, posted: bool)
    returns (r: int, bl': seq<array<byte>>, wrs: seq<WorkRequest>, tx: seq<Chunk>)
    requires Ready(cluster.freeChunks, cluster.chunkSize, bl) && Parts(bl, parts)
    requires cluster.freeChunks != [] && Pieces(|Flatten(parts)|, cluster.chunkSize) <= |cluster.freeChunks|
    modifies cluster, cluster.freeChunks, Buffers(cluster.freeChunks)
    ensures r == (if posted then |Flatten(parts)| else -1) && bl' == (if posted then [] else bl)
    ensures tx == TakenFor(old(cluster.freeChunks), cluster.chunkSize, |Flatten(parts)|)
    ensures cluster.freeChunks == LeftBy(old(cluster.freeChunks), cluster.chunkSize, |Flatten(parts)|)
    ensures tx != [] && Carries(wrs, tx, cluster.chunkSize, Flatten(parts))
    ensures Ready(cluster.freeChunks, cluster.chunkSize, bl)
  {
    ghost var stream := Flatten(parts);
    var bytes := TotalLength(bl, parts);
    tx := TakeChunks(cluster, bytes, bl);
    wrs := FillBeside(tx, cluster.chunkSize, bl, parts, cluster.freeChunks);
    if !posted {
      return -1, bl, wrs, tx;
    }
    r, bl' := bytes, [];
  }

  lemma WholeImage(held: seq<seq<byte>>, size: nat, stream: seq<byte>, cur: nat)
    requires 0 < size && Packed(held, size, stream, |stream|, cur)
    requires |stream| > 0 ==> |held| > 0 && Times(|held| - 1, size) < |stream|
    ensures Flatten(held) == stream
    ensures |stream| > 0 ==> Image(held, size, stream)
  {
    assert stream[..|stream|] == stream;
    if |stream| > 0 {
      PackedIsImage(held, size, stream, cur);
    }
  }
}
