/** Fixed-size chunks and the free list they are taken from. */
module Chunks {
  import opened Bytes
  import opened Modular
  import opened Words

  class Chunk {
    const buffer: array<byte>
    const bytes: nat
    var offset: nat

    constructor (size: nat)
      ensures Valid() && fresh(buffer) && bytes == size && offset == 0
    {
      buffer := new byte[size](_ => 0);
      bytes, offset := size, 0;
    }

    ghost predicate Valid()
      reads this
    {
      buffer.Length == bytes && offset <= bytes
    }

    /** Copies out of the chunk from its offset on. A read past the end stops there and winds the offset back to 0. */
    method Read(dest: array<byte>, at: nat, len: nat) returns (n: nat)
      requires Valid() && dest != buffer
      requires at + (if bytes - offset >= len then len else bytes - offset) <= dest.Length
      modifies dest, this`offset
      ensures Valid()
      ensures n == if bytes - old(offset) >= len then len else bytes - old(offset)
      ensures dest[..] == Splice(old(dest[..]), at, buffer[old(offset)..old(offset) + n])
      ensures offset == if bytes - old(offset) >= len then old(offset) + n else 0
    {
      var left := bytes - offset;
      if left >= len {
        Memcpy(dest, at, buffer, offset, len);
        offset := offset + len;
        n := len;
      } else {
        Memcpy(dest, at, buffer, offset, left);
        offset := 0;
        n := left;
      }
    }

    /** Appends to the chunk what fits. */
    method Write(src: array<byte>, s: nat, len: nat) returns (n: nat)
      requires Valid() && src != buffer && s + len <= src.Length
      modifies buffer, this`offset
      ensures Valid()
      ensures n == if bytes - old(offset) >= len then len else bytes - old(offset)
      ensures offset == old(offset) + n
      ensures buffer[..] == Splice(old(buffer[..]), old(offset), src[s..s + n])
      ensures buffer[..offset] == old(buffer[..offset]) + src[s..s + n]
    {
      var left := bytes - offset;
      if left >= len {
        Memcpy(buffer, offset, src, s, len);
        offset := offset + len;
        n := len;
      } else {
        Memcpy(buffer, offset, src, s, left);
        offset := bytes;
        n := left;
      }
    }

    predicate Full()
      reads this
    {
      offset == bytes
    }
  }

  /** The size of the block add asks malloc for, which is an unsigned 32-bit product. */
  function BlockSize(num: nat, size: nat): nat {
    Times(num, size) % WORD
  }

  /** The offset of the loop of add, also 32 bits, gets past the block before it wraps. */
  ghost predicate BlockEnds(num: nat, size: nat)
    requires 0 < size
  {
    Times(Pieces(BlockSize(num, size), size), size) < WORD
  }

  lemma EnoughPieces(bytes: nat, size: nat)
    requires 0 < size
    ensures bytes <= Times(Pieces(bytes, size), size)
    ensures 0 < bytes ==> 0 < Pieces(bytes, size) && Times(Pieces(bytes, size) - 1, size) < bytes
    ensures 0 == bytes ==> Pieces(bytes, size) == 0
  {
    PiecesIsLeast(bytes, size);
    TimesIsProduct(Pieces(bytes, size), size);
    if 0 < bytes {
      TimesIsProduct(Pieces(bytes, size) - 1, size);
    }
  }

  lemma SamePieces(num: nat, size: nat, bytes: nat)
    requires 0 < size && bytes == Times(num, size)
    ensures Pieces(bytes, size) == num
  {
    EnoughPieces(bytes, size);
    if Pieces(bytes, size) < num {
      TimesMono(Pieces(bytes, size) + 1, num, size);
    } else if num < Pieces(bytes, size) {
      TimesMono(num, Pieces(bytes, size) - 1, size);
    }
  }

  lemma FewerPieces(num: nat, size: nat, bytes: nat)
    requires 0 < size && 0 < num && bytes + size <= Times(num, size)
    ensures Pieces(bytes, size) < num
  {
    EnoughPieces(bytes, size);
    if num <= Pieces(bytes, size) {
      TimesMono(num - 1, Pieces(bytes, size) - 1, size);
    }
  }

  lemma Wraps(x: nat)
    ensures if x < WORD then x % WORD == x else x % WORD <= x - WORD
  {
  }

  /** add adds as many chunks as asked for exactly if their sizes sum to less than 2^32. */
  lemma AddsAllIff(num: nat, size: nat)
    requires 0 < size < WORD
    ensures Pieces(BlockSize(num, size), size) == num <==> Times(num, size) < WORD
  {
    Wraps(Times(num, size));
    if Times(num, size) < WORD {
      SamePieces(num, size, BlockSize(num, size));
    } else {
      FewerPieces(num, size, BlockSize(num, size));
    }
  }

  class Cluster {
    const chunkSize: nat
    var freeChunks: seq<Chunk>

    constructor (size: nat, chunks: seq<Chunk>)
      ensures chunkSize == size && freeChunks == chunks
    {
      chunkSize, freeChunks := size, chunks;
    }

    /** Cluster(m, s, n): a pool of new chunks. */
    constructor WithChunks(size: nat, num: nat)
      requires 0 < size && BlockEnds(num, size)
      ensures chunkSize == size && |freeChunks| == Pieces(BlockSize(num, size), size) && Separate(freeChunks, size)
      ensures forall k :: 0 <= k < |freeChunks| ==> fresh(freeChunks[k]) && freeChunks[k].offset == 0
    {
      chunkSize, freeChunks := size, [];
      new;
      Add(num);
    }

    /** add: the chunks of one new block. They are as many as asked for exactly as AddsAllIff says. */
    method Add(num: nat)
      requires 0 < chunkSize && BlockEnds(num, chunkSize)
      requires Separate(freeChunks, chunkSize)
      modifies this
      ensures |freeChunks| == |old(freeChunks)| + Pieces(BlockSize(num, chunkSize), chunkSize)
      ensures old(freeChunks) <= freeChunks && Separate(freeChunks, chunkSize)
      ensures forall k :: |old(freeChunks)| <= k < |freeChunks| ==> fresh(freeChunks[k]) && freeChunks[k].offset == 0
    {
      var bytes := BlockSize(num, chunkSize);
      var offset := 0;
      ghost var n: nat, all := 0, Pieces(bytes, chunkSize);
      EnoughPieces(bytes, chunkSize);
      while offset < bytes
        invariant n <= all && offset == Times(n, chunkSize)
        invariant |freeChunks| == |old(freeChunks)| + n && old(freeChunks) <= freeChunks
        invariant Separate(freeChunks, chunkSize)
        invariant forall k :: |old(freeChunks)| <= k < |freeChunks| ==> fresh(freeChunks[k]) && freeChunks[k].offset == 0
        decreases all - n
      {
        TimesMono(n + 1, all, chunkSize);
        var c := new Chunk(chunkSize);
        SeparateSnoc(freeChunks, chunkSize, c);
        freeChunks := freeChunks + [c];
        offset, n := offset + chunkSize, n + 1;
      }
      if n < all {
        TimesMono(n, all - 1, chunkSize);
      }
    }

    method TakeBack(c: Chunk)
      modifies this
      ensures freeChunks == old(freeChunks) + [c]
    {
      freeChunks := freeChunks + [c];
    }

    /** get_buffers: the least number of chunks that hold the bytes, from the back of the list; none if there are too
        few. For 0 bytes it answers the whole list and keeps it. */
    method GetBuffers(bytes: nat) returns (ret: seq<Chunk>)
      requires 0 < chunkSize
      modifies this
      ensures bytes == 0 ==> ret == old(freeChunks) && freeChunks == old(freeChunks)
      ensures bytes > 0 && Pieces(bytes, chunkSize) > |old(freeChunks)| ==> ret == [] && freeChunks == old(freeChunks)
      ensures bytes > 0 && Pieces(bytes, chunkSize) <= |old(freeChunks)| ==>
                && ret == Popped(old(freeChunks), Pieces(bytes, chunkSize))
                && freeChunks == old(freeChunks)[..|old(freeChunks)| - |ret|]
    {
      if bytes == 0 {
        return freeChunks;
      }
      ret := [];
      var num := bytes / chunkSize + 1;
      if bytes % chunkSize == 0 {
        num := num - 1;
      }
      if |freeChunks| < num {
        return;
      }
      while |ret| != num
        invariant |ret| <= num <= |old(freeChunks)|
        invariant ret == Popped(old(freeChunks), |ret|)
        invariant freeChunks == old(freeChunks)[..|old(freeChunks)| - |ret|]
        decreases num - |ret|
      {
        ret := ret + [freeChunks[|freeChunks| - 1]];
        freeChunks := freeChunks[..|freeChunks| - 1];
      }
    }
  }

  ghost predicate Apart(chunks: seq<Chunk>, j: nat, k: nat) {
    j < k < |chunks| ==> chunks[j] != chunks[k] && chunks[j].buffer != chunks[k].buffer
  }

  /** Chunks of one size that share nothing. */
  ghost predicate Separate(chunks: seq<Chunk>, size: nat)
    reads chunks
  {
    && (forall k :: 0 <= k < |chunks| ==> chunks[k].Valid() && chunks[k].bytes == size)
    && (forall j, k :: Apart(chunks, j, k))
  }

  lemma SeparateSnoc(chunks: seq<Chunk>, size: nat, c: Chunk)
    requires Separate(chunks, size) && c.Valid() && c.bytes == size && c !in chunks && c.buffer !in Buffers(chunks)
    ensures Separate(chunks + [c], size)
  {
    forall j: nat, k: nat
      ensures Apart(chunks + [c], j, k)
    {
      assert Apart(chunks, j, k);
      if j < k == |chunks| {
        assert chunks[j] in chunks && chunks[j].buffer in Buffers(chunks);
      }
    }
  }

  ghost function Buffers(chunks: seq<Chunk>): set<array<byte>> {
    set c | c in chunks :: c.buffer
  }

  /** What each chunk has been filled with. */
  ghost function Contents(chunks: seq<Chunk>): (r: seq<seq<byte>>)
    requires forall k :: 0 <= k < |chunks| ==> chunks[k].Valid()
    reads chunks, Buffers(chunks)
    ensures |r| == |chunks|
    ensures forall k :: 0 <= k < |chunks| ==> chunks[k].Valid() && r[k] == chunks[k].buffer[..chunks[k].offset]
  {
    seq(|chunks|, k requires 0 <= k < |chunks| && chunks[k].Valid() reads chunks, Buffers(chunks) =>
                    chunks[k].buffer[..chunks[k].offset])
  }

  /** Some of a source buffer written behind what one chunk holds; the others keep what they hold. */
  method WriteTo(chunks: seq<Chunk>, size: nat, cur: nat, src: array<byte>, copied: nat) returns (n: nat)
    requires Separate(chunks, size) && cur < |chunks|
    requires copied <= src.Length && src !in Buffers(chunks)
    modifies chunks, Buffers(chunks)
    ensures Separate(chunks, size)
    ensures n == if size - |old(Contents(chunks))[cur]| >= src.Length - copied then src.Length - copied
                 else size - |old(Contents(chunks))[cur]|
    ensures Contents(chunks) == old(Contents(chunks))[cur := old(Contents(chunks))[cur] + src[copied..copied + n]]
  {
    forall k | 0 <= k < |chunks| && k != cur
      ensures chunks[k] != chunks[cur] && chunks[k].buffer != chunks[cur].buffer
    {
      assert Apart(chunks, cur, k) && Apart(chunks, k, cur);
    }
    n := chunks[cur].Write(src, copied, src.Length - copied);
  }
}
