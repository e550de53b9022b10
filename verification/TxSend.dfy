/** The sends and the returns of real chunks are steps of the ownership model, under any numbering of the chunks. */
module TxSend {
  import opened Bytes
  import opened Modular
  import opened Chunks
  import Packing
  import P = TxPool
  import N = Notify

  ghost function Ids(id: Chunk -> nat, chunks: seq<Chunk>): (r: seq<nat>)
    ensures |r| == |chunks| && forall i :: 0 <= i < |chunks| ==> r[i] == id(chunks[i])
  {
    seq(|chunks|, i requires 0 <= i < |chunks| => id(chunks[i]))
  }

  /** Different chunks have different numbers. */
  ghost predicate Numbers(id: Chunk -> nat, chunks: seq<Chunk>) {
    forall i, j :: 0 <= i < j < |chunks| && chunks[i] != chunks[j] ==> id(chunks[i]) != id(chunks[j])
  }

  /** The free list of the cluster that sends take from is the model's. */
  ghost predicate At(cluster: Cluster, id: Chunk -> nat, s: P.State)
    reads cluster
  {
    cluster.chunkSize == s.chunkSize && Ids(id, cluster.freeChunks) == s.channel
  }

  /** A pool of chunks that share nothing is where a run of the model can start: no chunk is in it twice. */
  lemma PoolHasNoRepeats(id: Chunk -> nat, pool: seq<Chunk>, size: nat)
    requires Separate(pool, size) && Numbers(id, pool)
    ensures P.NoRepeats(Ids(id, pool))
  {
    forall i, j | 0 <= i < j < |pool|
      ensures Ids(id, pool)[i] != Ids(id, pool)[j]
    {
      assert Apart(pool, i, j);
    }
  }

  /** The chunks a send takes, and those it leaves, by number. */
  lemma TakenIds(id: Chunk -> nat, free: seq<Chunk>, s: P.State, bytes: nat)
    requires 0 < s.chunkSize && Ids(id, free) == s.channel && |free| > 0
    requires Pieces(bytes, s.chunkSize) <= |free|
    ensures P.Taken(s, bytes) == Ids(id, Packing.TakenFor(free, s.chunkSize, bytes)) && |P.Taken(s, bytes)| > 0
    ensures bytes > 0 ==>
              Ids(id, Packing.LeftBy(free, s.chunkSize, bytes)) == s.channel[..|s.channel| - |P.Taken(s, bytes)|]
  {
    EnoughPieces(bytes, s.chunkSize);
  }

  /** send takes the step of a send. The device accepts the first so many of the work requests, and the post fails unless
      that is all of them. */
  method RunSend(cluster: Cluster, bl: seq<array<byte>>, ghost parts: seq<seq<byte>>, posted: bool,
                 ghost accepted: nat, ghost id: Chunk -> nat, ghost s: P.State)
    returns (r: int, bl': seq<array<byte>>, tx: seq<Chunk>, ghost s': P.State)
    requires At(cluster, id, s)
    requires Packing.Ready(cluster.freeChunks, cluster.chunkSize, bl) && Packing.Parts(bl, parts)
    requires cluster.freeChunks != [] && Pieces(|Flatten(parts)|, cluster.chunkSize) <= |cluster.freeChunks|
    requires accepted <= |Packing.TakenFor(cluster.freeChunks, cluster.chunkSize, |Flatten(parts)|)|
    requires posted <==> accepted == |Packing.TakenFor(cluster.freeChunks, cluster.chunkSize, |Flatten(parts)|)|
    modifies cluster, cluster.freeChunks, Buffers(cluster.freeChunks)
    ensures P.Enabled(s, P.Send(|Flatten(parts)|, accepted)) && s' == P.Step(s, P.Send(|Flatten(parts)|, accepted))
    ensures At(cluster, id, s')
    ensures accepted <= |tx| && s'.inflight == s.inflight + Ids(id, tx)[..accepted]
    ensures r == if posted then |Flatten(parts)| else -1
  {
    ghost var bytes := |Flatten(parts)|;
    TakenIds(id, cluster.freeChunks, s, bytes);
    assert P.Enabled(s, P.Send(bytes, accepted));
    s' := P.Step(s, P.Send(bytes, accepted));
    var wrs;
    r, bl', wrs, tx := Packing.Send(cluster, bl, parts, posted);
  }

  /** The handler's return of a polled chunk takes the handler's step. sendFree is the list chunks are returned to. */
  method RunReturn(sendFree: Cluster, ck: Chunk, ghost id: Chunk -> nat, ghost s: P.State) returns (ghost s': P.State)
    requires Ids(id, sendFree.freeChunks) == s.n.done
    requires s.n.phase.Drain? && |s.n.batch| > 0 && s.n.batch[0] == N.Wc(id(ck), true)
    modifies sendFree
    ensures s' == P.Step(s, P.Handler(N.Handle)) && Ids(id, sendFree.freeChunks) == s'.n.done
  {
    s' := P.Step(s, P.Handler(N.Handle));
    sendFree.TakeBack(ck);
  }
}
