/** The receive ring of rdma_session: slots, batches of completions, and the coalescing read. */
module Ring {
  import opened Bytes
  import opened Modular
  import opened Verbs

  const RECV_ID: nat := 666
  const POST_LIMIT: nat := 16000

  ghost predicate IsRing(ring: seq<byte>, nums: nat, gap: nat) {
    0 < nums && 0 < gap && |ring| == Times(nums, gap)
  }

  ghost predicate Fit(lens: seq<nat>, gap: nat) {
    forall i :: 0 <= i < |lens| ==> lens[i] <= gap
  }

  lemma SlotFits(at: nat, nums: nat, gap: nat)
    requires at < nums
    ensures Times(at, gap) + gap == Times(at + 1, gap) <= Times(nums, gap)
  {
    TimesMono(at + 1, nums, gap);
  }

  /** The first n bytes of slot at. */
  ghost function Slot(ring: seq<byte>, nums: nat, gap: nat, at: nat, n: nat): (r: seq<byte>)
    requires IsRing(ring, nums, gap) && at < nums && n <= gap
    ensures |r| == n
  {
    SlotFits(at, nums, gap);
    ring[Times(at, gap)..Times(at, gap) + n]
  }

  /** The slot k places after slot at, for k up to one lap. */
  function Ahead(at: nat, k: nat, nums: nat): (r: nat)
    requires at < nums && k <= nums
    ensures r < nums
  {
    if at + k < nums then at + k else at + k - nums
  }

  lemma AheadIsMod(at: nat, k: nat, nums: nat)
    requires at < nums && k <= nums
    ensures (at + k) % nums == Ahead(at, k, nums)
  {
    ModOnce(at + k, nums);
  }

  /** Advancing twice round the ring, the second time with the remainder operator. */
  lemma AheadThenMod(at: nat, a: nat, b: nat, nums: nat, x: nat)
    requires at < nums && a + b <= nums && x == Ahead(at, a, nums) + b
    ensures x % nums == Ahead(at, a + b, nums)
  {
    ModOnce(x, nums);
  }

  function Next(at: nat, nums: nat): (r: nat)
    requires at < nums
    ensures r < nums
  {
    if at + 1 < nums then at + 1 else 0
  }

  /** The simple read: one copy per completion, slot after slot round the ring. */
  ghost function Gather(ring: seq<byte>, nums: nat, gap: nat, at: nat, lens: seq<nat>): seq<byte>
    requires IsRing(ring, nums, gap) && at < nums && Fit(lens, gap)
    decreases |lens|
  {
    if |lens| == 0 then []
    else Slot(ring, nums, gap, at, lens[0]) + Gather(ring, nums, gap, Next(at, nums), lens[1..])
  }

  lemma GatherFirst(ring: seq<byte>, nums: nat, gap: nat, at: nat, lens: seq<nat>, n: nat, rest: seq<nat>)
    requires IsRing(ring, nums, gap) && at < nums && Fit(lens, gap) && lens == [n] + rest
    ensures Fit(rest, gap) && n <= gap
    ensures Gather(ring, nums, gap, at, lens)
         == Slot(ring, nums, gap, at, n) + Gather(ring, nums, gap, Next(at, nums), rest)
  {
    assert lens[0] == n && lens[1..] == rest;
    assert forall i :: 0 <= i < |rest| ==> rest[i] == lens[i + 1];
  }

  lemma {:induction false} GatherConcat(ring: seq<byte>, nums: nat, gap: nat, at: nat, a: seq<nat>, b: seq<nat>)
    requires IsRing(ring, nums, gap) && at < nums && Fit(a, gap) && Fit(b, gap)
    requires |a| <= nums
    ensures Fit(a + b, gap)
    ensures Gather(ring, nums, gap, at, a + b)
         == Gather(ring, nums, gap, at, a) + Gather(ring, nums, gap, Ahead(at, |a|, nums), b)
    decreases |a|
  {
    if |a| == 0 {
      assert a + b == b;
    } else {
      var n, rest, next := a[0], a[1..], Next(at, nums);
      GatherFirst(ring, nums, gap, at, a, n, rest);
      GatherFirst(ring, nums, gap, at, a + b, n, rest + b);
      GatherConcat(ring, nums, gap, next, rest, b);
      assert Ahead(next, |rest|, nums) == Ahead(at, |a|, nums);
      ConcatAssoc(Slot(ring, nums, gap, at, n), Gather(ring, nums, gap, next, rest),
                  Gather(ring, nums, gap, Ahead(at, |a|, nums), b));
    }
  }

  /** full full slots and then one of n bytes. */
  ghost predicate IsRun(lens: seq<nat>, gap: nat, n: nat) {
    0 < |lens| && n <= gap && lens[|lens| - 1] == n && forall i :: 0 <= i < |lens| - 1 ==> lens[i] == gap
  }

  lemma SliceJoin(s: seq<byte>, a: nat, b: nat, c: nat)
    requires a <= b <= c <= |s|
    ensures s[a..b] + s[b..c] == s[a..c]
  {
  }

  /** A run of full slots and a last one, where it does not pass the end of the ring, is one block. */
  lemma {:induction false} StraightRun(ring: seq<byte>, nums: nat, gap: nat, at: nat, lens: seq<nat>, n: nat)
    requires IsRing(ring, nums, gap) && IsRun(lens, gap, n) && Fit(lens, gap)
    requires at + |lens| <= nums
    ensures Times(at, gap) <= Times(at + |lens| - 1, gap) + n <= |ring|
    ensures Gather(ring, nums, gap, at, lens) == ring[Times(at, gap)..Times(at + |lens| - 1, gap) + n]
    decreases |lens|
  {
    var end := at + |lens| - 1;
    SlotFits(end, nums, gap);
    TimesMono(at, end, gap);
    if |lens| == 1 {
      assert Gather(ring, nums, gap, at, lens) == Slot(ring, nums, gap, at, n) + [];
    } else {
      var rest := lens[1..];
      StraightRun(ring, nums, gap, at + 1, rest, n);
      assert at + 1 + |rest| - 1 == end;
      FullThenBlock(ring, nums, gap, at, lens, Times(end, gap) + n);
    }
  }

  /** A full slot and the block behind it are one block. */
  lemma FullThenBlock(ring: seq<byte>, nums: nat, gap: nat, at: nat, lens: seq<nat>, stop: nat)
    requires IsRing(ring, nums, gap) && at + 1 < nums && Fit(lens, gap) && |lens| > 0 && lens[0] == gap
    requires Fit(lens[1..], gap) && Times(at + 1, gap) <= stop <= |ring|
    requires Gather(ring, nums, gap, at + 1, lens[1..]) == ring[Times(at + 1, gap)..stop]
    ensures Gather(ring, nums, gap, at, lens) == ring[Times(at, gap)..stop]
  {
    SlotFits(at, nums, gap);
    SliceJoin(ring, Times(at, gap), Times(at + 1, gap), stop);
  }

  /** The same block, by its start and its length. */
  lemma StraightBlock(ring: seq<byte>, nums: nat, gap: nat, at: nat, lens: seq<nat>, n: nat, start: nat, len: nat)
    requires IsRing(ring, nums, gap) && IsRun(lens, gap, n) && Fit(lens, gap)
    requires at + |lens| <= nums
    requires start == Times(at, gap) && len == Times(|lens| - 1, gap) + n
    ensures start + len <= |ring|
    ensures Gather(ring, nums, gap, at, lens) == ring[start..start + len]
  {
    StraightRun(ring, nums, gap, at, lens, n);
    TimesAdd(at, |lens| - 1, gap);
  }

  lemma SplitRun(lens: seq<nat>, gap: nat, n: nat, k: nat)
    requires IsRun(lens, gap, n) && Fit(lens, gap) && 0 < k < |lens|
    ensures IsRun(lens[..k], gap, gap) && IsRun(lens[k..], gap, n) && Fit(lens[..k], gap) && Fit(lens[k..], gap)
    ensures lens == lens[..k] + lens[k..]
  {
  }

  /** A run that passes the end of the ring is two blocks: to the end, and then rest bytes from slot 0. */
  lemma WrappedBlocks(ring: seq<byte>, nums: nat, gap: nat, at: nat, lens: seq<nat>, n: nat, start: nat, tlen: nat, rest: nat)
    requires IsRing(ring, nums, gap) && IsRun(lens, gap, n) && Fit(lens, gap)
    requires at < nums < at + |lens| && |lens| <= nums
    requires start == Times(at, gap) && tlen == Times(nums - at, gap)
    requires rest == Times(at + |lens| - 1 - nums, gap) + n
    ensures start + tlen == |ring| && rest <= |ring|
    ensures Gather(ring, nums, gap, at, lens) == ring[start..start + tlen] + ring[0..rest]
  {
    var head, tail := lens[..nums - at], lens[nums - at..];
    SplitRun(lens, gap, n, nums - at);
    GatherConcat(ring, nums, gap, at, head, tail);
    StraightBlock(ring, nums, gap, at, head, gap, start, tlen);
    StraightBlock(ring, nums, gap, 0, tail, n, 0, rest);
    TimesAdd(at, nums - at, gap);
  }

  /** The length of such a run in two parts. */
  lemma WrappedLength(nums: nat, gap: nat, at: nat, full: nat)
    requires at < nums <= at + full
    ensures Times(full, gap) == Times(nums - at, gap) + Times(at + full - nums, gap)
  {
    TimesAdd(nums - at, at + full - nums, gap);
    assert (nums - at) + (at + full - nums) == full;
  }

  function Lengths(wcs: seq<Completion>): (r: seq<nat>)
    ensures |r| == |wcs| && forall i :: 0 <= i < |wcs| ==> r[i] == wcs[i].byteLen
  {
    seq(|wcs|, i requires 0 <= i < |wcs| => wcs[i].byteLen)
  }

  /** How many of the completions belong to posted receives. */
  function Receives(wcs: seq<Completion>): nat {
    if |wcs| == 0 then 0 else Receives(wcs[..|wcs| - 1]) + (if wcs[|wcs| - 1].id == RECV_ID then 1 else 0)
  }

  /** The places of those completions. */
  ghost function ReceivesAt(wcs: seq<Completion>): set<nat> {
    set i: nat | i < |wcs| && wcs[i].id == RECV_ID
  }

  lemma {:induction false} ReceivesCount(wcs: seq<Completion>)
    ensures Receives(wcs) == |ReceivesAt(wcs)|
    decreases |wcs|
  {
    if |wcs| > 0 {
      var last := |wcs| - 1;
      var before := ReceivesAt(wcs[..last]);
      ReceivesCount(wcs[..last]);
      assert ReceivesAt(wcs) == if wcs[last].id == RECV_ID then before + {last} else before;
    }
  }

  /** The slots named by a posting sequence of n receives, oldest first. */
  function PostedSlots(n: nat, nums: nat): (r: seq<nat>)
    requires 0 < nums
    ensures |r| == n && forall i :: 0 <= i < n ==> r[i] == i % nums
  {
    seq(n, i => i % nums)
  }

  class Session {
    const recvNums: nat
    const gap: nat
    const rbuf: array<byte>  // slot i starts at byte i * gap
    var recvIndex: nat
    var postedRecv: int
    var posted: seq<nat>     // the slots of the posted receives, in posting order

    constructor (nums: nat, slot: nat)
      requires 0 < nums && 0 < slot
      ensures Valid() && fresh(rbuf)
      ensures recvNums == nums && gap == slot && recvIndex == 0 && postedRecv == 0 && posted == []
    {
      recvNums, gap := nums, slot;
      rbuf := new byte[Times(nums, slot)](_ => 0);
      recvIndex, postedRecv, posted := 0, 0, [];
    }

    ghost predicate Valid()
      reads this, rbuf
    {
      IsRing(rbuf[..], recvNums, gap) && recvIndex < recvNums
    }

    /** post_recv: at most 16000 receives, always starting over at slot 0. failAt is the post the device rejects, if any. */
    method PostRecv(nums: int, failAt: nat) returns (r: int)
      requires Valid()
      modifies this`posted, this`postedRecv
      ensures Valid()
      ensures var n := if nums < 0 then 0 else if nums < POST_LIMIT then nums else POST_LIMIT;
              var done := if failAt < n then failAt else n;
              && posted == old(posted) + PostedSlots(done, recvNums)
              && r == (if failAt < n then 1 else 0)
              && postedRecv == old(postedRecv) + (if failAt < n then 0 else n)
    {
      var i := 0;
      while i < POST_LIMIT && i < nums
        invariant 0 <= i <= POST_LIMIT && (0 <= nums ==> i <= nums) && (nums < 0 ==> i == 0) && i <= failAt
        invariant posted == old(posted) + PostedSlots(i, recvNums)
        invariant postedRecv == old(postedRecv)
      {
        if i == failAt {
          return 1;
        }
        posted := posted + [i % recvNums];
        assert PostedSlots(i + 1, recvNums) == PostedSlots(i, recvNums) + [i % recvNums];
        i := i + 1;
      }
      postedRecv := postedRecv + i;
      r := 0;
    }

    /** door and start_remote: queries for the peer's table and steps one slot, whatever the query brought, even if it
        failed. len is the length of the first message of the batch; after a failed query it is what wc held before. */
    method StartRemote(polls: seq<Poll>, stale: nat) returns (len: nat)
      requires Valid() && Answers(polls)
      modifies this`recvIndex
      ensures len == if QueryBatch(RECV_QUEUE, polls) != [] then QueryBatch(RECV_QUEUE, polls)[0].byteLen else stale
      ensures recvIndex == old(recvIndex) + 1
    {
      var r, wcs := QueryCq(RECV_QUEUE, polls);
      len := if r > 0 then wcs[0].byteLen else stale;
      recvIndex := recvIndex + 1;
    }

    /** query: a failed query leaves the count of posted receives alone. */
    method Query(flag: int, polls: seq<Poll>) returns (r: int, wcs: seq<Completion>)
      requires flag == SEND_QUEUE || flag == RECV_QUEUE ==> Answers(polls)
      modifies this`postedRecv
      ensures wcs == QueryBatch(flag, polls) && r == (if wcs == [] then -1 else |wcs|)
      ensures postedRecv == old(postedRecv) - Receives(wcs) == old(postedRecv) - |ReceivesAt(wcs)|
    {
      r, wcs := QueryCq(flag, polls);
      ReceivesCount(wcs);
      if r > 0 {
        for i := 0 to r
          invariant postedRecv == old(postedRecv) - Receives(wcs[..i])
        {
          assert wcs[..i + 1][..i] == wcs[..i];
          if wcs[i].id == RECV_ID {
            postedRecv := postedRecv - 1;
          }
        }
        assert wcs[..r] == wcs;
      }
    }

    /** One copy out of the ring; block is what lies there. */
    method CopyBlock(dest: array<byte>, at: nat, start: nat, len: nat, ghost ring: seq<byte>, ghost block: seq<byte>)
      returns (size: nat)
      requires dest != rbuf && ring == rbuf[..] && start + len <= |ring| && block == ring[start..start + len]
      requires at + |block| <= dest.Length
      modifies dest
      ensures size == |block| && dest[..] == Splice(old(dest[..]), at, block)
    {
      Memcpy(dest, at, rbuf, start, len);
      size := len;
    }

    /** Two copies in a row: the end of the ring from start on, and n bytes from its beginning. */
    method CopyTwo(dest: array<byte>, at: nat, start: nat, tlen: nat, n: nat, ghost ring: seq<byte>, ghost block: seq<byte>)
      returns (size: nat)
      requires dest != rbuf && ring == rbuf[..] && start + tlen == |ring| && n <= |ring|
      requires block == ring[start..start + tlen] + ring[0..n] && at + |block| <= dest.Length
      modifies dest
      ensures size == |block| && dest[..] == Splice(old(dest[..]), at, block)
    {
      size := CopyBlock(dest, at, start, tlen, ring, ring[start..start + tlen]);
      var rest := CopyBlock(dest, at + size, 0, n, ring, ring[0..n]);
      size := size + rest;
      SpliceTwice(old(dest[..]), at, ring[start..start + tlen], ring[0..n]);
    }

    /** block is what a run of full slots and one of n bytes gathers from recvIndex on. */
    ghost predicate IsBlock(ring: seq<byte>, run: seq<nat>, n: nat, block: seq<byte>)
      reads this, rbuf
    {
      && Valid() && ring == rbuf[..] && |run| <= recvNums && IsRun(run, gap, n) && Fit(run, gap)
      && block == Gather(ring, recvNums, gap, recvIndex, run)
    }

    /** The copy at a short completion: full full slots from recvIndex on, then n bytes of the next one. */
    method CopyToShort(dest: array<byte>, at: nat, full: nat, n: nat, ghost ring: seq<byte>, ghost run: seq<nat>,
                       ghost block: seq<byte>)
      returns (size: nat)
      requires dest != rbuf && n < gap && |run| == full + 1 && IsBlock(ring, run, n, block)
      requires at + |block| <= dest.Length
      modifies dest
      ensures size == |block| && dest[..] == Splice(old(dest[..]), at, block)
    {
      var start := Times(recvIndex, gap);
      var len := Times(full, gap) + n;
      if recvIndex + full < recvNums {
        StraightBlock(ring, recvNums, gap, recvIndex, run, n, start, len);
        size := CopyBlock(dest, at, start, len, ring, block);
      } else {
        var tlen := Times(recvNums - recvIndex, gap);
        WrappedLength(recvNums, gap, recvIndex, full);
        WrappedBlocks(ring, recvNums, gap, recvIndex, run, n, start, tlen, len - tlen);
        size := CopyTwo(dest, at, start, tlen, len - tlen, ring, block);
      }
    }

    /** The copy after the loop: the full slots still pending. */
    method CopyTrailing(dest: array<byte>, at: nat, full: nat, ghost ring: seq<byte>, ghost run: seq<nat>,
                        ghost block: seq<byte>)
      returns (size: nat)
      requires dest != rbuf && |run| == full && IsBlock(ring, run, gap, block)
      requires at + |block| <= dest.Length
      modifies dest
      ensures size == |block| && dest[..] == Splice(old(dest[..]), at, block)
    {
      var start := Times(recvIndex, gap);
      if recvIndex + full < recvNums {
        var len := Times(full, gap);
        StraightBlock(ring, recvNums, gap, recvIndex, run, gap, start, len);
        size := CopyBlock(dest, at, start, len, ring, block);
      } else {
        var front := (full + recvIndex) % recvNums;
        ModOnce(full + recvIndex, recvNums);
        size := CopyLap(dest, at, full, front, ring, run, block);
      }
    }

    /** The pending full slots where they reach the end of the ring: front of them are past it. */
    method CopyLap(dest: array<byte>, at: nat, full: nat, front: nat, ghost ring: seq<byte>, ghost run: seq<nat>,
                   ghost block: seq<byte>)
      returns (size: nat)
      requires dest != rbuf && |run| == full && recvIndex + full == recvNums + front && IsBlock(ring, run, gap, block)
      requires at + |block| <= dest.Length
      modifies dest
      ensures size == |block| && dest[..] == Splice(old(dest[..]), at, block)
    {
      var start := Times(recvIndex, gap);
      var len := Times(recvNums - recvIndex, gap);
      if front != 0 {
        WrappedBlocks(ring, recvNums, gap, recvIndex, run, gap, start, len, Times(front, gap));
        size := CopyTwo(dest, at, start, len, Times(front, gap), ring, block);
      } else {
        StraightBlock(ring, recvNums, gap, recvIndex, run, gap, start, len);
        size := CopyBlock(dest, at, start, len, ring, block);
      }
    }

    /** The short branch of the loop: copies the pending run. */
    method FinishRun(dest: array<byte>, at: nat, size: nat, full: nat, i: nat, n: nat,
                     ghost ring: seq<byte>, ghost lens: seq<nat>, ghost first: nat, ghost before: seq<byte>)
      returns (size': nat)
      requires Valid() && dest != rbuf && ring == rbuf[..]
      requires full <= i < |lens| <= recvNums && Fit(lens, gap) && lens[i] == n < gap
      requires forall j :: i - full <= j < i ==> lens[j] == gap
      requires first < recvNums && recvIndex == Ahead(first, i - full, recvNums)
      requires at + |Gather(ring, recvNums, gap, first, lens)| <= |before|
      requires Copied(ring, recvNums, gap, first, lens, i - full, before, at, dest[..], size)
      modifies dest
      ensures Copied(ring, recvNums, gap, first, lens, i + 1, before, at, dest[..], size')
    {
      ghost var run, block := NextRun(ring, recvNums, gap, first, lens, i - full, i + 1, before, at, dest[..], size);
      RunShape(lens, gap, n, i - full, i + 1);
      var copied := CopyToShort(dest, at + size, full, n, ring, run, block);
      size' := size + copied;
      Extend(ring, recvNums, gap, first, lens, i - full, i + 1, before, at, old(dest[..]), size, block);
    }

    /** The full slots that were pending when the loop ended. */
    method FinishFull(dest: array<byte>, at: nat, size: nat, full: nat,
                      ghost ring: seq<byte>, ghost lens: seq<nat>, ghost first: nat, ghost before: seq<byte>)
      returns (size': nat)
      requires Valid() && dest != rbuf && ring == rbuf[..]
      requires 0 < full <= |lens| <= recvNums && Fit(lens, gap)
      requires forall j :: |lens| - full <= j < |lens| ==> lens[j] == gap
      requires first < recvNums && recvIndex == Ahead(first, |lens| - full, recvNums)
      requires at + |Gather(ring, recvNums, gap, first, lens)| <= |before|
      requires Copied(ring, recvNums, gap, first, lens, |lens| - full, before, at, dest[..], size)
      modifies dest
      ensures Copied(ring, recvNums, gap, first, lens, |lens|, before, at, dest[..], size')
    {
      ghost var i := |lens| - full;
      ghost var run, block := NextRun(ring, recvNums, gap, first, lens, i, |lens|, before, at, dest[..], size);
      RunShape(lens, gap, gap, i, |lens|);
      var copied := CopyTrailing(dest, at + size, full, ring, run, block);
      size' := size + copied;
      Extend(ring, recvNums, gap, first, lens, i, |lens|, before, at, old(dest[..]), size, block);
    }

    /** The loop of read: copies up to the last short completion and counts the full ones after it. */
    method CopyRuns(dest: array<byte>, at: nat, done: int, wcs: seq<Completion>,
                    ghost ring: seq<byte>, ghost lens: seq<nat>, ghost before: seq<byte>)
      returns (size: nat, full: nat)
      requires Valid() && dest != rbuf && ring == rbuf[..] && before == dest[..]
      requires done == |wcs| || (done == -1 && wcs == [])
      requires |wcs| <= recvNums && lens == Lengths(wcs) && Fit(lens, gap)
      requires at + |Gather(ring, recvNums, gap, recvIndex, lens)| <= dest.Length
      modifies dest, this`recvIndex
      ensures full <= |wcs| && forall j :: |wcs| - full <= j < |wcs| ==> lens[j] == gap
      ensures recvIndex == Ahead(old(recvIndex), |wcs| - full, recvNums)
      ensures Copied(ring, recvNums, gap, old(recvIndex), lens, |wcs| - full, before, at, dest[..], size)
    {
      ghost var first := recvIndex;
      size, full := 0, 0;
      var i := 0;
      while i < done
        invariant 0 <= i <= |wcs| && full <= i
        invariant recvIndex == Ahead(first, i - full, recvNums) && rbuf[..] == ring
        invariant forall j :: i - full <= j < i ==> lens[j] == gap
        invariant Copied(ring, recvNums, gap, first, lens, i - full, before, at, dest[..], size)
      {
        if wcs[i].byteLen < gap {
          size := FinishRun(dest, at, size, full, i, wcs[i].byteLen, ring, lens, first, before);
          AheadThenMod(first, i - full, full + 1, recvNums, recvIndex + full + 1);
          recvIndex := (recvIndex + full + 1) % recvNums;
          full := 0;
        } else {
          full := full + 1;
        }
        i := i + 1;
      }
    }

    /** read, after its query: wcs is the batch of done completions (done is -1 when the query failed). */
    method ReadBatch(dest: array<byte>, at: nat, done: int, wcs: seq<Completion>) returns (size: nat)
      requires Valid() && dest != rbuf
      requires done == |wcs| || (done == -1 && wcs == [])
      requires |wcs| <= recvNums && Fit(Lengths(wcs), gap)
      requires at + |Gather(rbuf[..], recvNums, gap, recvIndex, Lengths(wcs))| <= dest.Length
      modifies dest, this`recvIndex
      ensures Valid() && rbuf[..] == old(rbuf[..])
      ensures size == |Gather(old(rbuf[..]), recvNums, gap, old(recvIndex), Lengths(wcs))|
      ensures dest[..] == Splice(old(dest[..]), at, Gather(old(rbuf[..]), recvNums, gap, old(recvIndex), Lengths(wcs)))
      ensures recvIndex == (old(recvIndex) + |wcs|) % recvNums
    {
      ghost var ring, lens, before, first := rbuf[..], Lengths(wcs), dest[..], recvIndex;
      var full;
      size, full := CopyRuns(dest, at, done, wcs, ring, lens, before);
      if full != 0 {
        size := FinishFull(dest, at, size, full, ring, lens, first, before);
      }
      CopiedAll(ring, recvNums, gap, first, lens, before, at, dest[..], size);
      AheadThenMod(first, |wcs| - full, full, recvNums, recvIndex + full);
      AheadIsMod(first, |wcs|, recvNums);
      recvIndex := (recvIndex + full) % recvNums;
    }

    /** read: a query of at most recvNums completions, and the copy of what they brought. The source queries with flag 3. */
    method Read(flag: int, polls: seq<Poll>, dest: array<byte>, at: nat) returns (size: nat)
      requires Valid() && dest != rbuf
      requires flag == SEND_QUEUE || flag == RECV_QUEUE ==> Answers(polls)
      requires forall p :: p in polls && p.Polled? ==> |p.wcs| <= recvNums && Fit(Lengths(p.wcs), gap)
      requires var lens := Lengths(QueryBatch(flag, polls));
               Fit(lens, gap) && at + |Gather(rbuf[..], recvNums, gap, recvIndex, lens)| <= dest.Length
      modifies dest, this`recvIndex, this`postedRecv
      ensures Valid() && rbuf[..] == old(rbuf[..])
      ensures var lens := Lengths(QueryBatch(flag, polls));
              && size == |Gather(old(rbuf[..]), recvNums, gap, old(recvIndex), lens)|
              && dest[..] == Splice(old(dest[..]), at, Gather(old(rbuf[..]), recvNums, gap, old(recvIndex), lens))
              && recvIndex == (old(recvIndex) + |lens|) % recvNums
      ensures postedRecv == old(postedRecv) - Receives(QueryBatch(flag, polls))
      ensures flag != SEND_QUEUE && flag != RECV_QUEUE ==> size == 0 && dest[..] == old(dest[..])
    {
      var done, wcs := Query(flag, polls);
      size := ReadBatch(dest, at, done, wcs);
    }
  }

  /** dest is before with the payload of the first i completions written at at; size is how much that is. */
  ghost predicate Copied(ring: seq<byte>, nums: nat, gap: nat, first: nat, lens: seq<nat>, i: nat,
                         before: seq<byte>, at: nat, dest: seq<byte>, size: nat)
    requires IsRing(ring, nums, gap) && first < nums && Fit(lens, gap) && i <= |lens|
  {
    && size == |Gather(ring, nums, gap, first, lens[..i])|
    && at + size <= |before|
    && dest == Splice(before, at, Gather(ring, nums, gap, first, lens[..i]))
  }

  lemma RunShape(lens: seq<nat>, gap: nat, n: nat, i: nat, j: nat)
    requires i < j <= |lens| && lens[j - 1] == n <= gap
    requires forall k :: i <= k < j - 1 ==> lens[k] == gap
    ensures |lens[i..j]| == j - i && IsRun(lens[i..j], gap, n) && Fit(lens[i..j], gap)
  {
  }

  lemma CopiedAll(ring: seq<byte>, nums: nat, gap: nat, first: nat, lens: seq<nat>,
                  before: seq<byte>, at: nat, dest: seq<byte>, size: nat)
    requires IsRing(ring, nums, gap) && first < nums && Fit(lens, gap)
    requires Copied(ring, nums, gap, first, lens, |lens|, before, at, dest, size)
    ensures size == |Gather(ring, nums, gap, first, lens)| && at + size <= |before|
    ensures dest == Splice(before, at, Gather(ring, nums, gap, first, lens))
  {
    assert lens[..|lens|] == lens;
  }

  /** The run of completions i to j, and what it gathers, still fits behind what was copied for the first i. */
  lemma NextRun(ring: seq<byte>, nums: nat, gap: nat, first: nat, lens: seq<nat>, i: nat, j: nat,
                before: seq<byte>, at: nat, dest: seq<byte>, size: nat)
    returns (run: seq<nat>, block: seq<byte>)
    requires IsRing(ring, nums, gap) && first < nums && Fit(lens, gap)
    requires i <= j <= |lens| <= nums
    requires at + |Gather(ring, nums, gap, first, lens)| <= |before|
    requires Copied(ring, nums, gap, first, lens, i, before, at, dest, size)
    ensures run == lens[i..j] && Fit(run, gap) && block == Gather(ring, nums, gap, Ahead(first, i, nums), run)
    ensures Gather(ring, nums, gap, first, lens[..j]) == Gather(ring, nums, gap, first, lens[..i]) + block
    ensures |dest| == |before| && at + size + |block| <= |dest|
  {
    run := lens[i..j];
    block := Gather(ring, nums, gap, Ahead(first, i, nums), run);
    GatherConcat(ring, nums, gap, first, lens[..i], run);
    assert lens[..i] + run == lens[..j];
    GatherConcat(ring, nums, gap, first, lens[..j], lens[j..]);
    assert lens[..j] + lens[j..] == lens;
  }

  /** Writing that behind it copies the first j completions. */
  lemma Extend(ring: seq<byte>, nums: nat, gap: nat, first: nat, lens: seq<nat>, i: nat, j: nat,
               before: seq<byte>, at: nat, dest: seq<byte>, size: nat, block: seq<byte>)
    requires IsRing(ring, nums, gap) && first < nums && Fit(lens, gap) && i <= j <= |lens|
    requires Copied(ring, nums, gap, first, lens, i, before, at, dest, size)
    requires Gather(ring, nums, gap, first, lens[..j]) == Gather(ring, nums, gap, first, lens[..i]) + block
    requires at + size + |block| <= |dest|
    ensures Copied(ring, nums, gap, first, lens, j, before, at, Splice(dest, at + size, block), size + |block|)
  {
    SpliceTwice(before, at, Gather(ring, nums, gap, first, lens[..i]), block);
  }
}
