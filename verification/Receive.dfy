/** The socket's read: buffered chunks first, then everything the completion queue yields before it is empty twice. */
module Receive {
  import opened Bytes
  import opened Chunks

  // What read_buffers does, on values.

  /** A chunk as read_buffers sees it: its whole buffer and its offset. */
  datatype AnyHeld = Held(data: seq<byte>, offset: nat)

  type Held = h: AnyHeld | h.offset <= |h.data| witness Held([], 0)

  /** What is behind the offsets, up to the capacity of each chunk. */
  ghost function Tails(hs: seq<Held>): seq<byte> {
    if |hs| == 0 then [] else hs[0].data[hs[0].offset..] + Tails(hs[1..])
  }

  ghost function Left(h: Held): nat {
    |h.data| - h.offset
  }

  /** The chunks after read_buffers was asked for len bytes: those read past their end are wound back to offset 0. */
  ghost function Drained(hs: seq<Held>, len: nat): (r: seq<Held>)
    ensures |r| == |hs|
  {
    if |hs| == 0 then []
    else if len <= Left(hs[0]) then [hs[0].(offset := hs[0].offset + len)] + hs[1..]
    else [hs[0].(offset := 0)] + Drained(hs[1..], len - Left(hs[0]))
  }

  /** What is behind the offsets after a call, by what it did to the first chunk. */
  lemma TailsOfDrained(hs: seq<Held>, len: nat)
    requires |hs| > 0
    ensures len <= Left(hs[0]) ==> Tails(Drained(hs, len)) == hs[0].data[hs[0].offset..][len..] + Tails(hs[1..])
    ensures len > Left(hs[0]) ==> Tails(Drained(hs, len)) == hs[0].data + Tails(Drained(hs[1..], len - Left(hs[0])))
  {
    var d := Drained(hs, len);
    if len <= Left(hs[0]) {
      assert d[1..] == hs[1..];
      assert hs[0].data[hs[0].offset..][len..] == d[0].data[d[0].offset..];
    } else {
      assert d[1..] == Drained(hs[1..], len - Left(hs[0]));
      assert d[0].data[d[0].offset..] == hs[0].data;
    }
  }

  /** What follows the bytes a call returned is what the chunks hold afterwards, exactly when the call did not read
      past the end of the first chunk. */
  lemma {:induction false} NextCallContinuesIff(hs: seq<Held>, len: nat)
    requires forall i :: 0 <= i < |hs| ==> |hs[i].data| > 0
    ensures Tails(Drained(hs, len)) == Tails(hs)[Least(len, |Tails(hs)|)..] <==> |hs| == 0 || len <= Left(hs[0])
  {
    if |hs| > 0 {
      if len > Left(hs[0]) {
        ReadPast(hs, len);
      } else {
        ReadInside(hs, len);
      }
    }
  }

  lemma ReadInside(hs: seq<Held>, len: nat)
    requires |hs| > 0 && len <= Left(hs[0])
    ensures len <= |Tails(hs)| && Tails(Drained(hs, len)) == Tails(hs)[len..]
  {
    TailsOfDrained(hs, len);
    var head, tail := hs[0].data[hs[0].offset..], Tails(hs[1..]);
    assert Tails(hs) == head + tail && (head + tail)[len..] == head[len..] + tail;
  }

  lemma ReadPast(hs: seq<Held>, len: nat)
    requires |hs| > 0 && len > Left(hs[0]) && |hs[0].data| > 0
    ensures |Tails(Drained(hs, len))| > |Tails(hs)| - Least(len, |Tails(hs)|)
  {
    TailsOfDrained(hs, len);
    DrainedKeeps(hs[1..], len - Left(hs[0]));
  }

  /** Winding back only adds to what is behind the offsets. */
  lemma {:induction false} DrainedKeeps(hs: seq<Held>, len: nat)
    ensures |Tails(Drained(hs, len))| >= |Tails(hs)| - Least(len, |Tails(hs)|)
    decreases |hs|
  {
    if |hs| > 0 {
      TailsOfDrained(hs, len);
      if len > Left(hs[0]) {
        DrainedKeeps(hs[1..], len - Left(hs[0]));
      }
    }
  }

  // Completions.

  datatype RxWc = RxWc(chunk: Chunk, byteLen: nat, ok: bool)

  datatype RxPoll = PollError | Got(wcs: seq<RxWc>)

  /** The completions one call takes: polls until one is empty, requests notification, polls until one is empty again.
      A failed poll answers -1 and is repeated; past the given answers the queue stays empty. */
  function Yielded(polls: seq<RxPoll>, rearmed: bool): seq<RxWc> {
    if |polls| == 0 then []
    else if polls[0].PollError? then Yielded(polls[1..], rearmed)
    else if polls[0].wcs != [] then polls[0].wcs + Yielded(polls[1..], rearmed)
    else if rearmed then []
    else Yielded(polls[1..], true)
  }

  /** The completions of all polls, in order. */
  ghost function Batches(polls: seq<RxPoll>): seq<RxWc> {
    if |polls| == 0 then [] else (if polls[0].Got? then polls[0].wcs else []) + Batches(polls[1..])
  }

  /** Each poll fails or brings something. */
  ghost predicate Busy(polls: seq<RxPoll>) {
    forall i :: 0 <= i < |polls| ==> polls[i].PollError? || |polls[i].wcs| > 0
  }

  ghost predicate IsEmpty(p: RxPoll) {
    p.Got? && |p.wcs| == 0
  }

  /** w are the completions up to the second empty poll: those of the polls a before the first one and b between the two,
      and none of what the polls behind would bring. Where the given polls run out first, they are all there are. */
  ghost predicate UpToSecondEmpty(polls: seq<RxPoll>, w: seq<RxWc>) {
    && (Busy(polls) ==> w == Batches(polls))
    && (forall i: nat :: i < |polls| && IsEmpty(polls[i]) && Busy(polls[..i]) ==> UpToNext(polls, i, w))
  }

  /** The same behind the first empty poll, poll i. */
  ghost predicate UpToNext(polls: seq<RxPoll>, i: nat, w: seq<RxWc>)
    requires i < |polls|
  {
    && (Busy(polls[i + 1..]) ==> w == Batches(polls[..i]) + Batches(polls[i + 1..]))
    && (forall k: nat :: i < k < |polls| && IsEmpty(polls[k]) && Busy(polls[i + 1..k]) ==>
          w == Batches(polls[..i]) + Batches(polls[i + 1..k]))
  }

  /** Polls that fail or bring something are taken whole, before and after the rearm. */
  lemma {:induction false} YieldedBusy(polls: seq<RxPoll>, rearmed: bool, i: nat)
    requires i <= |polls| && Busy(polls[..i])
    ensures Yielded(polls, rearmed) == Batches(polls[..i]) + Yielded(polls[i..], rearmed)
    decreases i
  {
    if i == 0 {
      assert polls[0..] == polls;
    } else {
      assert polls[0] == polls[..i][0];
      assert polls[..i][1..] == polls[1..][..i - 1] && polls[1..][i - 1..] == polls[i..];
      var rest := polls[1..][..i - 1];
      forall j | 0 <= j < |rest|
        ensures rest[j].PollError? || |rest[j].wcs| > 0
      {
        assert rest[j] == polls[..i][j + 1];
      }
      YieldedBusy(polls[1..], rearmed, i - 1);
    }
  }

  lemma YieldedAll(polls: seq<RxPoll>, rearmed: bool)
    requires Busy(polls)
    ensures Yielded(polls, rearmed) == Batches(polls)
  {
    assert polls[..|polls|] == polls;
    YieldedBusy(polls, rearmed, |polls|);
  }

  /** Up to the next empty poll, at which the first drain goes over to the second and the second ends. */
  lemma YieldedToEmpty(polls: seq<RxPoll>, rearmed: bool, i: nat)
    requires i < |polls| && IsEmpty(polls[i]) && Busy(polls[..i])
    ensures Yielded(polls, rearmed) == Batches(polls[..i]) + if rearmed then [] else Yielded(polls[i + 1..], true)
  {
    YieldedBusy(polls, rearmed, i);
    assert polls[i..][0] == polls[i] && polls[i..][1..] == polls[i + 1..];
  }

  lemma YieldedNext(polls: seq<RxPoll>, i: nat)
    requires i < |polls| && IsEmpty(polls[i]) && Busy(polls[..i])
    ensures UpToNext(polls, i, Yielded(polls, false))
  {
    var later := polls[i + 1..];
    YieldedToEmpty(polls, false, i);
    if Busy(later) {
      YieldedAll(later, true);
    }
    forall k: nat | i < k < |polls| && IsEmpty(polls[k]) && Busy(polls[i + 1..k])
      ensures Yielded(polls, false) == Batches(polls[..i]) + Batches(polls[i + 1..k])
    {
      assert later[..k - i - 1] == polls[i + 1..k] && later[k - i - 1] == polls[k];
      YieldedToEmpty(later, true, k - i - 1);
    }
  }

  lemma YieldedIs(polls: seq<RxPoll>)
    ensures UpToSecondEmpty(polls, Yielded(polls, false))
  {
    if Busy(polls) {
      YieldedAll(polls, false);
    }
    forall i: nat | i < |polls| && IsEmpty(polls[i]) && Busy(polls[..i])
      ensures UpToNext(polls, i, Yielded(polls, false))
    {
      YieldedNext(polls, i);
    }
  }

  ghost function ChunkSet(w: seq<RxWc>): set<Chunk> {
    set wc | wc in w :: wc.chunk
  }

  function ChunksOf(w: seq<RxWc>): (r: seq<Chunk>)
    ensures |r| == |w| && forall i :: 0 <= i < |w| ==> r[i] == w[i].chunk
  {
    seq(|w|, i requires 0 <= i < |w| => w[i].chunk)
  }

  ghost predicate ChunksApart(w: seq<RxWc>, i: nat, j: nat) {
    i < j < |w| ==> w[i].chunk != w[j].chunk
  }

  /** No chunk completes twice. */
  ghost predicate Distinct(w: seq<RxWc>) {
    forall i, j :: ChunksApart(w, i, j)
  }

  lemma OthersDiffer(w: seq<RxWc>, s: nat)
    requires Distinct(w) && s < |w|
    ensures forall k :: 0 <= k < |w| && k != s ==> w[k].chunk != w[s].chunk
  {
    forall k | 0 <= k < |w| && k != s
      ensures w[k].chunk != w[s].chunk
    {
      assert ChunksApart(w, k, s) && ChunksApart(w, s, k);
    }
  }

  /** The payload of each completion. */
  ghost predicate Pays(w: seq<RxWc>, pay: seq<seq<byte>>, buf: array<byte>)
    reads ChunkSet(w), set wc | wc in w :: wc.chunk.buffer
  {
    && |pay| == |w|
    && forall i :: 0 <= i < |w| ==>
         && w[i].chunk.Valid() && w[i].byteLen <= w[i].chunk.bytes && w[i].chunk.buffer != buf
         && pay[i] == w[i].chunk.buffer[..w[i].byteLen]
  }

  /** Offsets after s completions, of which those from j on were kept: the first kept one is read up to cut. */
  ghost predicate Offsets(w: seq<RxWc>, s: nat, j: nat, cut: nat)
    reads ChunkSet(w)
  {
    && j <= s <= |w|
    && (j < s ==> w[j].chunk.offset == cut <= w[j].byteLen)
    && forall k :: j < k < |w| || s <= k < |w| ==> w[k].chunk.offset == 0
  }

  /** read bytes were asked for in all, n0 of them found in the buffers; s completions seen and those from j on kept. */
  ghost predicate Split(pay: seq<seq<byte>>, s: nat, j: nat, cut: nat, n0: nat, read: nat, len: nat,
                        orig: seq<byte>, now: seq<byte>)
  {
    && j <= s <= |pay| && n0 <= read <= len <= |orig|
    && (if j == s then read == n0 + |Flatten(pay[..s])|
        else read == len == n0 + |Flatten(pay[..j])| + cut && cut <= |pay[j]|)
    && read - n0 <= |Flatten(pay[..s])|
    && now == Splice(orig, n0, Flatten(pay[..s])[..read - n0])
  }

  /** While everything was copied, one more completion adds its first n bytes. */
  lemma PutMore(pay: seq<seq<byte>>, s: nat, n0: nat, n: nat, orig: seq<byte>, now: seq<byte>)
    requires s < |pay| && n <= |pay[s]| && n0 + |Flatten(pay[..s])| + n <= |orig|
    requires now == Splice(orig, n0, Flatten(pay[..s]))
    ensures Flatten(pay[..s + 1]) == Flatten(pay[..s]) + pay[s]
    ensures Splice(now, n0 + |Flatten(pay[..s])|, pay[s][..n])
         == Splice(orig, n0, Flatten(pay[..s + 1])[..|Flatten(pay[..s])| + n])
  {
    FlattenUpTo(pay, s);
    var done := Flatten(pay[..s]);
    SpliceTwice(orig, n0, done, pay[s][..n]);
    assert Flatten(pay[..s + 1])[..|done| + n] == done + pay[s][..n];
  }

  lemma SplitWhole(pay: seq<seq<byte>>, s: nat, cut: nat, n0: nat, read: nat, len: nat,
                   orig: seq<byte>, now: seq<byte>, n: nat, now': seq<byte>)
    requires Split(pay, s, s, cut, n0, read, len, orig, now) && s < |pay|
    requires n == Least(len - read, |pay[s]|) && now' == Splice(now, read, pay[s][..n])
    ensures read + |pay[s]| < len ==> Split(pay, s + 1, s + 1, n, n0, read + n, len, orig, now')
    ensures read + |pay[s]| >= len ==> Split(pay, s + 1, s, n, n0, read + n, len, orig, now')
  {
    var done := Flatten(pay[..s]);
    assert done[..read - n0] == done;
    PutMore(pay, s, n0, n, orig, now);
  }

  lemma SplitPast(pay: seq<seq<byte>>, s: nat, j: nat, cut: nat, n0: nat, len: nat, orig: seq<byte>, now: seq<byte>)
    requires Split(pay, s, j, cut, n0, len, len, orig, now) && j < s < |pay|
    ensures Split(pay, s + 1, j, cut, n0, len, len, orig, Splice(now, len, []))
  {
    FlattenUpTo(pay, s);
    assert Flatten(pay[..s + 1])[..len - n0] == Flatten(pay[..s])[..len - n0];
    assert Splice(now, len, []) == now;
  }

  /** One more completion, with its first n bytes copied: the whole of it while there is room. */
  lemma SplitNext(pay: seq<seq<byte>>, s: nat, j: nat, cut: nat, n0: nat, read: nat, len: nat,
                  orig: seq<byte>, now: seq<byte>, n: nat, now': seq<byte>, j': nat, cut': nat)
    requires Split(pay, s, j, cut, n0, read, len, orig, now) && s < |pay|
    requires n == Least(len - read, |pay[s]|) && now' == Splice(now, read, pay[s][..n])
    requires j' == (if read + |pay[s]| >= len then j else s + 1) && cut' == (if j == s then n else cut)
    ensures Split(pay, s + 1, j', cut', n0, read + n, len, orig, now')
  {
    if j == s {
      SplitWhole(pay, s, cut, n0, read, len, orig, now, n, now');
    } else {
      assert n == 0 && pay[s][..0] == [];
      SplitPast(pay, s, j, cut, n0, len, orig, now);
    }
  }

  ghost predicate Within(w: seq<RxWc>)
    reads ChunkSet(w)
  {
    forall i :: 0 <= i < |w| ==> w[i].chunk.offset <= w[i].byteLen <= w[i].chunk.buffer.Length
  }

  /** The bytes behind the offsets of the kept completions, up to what arrived in each. */
  ghost function Behind(w: seq<RxWc>): seq<byte>
    requires Within(w)
    reads ChunkSet(w), set wc | wc in w :: wc.chunk.buffer
  {
    if |w| == 0 then []
    else w[0].chunk.buffer[w[0].chunk.offset..w[0].byteLen] + Behind(w[1..])
  }

  lemma {:induction false} BehindFresh(w: seq<RxWc>, pay: seq<seq<byte>>, buf: array<byte>)
    requires Pays(w, pay, buf) && forall i :: 0 <= i < |w| ==> w[i].chunk.offset == 0
    ensures Behind(w) == Flatten(pay)
  {
    if |w| > 0 {
      assert Pays(w[1..], pay[1..], buf);
      BehindFresh(w[1..], pay[1..], buf);
    }
  }

  lemma BehindKept(w: seq<RxWc>, pay: seq<seq<byte>>, buf: array<byte>, j: nat, cut: nat)
    requires Pays(w, pay, buf) && Offsets(w, |w|, j, cut) && j < |w|
    ensures Within(w[j..]) && cut <= |pay[j]|
    ensures Behind(w[j..]) == pay[j][cut..] + Flatten(pay[j + 1..])
  {
    var tail := w[j + 1..];
    assert Pays(tail, pay[j + 1..], buf);
    BehindFresh(tail, pay[j + 1..], buf);
    assert w[j..][1..] == tail;
  }

  lemma SuffixAt(a: seq<byte>, p: seq<byte>, b: seq<byte>, cut: nat)
    requires cut <= |p|
    ensures (a + (p + b))[|a| + cut..] == p[cut..] + b
  {
  }

  /** What is kept is exactly what was not read. */
  lemma BehindIsRest(w: seq<RxWc>, pay: seq<seq<byte>>, buf: array<byte>, j: nat, cut: nat, at: nat)
    requires Pays(w, pay, buf) && Offsets(w, |w|, j, cut)
    requires at == |Flatten(pay[..j])| + (if j < |w| then cut else 0)
    ensures at <= |Flatten(pay)|
    ensures Within(w[j..])
    ensures Behind(w[j..]) == Flatten(pay)[at..]
  {
    assert pay == pay[..j] + pay[j..];
    FlattenConcat(pay[..j], pay[j..]);
    if j < |w| {
      BehindKept(w, pay, buf, j, cut);
      assert pay[j..][1..] == pay[j + 1..];
      SuffixAt(Flatten(pay[..j]), pay[j], Flatten(pay[j + 1..]), cut);
    }
  }

  /** i chunks are drained: they are as they will be at the end, and the others as they were. */
  ghost predicate DrainedTo(h: seq<Held>, len: nat, now: seq<Held>, i: nat, read: nat)
  {
    && i <= |h| == |now| && read <= len
    && (forall k :: 0 <= k < i ==> now[k] == Drained(h, len)[k])
    && (forall k :: i <= k < |h| ==> now[k] == h[k])
    && Drained(h, len)[i..] == Drained(h[i..], len - read)
  }

  /** The chunks before i held read bytes behind their offsets; the others hold the rest. */
  ghost predicate TailsTo(h: seq<Held>, i: nat, read: nat)
  {
    i <= |h| && read + |Tails(h[i..])| == |Tails(h)| && Tails(h)[read..] == Tails(h[i..])
  }

  lemma TailsFrom(h: seq<Held>, i: nat)
    requires i < |h|
    ensures Tails(h[i..]) == h[i].data[h[i].offset..] + Tails(h[i + 1..])
  {
    assert h[i..][1..] == h[i + 1..];
  }

  lemma DrainedFrom(h: seq<Held>, len: nat, i: nat, m: nat)
    requires i < |h| && Drained(h, len)[i..] == Drained(h[i..], m)
    ensures m > Left(h[i]) ==>
              && Drained(h, len)[i] == h[i].(offset := 0)
              && Drained(h, len)[i + 1..] == Drained(h[i + 1..], m - Left(h[i]))
    ensures m <= Left(h[i]) ==>
              && Drained(h, len)[i] == h[i].(offset := h[i].offset + m)
              && Drained(h, len)[i + 1..] == h[i + 1..]
  {
    var d := Drained(h, len);
    assert h[i..][1..] == h[i + 1..] && d[i..][1..] == d[i + 1..] && d[i..][0] == d[i];
  }

  lemma TailsOne(h: seq<Held>, i: nat, read: nat)
    requires i < |h| && TailsTo(h, i, read)
    ensures TailsTo(h, i + 1, read + Left(h[i]))
    ensures read + Left(h[i]) <= |Tails(h)|
    ensures Tails(h)[read..read + Left(h[i])] == h[i].data[h[i].offset..]
  {
    TailsFrom(h, i);
    var t := Tails(h);
    assert t[read..][..Left(h[i])] == t[read..read + Left(h[i])];
    assert t[read..][Left(h[i])..] == t[read + Left(h[i])..];
  }

  /** A chunk read past its end is wound back and the next one is due. */
  lemma DrainOne(h: seq<Held>, len: nat, now: seq<Held>, i: nat, read: nat, now': seq<Held>)
    requires DrainedTo(h, len, now, i, read) && i < |h| && len - read > Left(h[i])
    requires |now'| == |now| && now'[i] == h[i].(offset := 0)
    requires forall k :: 0 <= k < |now| && k != i ==> now'[k] == now[k]
    ensures DrainedTo(h, len, now', i + 1, read + Left(h[i]))
  {
    DrainedFrom(h, len, i, len - read);
  }

  /** A chunk with enough left ends the call. */
  lemma DrainLast(h: seq<Held>, len: nat, now: seq<Held>, i: nat, read: nat, now': seq<Held>)
    requires DrainedTo(h, len, now, i, read) && i < |h| && len - read <= Left(h[i])
    requires |now'| == |now| && now'[i] == h[i].(offset := h[i].offset + (len - read))
    requires forall k :: 0 <= k < |now| && k != i ==> now'[k] == now[k]
    ensures now' == Drained(h, len)
  {
    DrainedFrom(h, len, i, len - read);
    forall k | 0 <= k < |h|
      ensures now'[k] == Drained(h, len)[k]
    {
      if k > i {
        assert Drained(h, len)[i + 1..][k - i - 1] == h[i + 1..][k - i - 1];
      }
    }
  }

  /** The first s completions succeeded. */
  ghost predicate OkUpTo(w: seq<RxWc>, s: nat)
    requires s <= |w|
  {
    s == 0 || (w[s - 1].ok && OkUpTo(w, s - 1))
  }

  lemma {:induction false} OkBelow(w: seq<RxWc>, s: nat, t: nat)
    requires s <= t <= |w| && OkUpTo(w, t)
    ensures OkUpTo(w, s)
    decreases t
  {
    if s < t {
      OkBelow(w, s, t - 1);
    }
  }

  lemma {:induction false} OkJoined(w: seq<RxWc>, s: nat, batch: seq<RxWc>, n: nat)
    requires s + n <= |w| && n <= |batch| && forall k :: 0 <= k < n ==> batch[k] == w[s + k]
    ensures OkUpTo(w, s + n) <==> OkUpTo(w, s) && OkUpTo(batch, n)
    decreases n
  {
    if n > 0 {
      OkJoined(w, s, batch, n - 1);
      assert batch[n - 1] == w[s + (n - 1)];
    }
  }

  /** Entry k of a batch is completion s + k of the call. */
  ghost predicate SameAt(batch: seq<RxWc>, w: seq<RxWc>, s: nat, k: nat)
    requires k < |batch| && s + k < |w|
  {
    batch[k] == w[s + k]
  }

  /** The next batch of the completions still to come. */
  lemma BatchOf(w: seq<RxWc>, s: nat, batch: seq<RxWc>, rest: seq<RxWc>, next: nat)
    requires s <= |w| && w[s..] == batch + rest && next == s + |batch|
    ensures next <= |w| && w[next..] == rest
    ensures forall k :: 0 <= k < |batch| ==> SameAt(batch, w, s, k)
    ensures OkUpTo(w, next) <==> OkUpTo(w, s) && OkUpTo(batch, |batch|)
    ensures OkUpTo(w, |w|) ==> OkUpTo(w, next)
  {
    assert w == w[..s] + batch + rest;
    OkJoined(w, s, batch, |batch|);
    if OkUpTo(w, |w|) {
      OkBelow(w, s + |batch|, |w|);
    }
  }

  /** What read_buffers put in the caller's buffer, and what the completions put behind it. */
  /** A call for len bytes returned read of them: what was buffered, t, and then what came, s. */
  ghost predicate Returned(before: seq<byte>, now: seq<byte>, len: nat, t: seq<byte>, s: seq<byte>, read: nat) {
    var n0 := Least(len, |t|);
    && read == n0 + Least(len - n0, |s|) <= |before|
    && now == Splice(before, 0, t[..n0] + s[..read - n0])
  }

  lemma TwoParts(orig: seq<byte>, t: seq<byte>, n: nat, s: seq<byte>, read: nat, mid: seq<byte>, now: seq<byte>, len: nat)
    requires n == Least(len, |t|) && len <= |orig| && mid == Splice(orig, 0, t[..n])
    requires read == n + Least(len - n, |s|) && now == Splice(mid, n, s[..read - n])
    ensures Returned(orig, now, len, t, s, read)
  {
    SpliceTwice(orig, 0, t[..n], s[..read - n]);
  }

  ghost predicate Differ(chunks: seq<Chunk>, i: nat, k: nat) {
    i < k < |chunks| ==> chunks[i] != chunks[k]
  }

  /** No chunk is in the list twice. */
  ghost predicate NoRepeats(chunks: seq<Chunk>) {
    forall i, k :: Differ(chunks, i, k)
  }

  class Socket {
    var rxBuffers: seq<Chunk>

    constructor ()
      ensures rxBuffers == []
    {
      rxBuffers := [];
    }

    /** What the chunks in rxBuffers hold. */
    ghost function View(): (r: seq<Held>)
      requires forall i :: 0 <= i < |rxBuffers| ==> rxBuffers[i].Valid()
      reads this, rxBuffers, Buffers(rxBuffers)
      ensures |r| == |rxBuffers|
      ensures forall i :: 0 <= i < |rxBuffers| ==>
                rxBuffers[i].Valid() && r[i] == Held(rxBuffers[i].buffer[..], rxBuffers[i].offset)
    {
      seq(|rxBuffers|, i requires 0 <= i < |rxBuffers| && rxBuffers[i].Valid() reads this, rxBuffers, Buffers(rxBuffers) =>
                         Held(rxBuffers[i].buffer[..], rxBuffers[i].offset))
    }

    /** The body of the for loop: one completion of the batch. */
    method Take(wc: RxWc, buf: array<byte>, len: nat, read: nat) returns (read': nat)
      requires wc.chunk.Valid() && wc.chunk.offset == 0 && wc.byteLen <= wc.chunk.bytes && wc.chunk.buffer != buf
      requires read <= len <= buf.Length
      modifies this, buf, wc.chunk
      ensures wc.chunk.Valid()
      ensures var n := Least(len - read, wc.byteLen);
              && read' == read + n
              && buf[..] == Splice(old(buf[..]), read, wc.chunk.buffer[..wc.byteLen][..n])
              && (read + wc.byteLen >= len ==> wc.chunk.offset == n)
      ensures rxBuffers == old(rxBuffers) + (if read + wc.byteLen >= len then [wc.chunk] else [])
    {
      if read == len {
        rxBuffers := rxBuffers + [wc.chunk];
        read' := read;
        assert Splice(buf[..], read, []) == buf[..];
      } else if read + wc.byteLen >= len {
        var n := wc.chunk.Read(buf, read, len - read);
        rxBuffers := rxBuffers + [wc.chunk];
        read' := read + n;
        assert wc.chunk.buffer[0..n] == wc.chunk.buffer[..wc.byteLen][..n];
      } else {
        var n := wc.chunk.Read(buf, read, wc.byteLen);
        read' := read + n;
        assert wc.chunk.buffer[0..n] == wc.chunk.buffer[..wc.byteLen][..n];
      }
    }

    /** s of the completions w are seen, those from j on are in rxBuffers behind rx0, and the split is right. */
    ghost predicate Taken(w: seq<RxWc>, s: nat, buf: array<byte>, len: nat, read: nat, pay: seq<seq<byte>>,
                          j: nat, cut: nat, n0: nat, orig: seq<byte>, rx0: seq<Chunk>)
      reads this, buf, ChunkSet(w), set wc | wc in w :: wc.chunk.buffer
    {
      && Pays(w, pay, buf) && Offsets(w, s, j, cut)
      && Split(pay, s, j, cut, n0, read, len, orig, buf[..])
      && rxBuffers == rx0 + ChunksOf(w[j..s])
    }

    /** The same, on the completions of the call: which are kept now, and up to where the first of them is read. */
    method TakeKept(wc: RxWc, buf: array<byte>, len: nat, read: nat, ghost w: seq<RxWc>, ghost s: nat,
                    ghost pay: seq<seq<byte>>, ghost j: nat, ghost cut: nat, ghost rx0: seq<Chunk>)
      returns (read': nat, ghost j': nat, ghost cut': nat)
      requires s < |w| && wc == w[s] && Distinct(w) && Pays(w, pay, buf) && Offsets(w, s, j, cut)
      requires read <= len <= buf.Length && rxBuffers == rx0 + ChunksOf(w[j..s]) && (j < s ==> read == len)
      modifies this, buf, wc.chunk
      ensures Pays(w, pay, buf) && Offsets(w, s + 1, j', cut')
      ensures rxBuffers == rx0 + ChunksOf(w[j'..s + 1])
      ensures var n := Least(len - read, |pay[s]|);
              && read' == read + n && buf[..] == Splice(old(buf[..]), read, pay[s][..n])
              && j' == (if read + |pay[s]| >= len then j else s + 1) && cut' == (if j == s then n else cut)
    {
      OthersDiffer(w, s);
      read' := Take(wc, buf, len, read);
      if read + wc.byteLen >= len {
        assert ChunksOf(w[j..s + 1]) == ChunksOf(w[j..s]) + [wc.chunk];
        j' := j;
      } else {
        assert j == s && ChunksOf(w[s..s]) == [];
        j' := s + 1;
      }
      cut' := if j == s then Least(len - read, wc.byteLen) else cut;
    }

    /** The same, as a step of the split. */
    method TakeNext(wc: RxWc, buf: array<byte>, len: nat, read: nat, ghost w: seq<RxWc>, ghost s: nat,
                    ghost pay: seq<seq<byte>>, ghost j: nat, ghost cut: nat, ghost n0: nat, ghost orig: seq<byte>,
                    ghost rx0: seq<Chunk>)
      returns (read': nat, ghost j': nat, ghost cut': nat)
      requires s < |w| && wc == w[s] && Distinct(w) && Taken(w, s, buf, len, read, pay, j, cut, n0, orig, rx0)
      modifies this, buf, wc.chunk
      ensures Taken(w, s + 1, buf, len, read', pay, j', cut', n0, orig, rx0)
    {
      ghost var before := buf[..];
      read', j', cut' := TakeKept(wc, buf, len, read, w, s, pay, j, cut, rx0);
      SplitNext(pay, s, j, cut, n0, read, len, orig, before, read' - read, buf[..], j', cut');
    }

    /** The for loop over one polled batch: completions s to s' of the call. */
    method TakeBatch(wcs: seq<RxWc>, buf: array<byte>, len: nat, read: nat, ghost w: seq<RxWc>, ghost s: nat,
                     ghost pay: seq<seq<byte>>, ghost j: nat, ghost cut: nat, ghost n0: nat, ghost orig: seq<byte>,
                     ghost rx0: seq<Chunk>)
      returns (ok: bool, read': nat, ghost s': nat, ghost j': nat, ghost cut': nat)
      requires s + |wcs| <= |w| && forall k :: 0 <= k < |wcs| ==> SameAt(wcs, w, s, k)
      requires Distinct(w) && Taken(w, s, buf, len, read, pay, j, cut, n0, orig, rx0)
      modifies this, buf, ChunkSet(w)
      ensures ok <==> OkUpTo(wcs, |wcs|)
      ensures ok ==> s' == s + |wcs| && Taken(w, s', buf, len, read', pay, j', cut', n0, orig, rx0)
    {
      read', s', j', cut' := read, s, j, cut;
      for i := 0 to |wcs|
        invariant s' == s + i && Taken(w, s', buf, len, read', pay, j', cut', n0, orig, rx0)
        invariant OkUpTo(wcs, i)
      {
        assert SameAt(wcs, w, s, i);
        ok, read', s', j', cut' := TakeIfOk(wcs[i], buf, len, read', w, s', pay, j', cut', n0, orig, rx0);
        if !ok {
          if OkUpTo(wcs, |wcs|) {
            OkBelow(wcs, i + 1, |wcs|);
          }
          return;
        }
      }
      ok := true;
    }

    /** One round of it. */
    method TakeIfOk(wc: RxWc, buf: array<byte>, len: nat, read: nat, ghost w: seq<RxWc>, ghost s: nat,
                    ghost pay: seq<seq<byte>>, ghost j: nat, ghost cut: nat, ghost n0: nat, ghost orig: seq<byte>,
                    ghost rx0: seq<Chunk>)
      returns (ok: bool, read': nat, ghost s': nat, ghost j': nat, ghost cut': nat)
      requires s < |w| && wc == w[s] && Distinct(w) && Taken(w, s, buf, len, read, pay, j, cut, n0, orig, rx0)
      modifies this, buf, wc.chunk
      ensures ok == wc.ok
      ensures ok ==> s' == s + 1 && Taken(w, s', buf, len, read', pay, j', cut', n0, orig, rx0)
    {
      if !wc.ok {
        return false, read, s, j, cut;
      }
      ok, s' := true, s + 1;
      read', j', cut' := TakeNext(wc, buf, len, read, w, s, pay, j, cut, n0, orig, rx0);
    }

    /** A non-empty poll: its batch is the next part of the completions w. */
    method TakePoll(batch: seq<RxWc>, buf: array<byte>, len: nat, read: nat, ghost w: seq<RxWc>, ghost s: nat,
                    ghost pay: seq<seq<byte>>, ghost j: nat, ghost cut: nat, ghost n0: nat, ghost orig: seq<byte>,
                    ghost rx0: seq<Chunk>, ghost rest: seq<RxWc>)
      returns (ok: bool, read': nat, ghost s': nat, ghost j': nat, ghost cut': nat)
      requires s <= |w| && w[s..] == batch + rest && OkUpTo(w, s)
      requires Distinct(w) && Taken(w, s, buf, len, read, pay, j, cut, n0, orig, rx0)
      modifies this, buf, ChunkSet(w)
      ensures !ok ==> !OkUpTo(w, |w|)
      ensures ok ==> s' <= |w| && w[s'..] == rest && OkUpTo(w, s')
      ensures ok ==> Taken(w, s', buf, len, read', pay, j', cut', n0, orig, rx0)
    {
      ghost var next := s + |batch|;
      BatchOf(w, s, batch, rest, next);
      ok, read', s', j', cut' := TakeBatch(batch, buf, len, read, w, s, pay, j, cut, n0, orig, rx0);
      assert ok ==> s' == next;
    }

    /** The labelled loop: polls until empty, rearms, polls until empty again. */
    method TakeAll(polls: seq<RxPoll>, buf: array<byte>, len: nat, n0: nat, ghost w: seq<RxWc>, ghost pay: seq<seq<byte>>,
                   ghost orig: seq<byte>, ghost rx0: seq<Chunk>)
      returns (ok: bool, read: nat, ghost j: nat, ghost cut: nat)
      requires w == Yielded(polls, false) && Distinct(w)
      requires Taken(w, 0, buf, len, n0, pay, 0, 0, n0, orig, rx0)
      modifies this, buf, ChunkSet(w)
      ensures UpToSecondEmpty(polls, w)
      ensures ok <==> OkUpTo(w, |w|)
      ensures ok ==> Taken(w, |w|, buf, len, read, pay, j, cut, n0, orig, rx0)
    {
      YieldedIs(polls);
      ghost var s: nat := 0;
      read, j, cut := n0, 0, 0;
      var rearmed, rest := false, polls;
      assert w[0..] == w;
      while true
        invariant s <= |w| && w[s..] == Yielded(rest, rearmed) && OkUpTo(w, s)
        invariant Taken(w, s, buf, len, read, pay, j, cut, n0, orig, rx0)
        decreases |rest|, !rearmed
      {
        // A failed poll answers -1, and the goto takes that for a non-empty one.
        var poll := if rest != [] then rest[0] else Got([]);
        rest := if rest != [] then rest[1..] else rest;
        if poll.Got? && poll.wcs != [] {
          ok, read, s, j, cut :=
            TakePoll(poll.wcs, buf, len, read, w, s, pay, j, cut, n0, orig, rx0, Yielded(rest, rearmed));
          if !ok {
            return;
          }
        } else if poll.Got? && rearmed {
          assert s == |w|;
          return true, read, j, cut;
        } else {
          rearmed := rearmed || poll.Got?;
        }
      }
    }

    /** Of the completions, exactly those in kept stay, behind the chunks rx0, and hold these bytes behind their offsets. */
    ghost predicate Keeps(rx0: seq<Chunk>, kept: seq<RxWc>, rest: seq<byte>)
      reads this, ChunkSet(kept), set wc | wc in kept :: wc.chunk.buffer
    {
      rxBuffers == rx0 + ChunksOf(kept) && Within(kept) && Behind(kept) == rest
    }

    /** read. Past the event it waits for, it returns what the buffered chunks hold behind their offsets (to their
        capacity) and then the payloads of the completions, up to len bytes in all; what it does not return stays, in
        order, behind the offsets of the chunks it keeps. w are the completions polled, pay what each brought; ok is
        false when one failed, which the source asserts against. */
    method Read(buf: array<byte>, len: nat, polls: seq<RxPoll>, ghost w: seq<RxWc>, ghost pay: seq<seq<byte>>)
      returns (ok: bool, read: nat, ghost j: nat)
      requires len <= buf.Length
      requires forall i :: 0 <= i < |rxBuffers| ==> rxBuffers[i].Valid() && rxBuffers[i].buffer != buf
      requires NoRepeats(rxBuffers)
      requires w == Yielded(polls, false) && Distinct(w) && Pays(w, pay, buf)
      requires forall i :: 0 <= i < |w| ==> w[i].chunk.offset == 0 && w[i].chunk !in rxBuffers
      modifies this, buf, rxBuffers, ChunkSet(w)
      ensures UpToSecondEmpty(polls, w)
      ensures ok <==> OkUpTo(w, |w|)
      ensures ok ==>
                var t, s := Tails(old(View())), Flatten(pay);
                && Returned(old(buf[..]), buf[..], len, t, s, read)
                && j <= |w| && Keeps(old(rxBuffers), w[j..], s[read - Least(len, |t|)..])
    {
      ghost var orig, t := buf[..], Tails(View());
      assert orig == old(buf[..]) && t == Tails(old(View()));
      var n0 := ReadFirst(buf, len, w, pay);
      ghost var mid := buf[..];
      assert n0 == Least(len, |t|) && mid == Splice(orig, 0, t[..n0]);
      ok, read, j := TakeRest(buf, len, n0, polls, w, pay, mid);
      if ok {
        TwoParts(orig, t, n0, Flatten(pay), read, mid, buf[..], len);
      }
    }

    /** read_buffers, which leaves the chunks of the completions to come alone. */
    method ReadFirst(buf: array<byte>, len: nat, ghost w: seq<RxWc>, ghost pay: seq<seq<byte>>) returns (n0: nat)
      requires len <= buf.Length
      requires forall i :: 0 <= i < |rxBuffers| ==> rxBuffers[i].Valid() && rxBuffers[i].buffer != buf
      requires NoRepeats(rxBuffers) && Pays(w, pay, buf)
      requires forall i :: 0 <= i < |w| ==> w[i].chunk.offset == 0 && w[i].chunk !in rxBuffers
      modifies buf, rxBuffers
      ensures n0 == Least(len, |Tails(old(View()))|)
      ensures buf[..] == Splice(old(buf[..]), 0, Tails(old(View()))[..n0])
      ensures Pays(w, pay, buf) && forall i :: 0 <= i < |w| ==> w[i].chunk.offset == 0
    {
      n0 := ReadBuffers(buf, len);
    }

    /** The part of read behind read_buffers, which found n0 bytes. */
    method TakeRest(buf: array<byte>, len: nat, n0: nat, polls: seq<RxPoll>, ghost w: seq<RxWc>, ghost pay: seq<seq<byte>>,
                    ghost mid: seq<byte>)
      returns (ok: bool, read: nat, ghost j: nat)
      requires n0 <= len <= buf.Length && mid == buf[..]
      requires w == Yielded(polls, false) && Distinct(w) && Pays(w, pay, buf)
      requires forall i :: 0 <= i < |w| ==> w[i].chunk.offset == 0
      modifies this, buf, ChunkSet(w)
      ensures UpToSecondEmpty(polls, w)
      ensures ok <==> OkUpTo(w, |w|)
      ensures ok ==>
                && read == n0 + Least(len - n0, |Flatten(pay)|)
                && buf[..] == Splice(mid, n0, Flatten(pay)[..read - n0])
                && j <= |w| && Keeps(old(rxBuffers), w[j..], Flatten(pay)[read - n0..])
    {
      ghost var rx0, cut := rxBuffers, 0;
      StartTaken(w, buf, len, n0, pay, mid, rx0);
      ok, read, j, cut := TakeAll(polls, buf, len, n0, w, pay, mid, rx0);
      if ok {
        EndTaken(w, buf, len, read, pay, j, cut, n0, mid, rx0);
      }
    }

    lemma StartTaken(w: seq<RxWc>, buf: array<byte>, len: nat, n0: nat, pay: seq<seq<byte>>, orig: seq<byte>, rx0: seq<Chunk>)
      requires Pays(w, pay, buf) && forall i :: 0 <= i < |w| ==> w[i].chunk.offset == 0
      requires n0 <= len <= buf.Length && orig == buf[..] && rxBuffers == rx0
      ensures Taken(w, 0, buf, len, n0, pay, 0, 0, n0, orig, rx0)
    {
      assert pay[..0] == [] && Flatten(pay[..0]) == [] && ChunksOf(w[0..0]) == [];
    }

    lemma EndTaken(w: seq<RxWc>, buf: array<byte>, len: nat, read: nat, pay: seq<seq<byte>>,
                   j: nat, cut: nat, n0: nat, orig: seq<byte>, rx0: seq<Chunk>)
      requires Taken(w, |w|, buf, len, read, pay, j, cut, n0, orig, rx0)
      ensures read == n0 + Least(len - n0, |Flatten(pay)|)
      ensures n0 + |Flatten(pay)[..read - n0]| <= |orig| && buf[..] == Splice(orig, n0, Flatten(pay)[..read - n0])
      ensures j <= |w| && Keeps(rx0, w[j..], Flatten(pay)[read - n0..])
    {
      assert pay[..|pay|] == pay && w[j..|w|] == w[j..];
      BehindIsRest(w, pay, buf, j, cut, read - n0);
    }

    /** read_buffers: the chunks in order, each from its offset to its capacity, until len bytes are there. The chunks
        stay in the list. */
    method ReadBuffers(buf: array<byte>, len: nat) returns (read: nat)
      requires len <= buf.Length
      requires forall i :: 0 <= i < |rxBuffers| ==> rxBuffers[i].Valid() && rxBuffers[i].buffer != buf
      requires NoRepeats(rxBuffers)
      modifies buf, rxBuffers
      ensures forall i :: 0 <= i < |rxBuffers| ==> rxBuffers[i].Valid()
      ensures read == Least(len, |Tails(old(View()))|)
      ensures buf[..] == Splice(old(buf[..]), 0, Tails(old(View()))[..read])
      ensures View() == Drained(old(View()), len)
    {
      ghost var h := View();
      read := 0;
      assert h[0..] == h;
      var i := 0;
      while i < |rxBuffers|
        invariant i <= |rxBuffers|
        invariant forall k :: 0 <= k < |rxBuffers| ==> rxBuffers[k].Valid()
        invariant DrainedTo(h, len, View(), i, read) && TailsTo(h, i, read)
        invariant CopiedTo(h, read, old(buf[..]), buf[..])
        invariant i > 0 ==> read < len
      {
        read := ReadChunk(i, buf, len, read, h, View(), old(buf[..]));
        if read == len {
          return;
        }
        i := i + 1;
      }
    }

    /** One round of it. */
    method ReadChunk(i: nat, buf: array<byte>, len: nat, read: nat, ghost h: seq<Held>, ghost now: seq<Held>,
                     ghost orig: seq<byte>)
      returns (read': nat)
      requires i < |rxBuffers| && read <= len <= buf.Length
      requires forall k :: 0 <= k < |rxBuffers| ==> rxBuffers[k].Valid() && rxBuffers[k].buffer != buf
      requires NoRepeats(rxBuffers)
      requires now == View() && DrainedTo(h, len, now, i, read) && TailsTo(h, i, read)
      requires CopiedTo(h, read, orig, buf[..])
      modifies buf, rxBuffers[i]
      ensures forall k :: 0 <= k < |rxBuffers| ==> rxBuffers[k].Valid()
      ensures read' <= len && CopiedTo(h, read', orig, buf[..])
      ensures read' < len ==> DrainedTo(h, len, View(), i + 1, read') && TailsTo(h, i + 1, read')
      ensures read' == len ==> View() == Drained(h, len)
    {
      ghost var before := buf[..];
      var n := ReadHeld(i, buf, len - read, read, now);
      read' := read + n;
      ChunkStep(h, len, now, i, read, n, orig, before, buf[..], View());
    }

    /** The read of one chunk of the list, on the view. */
    method ReadHeld(i: nat, buf: array<byte>, len: nat, at: nat, ghost now: seq<Held>) returns (n: nat)
      requires i < |rxBuffers| && at + len <= buf.Length
      requires forall k :: 0 <= k < |rxBuffers| ==> rxBuffers[k].Valid() && rxBuffers[k].buffer != buf
      requires NoRepeats(rxBuffers)
      requires now == View()
      modifies buf, rxBuffers[i]
      ensures forall k :: 0 <= k < |rxBuffers| ==> rxBuffers[k].Valid()
      ensures n == Least(len, Left(now[i]))
      ensures buf[..] == Splice(old(buf[..]), at, now[i].data[now[i].offset..now[i].offset + n])
      ensures View()[i] == now[i].(offset := if Left(now[i]) >= len then now[i].offset + len else 0)
      ensures forall k :: 0 <= k < |now| && k != i ==> View()[k] == now[k]
    {
      forall k | 0 <= k < |rxBuffers| && k != i
        ensures rxBuffers[k] != rxBuffers[i]
      {
        assert Differ(rxBuffers, i, k) && Differ(rxBuffers, k, i);
      }
      n := rxBuffers[i].Read(buf, at, len);
    }
  }

  /** One chunk drained, either way. */
  lemma DrainStep(h: seq<Held>, len: nat, now: seq<Held>, i: nat, read: nat, now': seq<Held>)
    requires DrainedTo(h, len, now, i, read) && TailsTo(h, i, read) && i < |h| == |now'|
    requires now'[i] == h[i].(offset := if Left(h[i]) >= len - read then h[i].offset + (len - read) else 0)
    requires forall k :: 0 <= k < |now| && k != i ==> now'[k] == now[k]
    ensures len - read <= Left(h[i]) ==> now' == Drained(h, len)
    ensures len - read > Left(h[i]) ==>
              DrainedTo(h, len, now', i + 1, read + Left(h[i])) && TailsTo(h, i + 1, read + Left(h[i]))
  {
    if len - read <= Left(h[i]) {
      DrainLast(h, len, now, i, read, now');
    } else {
      DrainOne(h, len, now, i, read, now');
      TailsOne(h, i, read);
    }
  }

  /** One chunk read: copied and drained. */
  lemma ChunkStep(h: seq<Held>, len: nat, now: seq<Held>, i: nat, read: nat, n: nat,
                  orig: seq<byte>, before: seq<byte>, after: seq<byte>, now': seq<Held>)
    requires DrainedTo(h, len, now, i, read) && TailsTo(h, i, read) && i < |h| == |now'|
    requires n == Least(len - read, Left(now[i])) && CopiedTo(h, read, orig, before) && len <= |orig|
    requires after == Splice(before, read, now[i].data[now[i].offset..now[i].offset + n])
    requires now'[i] == now[i].(offset := if Left(now[i]) >= len - read then now[i].offset + (len - read) else 0)
    requires forall k :: 0 <= k < |now| && k != i ==> now'[k] == now[k]
    ensures CopiedTo(h, read + n, orig, after)
    ensures read + n < len ==> DrainedTo(h, len, now', i + 1, read + n) && TailsTo(h, i + 1, read + n)
    ensures read + n == len ==> now' == Drained(h, len)
  {
    assert now[i] == h[i];
    CopyTail(h, i, read, n, orig, before, after);
    DrainStep(h, len, now, i, read, now');
  }

  /** The first read bytes behind the offsets are in the caller's buffer. */
  ghost predicate CopiedTo(h: seq<Held>, read: nat, orig: seq<byte>, now: seq<byte>) {
    read <= |Tails(h)| && read <= |orig| && now == Splice(orig, 0, Tails(h)[..read])
  }

  lemma SpliceGrow(orig: seq<byte>, t: seq<byte>, read: nat, n: nat)
    requires read + n <= |t| && read + n <= |orig|
    ensures Splice(Splice(orig, 0, t[..read]), read, t[read..read + n]) == Splice(orig, 0, t[..read + n])
  {
    SpliceTwice(orig, 0, t[..read], t[read..read + n]);
    assert t[..read] + t[read..read + n] == t[..read + n];
  }

  /** What one chunk gives continues what was copied. */
  lemma CopyTail(h: seq<Held>, i: nat, read: nat, n: nat, orig: seq<byte>, before: seq<byte>, after: seq<byte>)
    requires i < |h| && n <= Left(h[i]) && TailsTo(h, i, read)
    requires CopiedTo(h, read, orig, before) && read + n <= |orig|
    requires after == Splice(before, read, h[i].data[h[i].offset..h[i].offset + n])
    ensures CopiedTo(h, read + n, orig, after)
  {
    TailsOne(h, i, read);
    var t := Tails(h);
    SliceSlice(t, read, read + Left(h[i]), 0, n);
    SliceSlice(h[i].data, h[i].offset, |h[i].data|, 0, n);
    assert h[i].data[h[i].offset..|h[i].data|] == h[i].data[h[i].offset..];
    SpliceGrow(orig, t, read, n);
  }
}
