/** The stop-and-wait sender of the low-latency test, against a device that may reject its posts and fail its polls. */
module TestClient {
  import opened Bytes
  import opened Modular
  import opened Counting
  import Bulk
  import opened TestStream

  /** What becomes of one message of the client: whether the device accepts its post, how many bytes of it the device
      reads from the buffer at once, and what the device does at the polls of the query behind the post. */
  datatype Fate = Fate(accepted: bool, early: nat, turns: Schedule)

  /** What a client is to send, and what becomes of it: bytes in messages of n, polling for up to max completions (the
      source asks for one). */
  datatype AnyJob = Job(fates: seq<Fate>, max: nat, n: nat, bytes: nat)

  type Job = j: AnyJob | 0 < j.max && 0 < j.n witness Job([], 1, 1, 0)

  function FateOf(fates: seq<Fate>, k: nat): Fate {
    if k < |fates| then fates[k] else Fate(true, 0, Over)
  }

  ghost predicate NothingFails(fates: seq<Fate>) {
    forall k :: 0 <= k < |fates| ==> fates[k].accepted && Sound(fates[k].turns)
  }

  /** What is outstanding behind the post of a message. */
  function Behind(fate: Fate, max: nat): Queue {
    Queue(max, if fate.accepted then 1 else 0, 0)
  }

  /** The query behind the post of message k ends, and succeeds. */
  ghost predicate Ends(j: Job, k: nat) {
    QueryEnds(Behind(FateOf(j.fates, k), j.max), FateOf(j.fates, k).turns)
  }

  ghost predicate Succeeds(j: Job, k: nat) {
    Ends(j, k) && Ask(Behind(FateOf(j.fates, k), j.max), FateOf(j.fates, k).turns).r != -1
  }

  /** What the client comes to: it sent everything, it returned 1, or a query of it never ends. */
  datatype Ending = Finished | Failed | Hangs

  /** There is a query behind message k: another message follows. */
  predicate Follows(j: Job, k: nat) {
    Times(k + 1, j.n) < j.bytes
  }

  /** The loop of the client behind the post of message k. Its own result decides nothing: the source ignores it. */
  ghost function Goes(j: Job, k: nat): Ending
    decreases j.bytes - Times(k + 1, j.n)
  {
    if !Follows(j, k) then Finished
    else if !Ends(j, k) then Hangs
    else if !Succeeds(j, k) then Failed
    else Goes(j, k + 1)
  }

  lemma GoesOn(j: Job, k: nat, fate: Fate)
    requires Follows(j, k) && Goes(j, k) != Hangs && fate == FateOf(j.fates, k)
    ensures QueryEnds(Behind(fate, j.max), fate.turns)
    ensures if Ask(Behind(fate, j.max), fate.turns).r == -1 then Goes(j, k) == Failed else Goes(j, k) == Goes(j, k + 1)
  {
  }

  /** The whole client. The result of the first post is checked. */
  ghost function Comes(j: Job): Ending {
    if FateOf(j.fates, 0).accepted then Goes(j, 0) else Failed
  }

  /** The queries behind the first k messages succeeded. */
  ghost predicate Reached(j: Job, k: nat) {
    forall i :: 0 <= i < k ==> Succeeds(j, i)
  }

  /** If the client gets to the query behind message k, it ends. */
  ghost predicate EndsAt(j: Job, k: nat) {
    Follows(j, k) && Reached(j, k) ==> Ends(j, k)
  }

  ghost predicate AllEnd(j: Job, k: nat) {
    forall m :: k <= m ==> EndsAt(j, m)
  }

  lemma {:induction false} GoesIff(j: Job, k: nat)
    requires Reached(j, k)
    ensures Goes(j, k) != Hangs <==> AllEnd(j, k)
    decreases j.bytes - Times(k + 1, j.n)
  {
    if !Follows(j, k) {
      NoneFollow(j, k);
    } else if Succeeds(j, k) {
      GoesIff(j, k + 1);
      AllEndNext(j, k);
    } else {
      NoFurther(j, k);
    }
  }

  lemma NoneFollow(j: Job, k: nat)
    requires !Follows(j, k)
    ensures AllEnd(j, k)
  {
    forall m | k <= m
      ensures EndsAt(j, m)
    {
      TimesMono(k + 1, m + 1, j.n);
    }
  }

  lemma AllEndNext(j: Job, k: nat)
    requires Ends(j, k)
    ensures AllEnd(j, k) <==> AllEnd(j, k + 1)
  {
    assert EndsAt(j, k);
    if AllEnd(j, k + 1) {
      forall m | k <= m
        ensures EndsAt(j, m)
      {
      }
    }
  }

  lemma NoFurther(j: Job, k: nat)
    requires Follows(j, k) && Reached(j, k) && !Succeeds(j, k)
    ensures AllEnd(j, k) <==> Ends(j, k)
  {
    assert AllEnd(j, k) ==> EndsAt(j, k);
    forall m | k < m
      ensures EndsAt(j, m)
    {
      assert !Reached(j, m);
    }
  }

  /** If the client gets to the query behind message k, that was posted, or a poll of the query fails. */
  ghost predicate PostedAt(j: Job, k: nat) {
    Follows(j, k) && Reached(j, k) ==> FateOf(j.fates, k).accepted || !Unbroken(FateOf(j.fates, k).turns)
  }

  /** The client comes to an end exactly if its first post is rejected, or every later post that it gets to query for is
      accepted (unless a poll fails, which ends that query). */
  lemma ClientEndsIff(j: Job)
    ensures Comes(j) != Hangs <==> !FateOf(j.fates, 0).accepted || forall k: nat :: 0 < k ==> PostedAt(j, k)
  {
    if FateOf(j.fates, 0).accepted {
      GoesIff(j, 0);
      forall k: nat
        ensures PostedAt(j, k) <==> EndsAt(j, k)
      {
      }
      assert EndsAt(j, 0);
      if forall k: nat :: 0 < k ==> PostedAt(j, k) {
        forall m | 0 <= m
          ensures EndsAt(j, m)
        {
          assert 0 < m ==> PostedAt(j, m);
        }
      }
    }
  }

  /** The polls of the query behind message k. */
  ghost function PollsAt(j: Job, k: nat): seq<Verbs.Poll> {
    Polls(Behind(FateOf(j.fates, k), j.max), FateOf(j.fates, k).turns)
  }

  /** No query from message k on fails: the poll that would end it fails, or brings a completion that did. */
  ghost predicate NoneFails(j: Job, k: nat) {
    forall m :: k <= m && Follows(j, m) ==> !FailsFirst(PollsAt(j, m))
  }

  lemma {:induction false} GoesWellIff(j: Job, k: nat)
    requires Goes(j, k) != Hangs
    ensures Goes(j, k) == Finished <==> NoneFails(j, k)
    decreases j.bytes - Times(k + 1, j.n)
  {
    if Follows(j, k) {
      AskFailsIff(Behind(FateOf(j.fates, k), j.max), FateOf(j.fates, k).turns);
      if Succeeds(j, k) {
        GoesWellIff(j, k + 1);
        assert NoneFails(j, k) <==> NoneFails(j, k + 1);
      }
    } else {
      forall m | k <= m
        ensures !Follows(j, m)
      {
        TimesMono(k + 1, m + 1, j.n);
      }
    }
  }

  /** A client that ends returns 0 exactly if its first post is accepted and none of its queries fails. */
  lemma ComesWellIff(j: Job)
    requires Comes(j) != Hangs
    ensures Comes(j) == Finished <==> FateOf(j.fates, 0).accepted && NoneFails(j, 0)
  {
    if FateOf(j.fates, 0).accepted {
      GoesWellIff(j, 0);
    }
  }

  /** The query behind a post is answered, under some schedule of polls that do not fail, exactly if the post was
      accepted; behind a rejected one under none. */
  lemma PostAnsweredIff(fate: Fate, max: nat)
    requires 0 < max
    ensures CanAnswer(Behind(fate, max)) <==> fate.accepted
    ensures !fate.accepted && Unbroken(fate.turns) ==> !Verbs.Answers(Polls(Behind(fate, max), fate.turns))
  {
    CanAnswerIff(Behind(fate, max));
    if !fate.accepted && Unbroken(fate.turns) {
      NothingAnswers(max, fate.turns);
    }
  }

  lemma NoFailure(j: Job, k: nat)
    requires NothingFails(j.fates)
    ensures FateOf(j.fates, k).accepted && Succeeds(j, k)
  {
    AskSound(Behind(FateOf(j.fates, k), j.max), FateOf(j.fates, k).turns);
  }

  lemma {:induction false} GoesWell(j: Job, k: nat)
    requires NothingFails(j.fates)
    ensures Goes(j, k) == Finished
    decreases j.bytes - Times(k + 1, j.n)
  {
    NoFailure(j, k);
    if Follows(j, k) {
      GoesWell(j, k + 1);
    }
  }

  lemma ComesWell(j: Job)
    requires NothingFails(j.fates)
    ensures Comes(j) == Finished
  {
    NoFailure(j, 0);
    GoesWell(j, 0);
  }

  /** The sending session: its one registered buffer, and a device that reads a posted message from the buffer in two
      parts, at the post and before the completion. */
  class Sender {
    const sendBuf: array<byte>
    const max: nat            // the completions a poll may bring
    var pending: nat          // sends posted and not executed
    var completed: nat        // completions not polled
    var length: nat           // the length of the posted message
    var head: seq<byte>       // what the device has read of it
    var wire: seq<seq<byte>>  // the messages the device took, in order

    constructor (buf: array<byte>, cqe: nat)
      requires 0 < cqe
      ensures Idle() && sendBuf == buf && max == cqe && wire == []
    {
      max, sendBuf, pending, completed, length, head, wire := cqe, buf, 0, 0, 0, [], [];
    }

    predicate Valid()
      reads this
    {
      |head| <= length <= sendBuf.Length && pending <= 1 && 0 < max
    }

    /** Nothing is outstanding. */
    predicate Idle()
      reads this
    {
      Valid() && pending == 0 && completed == 0
    }

    function Waiting(): Queue
      reads this
    {
      Queue(max, pending, completed)
    }

    /** What the peer has got and, of a posted message, will get as the buffer now is. */
    function Delivered(): seq<seq<byte>>
      requires Valid()
      reads this, sendBuf
    {
      if pending > 0 then wire + [head + sendBuf[|head|..length]] else wire
    }

    method Send(n: nat, fate: Fate) returns (r: int)
      requires Idle() && n <= sendBuf.Length
      modifies this
      ensures Valid() && Waiting() == Behind(fate, max) && r == if fate.accepted then 0 else -1
      ensures Delivered() == old(Delivered()) + (if fate.accepted then [sendBuf[..n]] else [])
    {
      if !fate.accepted {
        return -1;
      }
      pending, length, head := 1, n, sendBuf[..Least(fate.early, n)];
      assert head + sendBuf[|head|..n] == sendBuf[..n];
      r := 0;
    }

    /** rdma_query_cq for one completion: polls until a poll fails or brings it. The device reads the rest of the message
        before it completes it. */
    method Query(turns: Schedule) returns (r: int)
      requires Valid() && QueryEnds(Waiting(), turns)
      modifies this
      ensures Valid() && Waiting() == Ask(old(Waiting()), turns).left && r == Ask(old(Waiting()), turns).r
      ensures Delivered() == old(Delivered())
    {
      var rest := turns;
      while true
        invariant Valid() && Delivered() == old(Delivered())
        invariant QueryEnds(Waiting(), rest) && Ask(Waiting(), rest) == Ask(old(Waiting()), turns)
        decreases rest
      {
        var turn := if rest.Next? then rest.turn else Turn(pending, false, false);
        Execute(turn.execute);
        rest := if rest.Next? then rest.later else rest;
        if turn.broken {
          return -1;
        }
        var n := Least(max, completed);
        if n > 0 {
          completed := completed - n;
          r := if turn.fails then -1 else n;
          return;
        }
      }
    }

    /** The device executes the posted message, if there is one and it gets to. */
    method Execute(n: nat)
      requires Valid()
      modifies this
      ensures Valid() && Waiting() == Executed(old(Waiting()), n) && Delivered() == old(Delivered())
    {
      if n > 0 && pending > 0 {
        wire := wire + [head + sendBuf[|head|..length]];
        pending, completed := 0, completed + 1;
      }
    }

    /** The buffer may be written only while nothing posted still refers to it. */
    method Load(ts: array<byte>, cur: nat, n: nat)
      requires Idle() && ts != sendBuf && cur + n <= ts.Length && n <= sendBuf.Length
      modifies sendBuf
      ensures sendBuf[..n] == ts[cur..cur + n]
    {
      Memcpy(sendBuf, 0, ts, cur, n);
    }

    /** Copies the next message into the buffer and posts it. */
    method LoadAndSend(n: nat, ts: array<byte>, cur: nat, fate: Fate) returns (r: int)
      requires Idle() && 0 < n <= sendBuf.Length && ts != sendBuf && cur + n <= ts.Length
      modifies this, sendBuf
      ensures Valid() && Waiting() == Behind(fate, max) && r == if fate.accepted then 0 else -1
      ensures Delivered() == old(Delivered()) + (if fate.accepted then [ts[cur..cur + n]] else [])
    {
      Load(ts, cur, n);
      assert Delivered() == old(Delivered());
      r := Send(n, fate);
    }

    /** Behind the post of message k, which ends at cur: the messages up to it were delivered, or up to the one before if
        its post was rejected. */
    ghost predicate Progress(all: seq<byte>, n: nat, k: nat, cur: nat, fate: Fate)
      requires 0 < n
      reads this, sendBuf
    {
      && cur == Times(k + 1, n) <= |all| && k < |Bulk.Cut(all, n)|
      && Valid() && Waiting() == Behind(fate, max)
      && Delivered() == Bulk.Cut(all, n)[..if fate.accepted then k + 1 else k]
    }

    /** The first message, before the loop. */
    method First(n: nat, ts: array<byte>, fate: Fate) returns (r: int)
      requires Idle() && wire == [] && 0 < n <= sendBuf.Length && ts != sendBuf
      requires 0 < ts.Length && Whole(ts[..], n)
      modifies this, sendBuf
      ensures Valid() && r == if fate.accepted then 0 else -1
      ensures if r == 0 then n <= ts.Length && Progress(ts[..], n, 0, n, fate) else Delivered() == []
    {
      WholeMessage(ts[..], n, 0);
      r := LoadAndSend(n, ts, 0, fate);
    }

    /** What this client is to do. */
    ghost function JobOf(n: nat, bytes: nat, fates: seq<Fate>): Job
      requires 0 < n && 0 < max
    {
      Job(fates, max, n, bytes)
    }

    /** One round of the loop: the completion of message k, and message k + 1. */
    method Round(n: nat, ts: array<byte>, k: nat, cur: nat, fate: Fate, next: Fate) returns (r: int)
      requires 0 < n <= sendBuf.Length && ts != sendBuf && Whole(ts[..], n)
      requires Progress(ts[..], n, k, cur, fate) && cur < ts.Length && QueryEnds(Behind(fate, max), fate.turns)
      modifies this, sendBuf
      ensures r == Ask(Behind(fate, max), fate.turns).r
      ensures r == -1 ==> Valid() && Delivered() <= Bulk.Cut(ts[..], n)
      ensures r != -1 ==> Progress(ts[..], n, k + 1, cur + n, next)
    {
      ghost var all, q := ts[..], Waiting();
      assert q == Behind(fate, max);
      WholeMessage(all, n, k + 1);
      r := Query(fate.turns);
      assert Waiting() == Ask(q, fate.turns).left;
      if r == -1 {
        return;
      }
      assert fate.accepted && Idle();
      var _ := LoadAndSend(n, ts, cur, next);
    }

    /** client, for at least one message: fills the pattern and sends it a message at a time, each after the completion of
        the one before; 1 where its first post or a query fails. The messages are the slices of the pattern in order, and
        where it returns 0, all of them but a last one whose post was rejected. */
    method Client(n: nat, ts: array<byte>, fates: seq<Fate>) returns (r: int)
      requires Idle() && wire == [] && 0 < n <= sendBuf.Length && ts != sendBuf
      requires 0 < ts.Length && ts.Length % 4 == 0 && ts.Length % n == 0 && Comes(JobOf(n, ts.Length, fates)) != Hangs
      modifies this, sendBuf, ts
      ensures IsPattern(ts[..]) && Valid()
      ensures r == if Comes(JobOf(n, ts.Length, fates)) == Finished then 0 else 1
      ensures r == 0 <==> FateOf(fates, 0).accepted && NoneFails(JobOf(n, ts.Length, fates), 0)
      ensures Delivered() <= Bulk.Cut(ts[..], n)
      ensures r == 0 ==> AllButLast(Delivered(), Bulk.Cut(ts[..], n), fates)
      ensures r == 0 ==> Waiting() == Behind(FateOf(fates, |Bulk.Cut(ts[..], n)| - 1), max)
      ensures NothingFails(fates) ==> r == 0 && Delivered() == Bulk.Cut(ts[..], n)
    {
      Fill(ts);
      ComesWellIff(JobOf(n, ts.Length, fates));
      r := SendAll(n, ts, fates);
      if NothingFails(fates) {
        ComesWell(JobOf(n, ts.Length, fates));
        NoFailure(JobOf(n, ts.Length, fates), |Bulk.Cut(ts[..], n)| - 1);
        WholePrefix(Delivered(), Bulk.Cut(ts[..], n));
      }
    }

    /** client behind its fill loop. */
    method SendAll(n: nat, ts: array<byte>, fates: seq<Fate>) returns (r: int)
      requires Idle() && wire == [] && 0 < n <= sendBuf.Length && ts != sendBuf
      requires 0 < ts.Length && ts.Length % n == 0 && Comes(JobOf(n, ts.Length, fates)) != Hangs
      modifies this, sendBuf
      ensures Valid() && r == if Comes(JobOf(n, ts.Length, fates)) == Finished then 0 else 1
      ensures Delivered() <= Bulk.Cut(ts[..], n)
      ensures r == 0 ==> AllButLast(Delivered(), Bulk.Cut(ts[..], n), fates)
      ensures r == 0 ==> Waiting() == Behind(FateOf(fates, |Bulk.Cut(ts[..], n)| - 1), max)
    {
      ghost var all, j := ts[..], JobOf(n, ts.Length, fates);
      RemIsMod(|all|, n);
      var sent := First(n, ts, FateOf(fates, 0));
      if sent != 0 {
        return 1;
      }
      var cur, k := n, 0;
      while cur < ts.Length
        invariant ts[..] == all && Progress(all, n, k, cur, FateOf(fates, k))
        invariant Goes(j, k) == Comes(j)
        decreases |all| - cur
      {
        var fate, next := FateOf(fates, k), FateOf(fates, k + 1);
        GoesOn(j, k, fate);
        var got := Round(n, ts, k, cur, fate, next);
        if got == -1 {
          return 1;
        }
        cur, k := cur + n, k + 1;
      }
      AllSent(all, n, k, cur, fates);
      r := 0;
    }

    lemma AllSent(all: seq<byte>, n: nat, k: nat, cur: nat, fates: seq<Fate>)
      requires 0 < n && Whole(all, n) && Progress(all, n, k, cur, FateOf(fates, k)) && cur == |all|
      ensures Delivered() <= Bulk.Cut(all, n) && AllButLast(Delivered(), Bulk.Cut(all, n), fates)
      ensures Waiting() == Behind(FateOf(fates, |Bulk.Cut(all, n)| - 1), max)
    {
      WholeMessage(all, n, k);
    }
  }

  /** Of the slices only the last can be missing, and is exactly if its post was rejected. */
  ghost predicate AllButLast(delivered: seq<seq<byte>>, parts: seq<seq<byte>>, fates: seq<Fate>) {
    |parts| > 0 && |delivered| == |parts| - (if FateOf(fates, |parts| - 1).accepted then 0 else 1)
  }

  lemma WholePrefix(a: seq<seq<byte>>, b: seq<seq<byte>>)
    requires a <= b && |a| == |b|
    ensures a == b
  {
  }

  /** The bytes are whole messages. */
  predicate Whole(all: seq<byte>, n: nat)
    requires 0 < n
  {
    Rem(|all|, n) == 0
  }

  /** Message k is slice k. */
  lemma {:induction false} WholeMessage(all: seq<byte>, n: nat, k: nat)
    requires 0 < n && Whole(all, n) && Times(k, n) < |all|
    ensures Times(k + 1, n) == Times(k, n) + n <= |all| && k < |Bulk.Cut(all, n)|
    ensures Bulk.Cut(all, n)[k] == all[Times(k, n)..Times(k, n) + n]
    ensures Times(k + 1, n) == |all| <==> |Bulk.Cut(all, n)| == k + 1
    decreases k
  {
    if k > 0 {
      var rest := all[n..];
      assert Times(k, n) == Times(k - 1, n) + n;
      WholeMessage(rest, n, k - 1);
      assert rest[Times(k - 1, n)..Times(k - 1, n) + n] == all[Times(k, n)..Times(k, n) + n];
    } else if |all| == n {
      assert all[0..n] == all;
    }
  }
}
