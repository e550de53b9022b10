/** Ownership of the transmit chunks over whole runs of sends, device completions and handler steps. */
module TxPool {
  import opened Bytes
  import opened Modular
  import N = Notify

  /** Where a chunk can be: the source free list, in flight, or lost on a failed post here; completed, polled or
      handed back in the handler's state n. */
  datatype State = State(
    chunkSize: nat,
    channel: seq<nat>,   // the free list sends take from
    inflight: seq<nat>,  // posted and not completed
    lost: seq<nat>,      // taken for a work request the device did not accept
    n: N.State)

  datatype Event =
    | Send(bytes: nat, accepted: nat)  // one send; the device accepts this many of its work requests
    | Finish(i: nat, ok: bool)         // the device completes one posted chunk, in any order
    | Handler(e: N.Event)

  function Init(chunkSize: nat, pool: seq<nat>): State {
    State(chunkSize, pool, [], [], N.Init())
  }

  /** The chunks a send gets: get_buffers(0) answers the whole free list. */
  function Taken(s: State, bytes: nat): seq<nat>
    requires 0 < s.chunkSize && (bytes == 0 || Pieces(bytes, s.chunkSize) <= |s.channel|)
  {
    if bytes == 0 then s.channel else Popped(s.channel, Pieces(bytes, s.chunkSize))
  }

  /** A send is defined when it gets at least one chunk and enough of them. */
  predicate Enabled(s: State, e: Event) {
    match e
    case Send(bytes, accepted) =>
      && 0 < s.chunkSize
      && (bytes == 0 || Pieces(bytes, s.chunkSize) <= |s.channel|)
      && Taken(s, bytes) != [] && accepted <= |Taken(s, bytes)|
    case Finish(i, ok) => i < |s.inflight|
    case Handler(e) => !e.Complete? && N.Enabled(s.n, e)
  }

  function Step(s: State, e: Event): State
    requires Enabled(s, e)
  {
    match e
    case Send(bytes, accepted) =>
      var taken := Taken(s, bytes);
      if bytes == 0 then s.(inflight := s.inflight + taken[..accepted])
      else s.(channel := s.channel[..|s.channel| - |taken|],
              inflight := s.inflight + taken[..accepted],
              lost := s.lost + taken[accepted..])
    case Finish(i, ok) =>
      s.(inflight := s.inflight[..i] + s.inflight[i + 1..], n := N.Step(s.n, N.Complete(N.Wc(s.inflight[i], ok))))
    case Handler(e) => s.(n := N.Step(s.n, e))
  }

  ghost predicate Legal(s: State, run: seq<Event>)
    decreases |run|
  {
    |run| == 0 || (Enabled(s, run[0]) && Legal(Step(s, run[0]), run[1..]))
  }

  ghost function Run(s: State, run: seq<Event>): State
    requires Legal(s, run)
    decreases |run|
  {
    if |run| == 0 then s else Run(Step(s, run[0]), run[1..])
  }

  function Count(list: seq<nat>, c: nat): nat {
    if |list| == 0 then 0 else (if list[0] == c then 1 else 0) + Count(list[1..], c)
  }

  lemma {:induction false} CountConcat(a: seq<nat>, b: seq<nat>, c: nat)
    ensures Count(a + b, c) == Count(a, c) + Count(b, c)
    decreases |a|
  {
    if |a| == 0 {
      assert a + b == b;
    } else {
      assert (a + b)[1..] == a[1..] + b;
      CountConcat(a[1..], b, c);
    }
  }

  lemma CountSplit(a: seq<nat>, k: nat, c: nat)
    requires k <= |a|
    ensures Count(a, c) == Count(a[..k], c) + Count(a[k..], c)
  {
    assert a == a[..k] + a[k..];
    CountConcat(a[..k], a[k..], c);
  }

  lemma {:induction false} CountPopped(free: seq<nat>, num: nat, c: nat)
    requires num <= |free|
    ensures Count(Popped(free, num), c) + Count(free[..|free| - num], c) == Count(free, c)
    decreases num
  {
    if num == 0 {
      assert free[..|free|] == free;
    } else {
      var init := free[..|free| - 1];
      CountSplit(free, |free| - 1, c);
      assert Popped(free, num)[1..] == Popped(init, num - 1);
      assert init[..|init| - (num - 1)] == free[..|free| - num];
      CountPopped(init, num - 1, c);
    }
  }

  lemma {:induction false} CountZero(list: seq<nat>, c: nat)
    ensures Count(list, c) == 0 <==> c !in list
    decreases |list|
  {
    if |list| > 0 {
      CountZero(list[1..], c);
    }
  }

  /** How often chunk c is in the source free list, in flight, lost, or among the completed ones. */
  ghost function Held(s: State, c: nat): nat {
    Count(s.channel, c) + Count(s.inflight, c) + Count(s.lost, c) + Count(s.n.pushed, c)
  }

  /** A send with bytes moves chunks; one without puts the accepted ones in flight while they stay in the free list. */
  lemma SendHeld(s: State, bytes: nat, accepted: nat, c: nat)
    requires Enabled(s, Send(bytes, accepted))
    ensures Held(Step(s, Send(bytes, accepted)), c)
         == Held(s, c) + (if bytes > 0 then 0 else Count(Taken(s, bytes)[..accepted], c))
  {
    var taken := Taken(s, bytes);
    CountConcat(s.inflight, taken[..accepted], c);
    if bytes > 0 {
      CountPopped(s.channel, |taken|, c);
      CountConcat(s.lost, taken[accepted..], c);
      CountSplit(taken, accepted, c);
    }
  }

  /** A send keeps every chunk in one place exactly when it has bytes to send, or the device accepts nothing. */
  lemma SendKeepsIff(s: State, bytes: nat, accepted: nat)
    requires Enabled(s, Send(bytes, accepted))
    ensures (forall c :: Held(Step(s, Send(bytes, accepted)), c) == Held(s, c)) <==> bytes > 0 || accepted == 0
  {
    var s' := Step(s, Send(bytes, accepted));
    if bytes > 0 || accepted == 0 {
      forall c
        ensures Held(s', c) == Held(s, c)
      {
        SendHeld(s, bytes, accepted, c);
      }
    } else {
      var taken := Taken(s, bytes);
      SendHeld(s, bytes, accepted, taken[0]);
      CountZero(taken[..accepted], taken[0]);
      assert Held(s', taken[0]) != Held(s, taken[0]);
    }
  }

  lemma FinishHeld(s: State, i: nat, ok: bool, c: nat)
    requires Enabled(s, Finish(i, ok))
    ensures Held(Step(s, Finish(i, ok)), c) == Held(s, c)
  {
    var chunk := s.inflight[i];
    CountSplit(s.inflight, i, c);
    CountSplit(s.inflight[i..], 1, c);
    assert s.inflight[i..][..1] == [chunk] && s.inflight[i..][1..] == s.inflight[i + 1..];
    CountConcat(s.inflight[..i], s.inflight[i + 1..], c);
    CountConcat(s.n.pushed, [chunk], c);
  }

  /** Every send of the run has bytes to send. */
  ghost predicate NonEmptySends(run: seq<Event>) {
    forall i :: 0 <= i < |run| && run[i].Send? ==> run[i].bytes > 0
  }

  lemma StepHeld(s: State, e: Event, c: nat)
    requires Enabled(s, e) && (e.Send? ==> e.bytes > 0) && N.Accounted(s.n)
    ensures Held(Step(s, e), c) == Held(s, c) && N.Accounted(Step(s, e).n)
  {
    match e
    case Send(bytes, accepted) => SendHeld(s, bytes, accepted, c);
    case Finish(i, ok) =>
      FinishHeld(s, i, ok, c);
      N.StepAccounted(s.n, N.Complete(N.Wc(s.inflight[i], ok)));
    case Handler(e) => N.StepAccounted(s.n, e);
  }

  lemma {:induction false} RunHeld(s: State, run: seq<Event>, c: nat)
    requires Legal(s, run) && NonEmptySends(run) && N.Accounted(s.n)
    ensures Held(Run(s, run), c) == Held(s, c) && N.Accounted(Run(s, run).n)
    decreases |run|
  {
    if |run| > 0 {
      StepHeld(s, run[0], c);
      RunHeld(Step(s, run[0]), run[1..], c);
    }
  }

  /** How often chunk c occurs in the places a chunk can be in: the source free list, in flight, lost on a failed
      post, completed and not polled, polled and not handled, and handed back. */
  ghost function Occurrences(s: State, c: nat): nat {
    Count(s.channel, c) + Count(s.inflight, c) + Count(s.lost, c)
    + Count(N.Chunks(s.n.cq), c) + Count(N.Chunks(s.n.batch), c) + Count(s.n.done, c)
  }

  lemma HeldIsOccurrences(s: State, c: nat)
    requires N.InOrder(s.n)
    ensures Occurrences(s, c) == Held(s, c)
  {
    CountConcat(s.n.done + N.Chunks(s.n.batch), N.Chunks(s.n.cq), c);
    CountConcat(s.n.done, N.Chunks(s.n.batch), c);
  }

  ghost predicate NoRepeats(pool: seq<nat>) {
    forall i, j :: 0 <= i < j < |pool| ==> pool[i] != pool[j]
  }

  lemma {:induction false} CountOne(pool: seq<nat>, c: nat)
    requires NoRepeats(pool)
    ensures Count(pool, c) == if c in pool then 1 else 0
    decreases |pool|
  {
    if |pool| > 0 {
      CountOne(pool[1..], c);
    }
  }

  lemma OnePlace(s0: State, run: seq<Event>, s: State, c: nat)
    requires Legal(s0, run) && NonEmptySends(run) && s0.n == N.Init() && s == Run(s0, run)
    ensures Occurrences(s, c) == Held(s0, c)
  {
    assert N.Accounted(s0.n);
    RunHeld(s0, run, c);
    HeldIsOccurrences(s, c);
  }

  /** Conservation: in every reachable state of a run without empty sends, each chunk of the pool is in exactly one
      place, exactly once, and there is nothing else. */
  lemma EachChunkInOnePlace(chunkSize: nat, pool: seq<nat>, s0: State, run: seq<Event>, c: nat)
    requires s0 == Init(chunkSize, pool) && NoRepeats(pool)
    requires Legal(s0, run) && NonEmptySends(run)
    ensures Occurrences(Run(s0, run), c) == if c in pool then 1 else 0
  {
    CountOne(pool, c);
    OnePlace(s0, run, Run(s0, run), c);
  }

  /** Chunks the sends of a run take from the pool. */
  ghost function Spent(chunkSize: nat, run: seq<Event>): nat
    requires 0 < chunkSize
    decreases |run|
  {
    if |run| == 0 then 0
    else (if run[0].Send? then Pieces(run[0].bytes, chunkSize) else 0) + Spent(chunkSize, run[1..])
  }

  /** Chunks are handed back to another list than sends take from, so the source list only shrinks: a run can never
      spend more chunks than the pool had at first, however many completed. */
  lemma {:induction false} SourceOnlyShrinks(s: State, run: seq<Event>)
    requires 0 < s.chunkSize && Legal(s, run)
    ensures |Run(s, run).channel| + Spent(s.chunkSize, run) == |s.channel|
    decreases |run|
  {
    if |run| > 0 {
      if run[0].Send? && run[0].bytes == 0 {
        assert Pieces(0, s.chunkSize) == 0;
      }
      SourceOnlyShrinks(Step(s, run[0]), run[1..]);
    }
  }
}
