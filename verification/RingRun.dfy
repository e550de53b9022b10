/** Whole runs of the receive ring: posting, arriving messages, the start-up message and reads, in any order. */
module RingRun {
  import opened Bytes
  import opened Modular
  import opened Ring
  import opened Verbs

  datatype Event =
    | Post(n: nat)            // post_recv
    | Arrive(msg: seq<byte>)  // the device fills the oldest posted slot and queues a completion
    | StartRemote(batch: nat) // start_remote, with the size of the batch its query consumed, failed or not
    | Read(batch: nat)        // read, with the size of the batch its query returned
    | FailedRead(batch: nat)  // read, with the size of the batch its query consumed and then rejected

  datatype State = State(
    nums: nat,
    gap: nat,
    ring: seq<byte>,
    posted: seq<nat>,       // slots of the posted receives, oldest first
    unread: seq<nat>,       // lengths of the messages completed but not polled, oldest first
    recvIndex: nat,
    started: bool,
    outs: seq<seq<byte>>,   // what each read returned
    sent: seq<seq<byte>>,   // history: every message that arrived
    taken: nat)             // history: how many of them were polled

  ghost function Init(nums: nat, gap: nat, ring: seq<byte>): State {
    State(nums, gap, ring, [], [], 0, false, [], [], 0)
  }

  ghost predicate Shape(s: State) {
    && IsRing(s.ring, s.nums, s.gap)
    && s.recvIndex < s.nums
    && Fit(s.unread, s.gap)
    && |s.sent| == s.taken + |s.unread|
    && forall j :: 0 <= j < |s.posted| ==> s.posted[j] < s.nums
  }

  ghost predicate Enabled(s: State, e: Event)
    requires Shape(s)
  {
    match e
    case Post(n) => true
    case Arrive(msg) => s.posted != [] && |msg| <= s.gap
    case StartRemote(batch) => !s.started && batch <= s.nums && batch <= |s.unread|
    case Read(batch) => s.started && 0 < batch <= s.nums && batch <= |s.unread|
    case FailedRead(batch) => s.started && batch <= s.nums && batch <= |s.unread|
  }

  ghost function Step(s: State, e: Event): State
    requires Shape(s) && Enabled(s, e)
  {
    match e
    case Post(n) => s.(posted := s.posted + PostedSlots(if n < POST_LIMIT then n else POST_LIMIT, s.nums))
    case Arrive(msg) =>
      SlotFits(s.posted[0], s.nums, s.gap);
      s.(ring := Splice(s.ring, Times(s.posted[0], s.gap), msg),
         posted := s.posted[1..],
         unread := s.unread + [|msg|],
         sent := s.sent + [msg])
    case StartRemote(batch) =>
      s.(unread := s.unread[batch..], taken := s.taken + batch, recvIndex := s.recvIndex + 1, started := true)
    case Read(batch) =>
      s.(outs := s.outs + [Gather(s.ring, s.nums, s.gap, s.recvIndex, s.unread[..batch])],
         unread := s.unread[batch..],
         taken := s.taken + batch,
         recvIndex := (s.recvIndex + batch) % s.nums)
    case FailedRead(batch) =>
      s.(outs := s.outs + [[]], unread := s.unread[batch..], taken := s.taken + batch)
  }

  /** Unread message j is still, byte for byte, in its slot. */
  ghost predicate InSlot(s: State, j: nat)
    requires Shape(s) && j < |s.unread|
  {
    && s.unread[j] == |s.sent[s.taken + j]|
    && Slot(s.ring, s.nums, s.gap, (s.taken + j) % s.nums, s.unread[j]) == s.sent[s.taken + j]
  }

  /** Nothing is lost: recvIndex names the oldest unread message, every unread one is in its slot, and
      the reads returned exactly the messages polled after the start-up one. */
  ghost predicate Inv(s: State) {
    && Shape(s)
    && s.recvIndex == s.taken % s.nums
    && (forall j :: 0 <= j < |s.posted| ==> s.posted[j] == (|s.sent| + j) % s.nums)
    && (forall j :: 0 <= j < |s.unread| ==> InSlot(s, j))
    && (if s.started then 1 <= s.taken && Flatten(s.outs) == Flatten(s.sent[1..s.taken]) else s.taken == 0 && s.outs == [])
  }

  /** The first n messages are empty. */
  ghost predicate AllEmpty(lens: seq<nat>, n: nat) {
    forall j :: 0 <= j < n && j < |lens| ==> lens[j] == 0
  }

  /** The guards a caller can check: re-post only after whole laps, keep at most nums messages unread, and take the
      start-up message alone; and what a failed query may have consumed. */
  ghost predicate Guard(s: State, e: Event)
    requires Shape(s)
  {
    match e
    case Post(n) => n == 0 || (|s.sent| + |s.posted|) % s.nums == 0
    case Arrive(msg) => |s.unread| < s.nums
    case StartRemote(batch) => batch == 1 && 1 < s.nums
    case Read(batch) => true
    case FailedRead(batch) => (batch == 0 || batch == s.nums) && AllEmpty(s.unread, batch)
  }

  // What each step does to the invariant.

  /** Re-posting keeps the invariant exactly when the receives posted so far make whole laps of the ring. */
  lemma PostKeepsIff(s: State, n: nat)
    requires Inv(s)
    ensures Inv(Step(s, Post(n))) <==> Guard(s, Post(n))
  {
    var s' := Step(s, Post(n));
    var total := |s.sent| + |s.posted|;
    forall j | 0 <= j < |s.unread|
      ensures InSlot(s', j)
    {
      assert InSlot(s, j);
    }
    if n > 0 {
      assert s'.posted[|s.posted|] == 0 % s.nums;
      ModOnce(0, s.nums);
      if total % s.nums == 0 {
        forall j | 0 <= j < |s'.posted|
          ensures s'.posted[j] == (|s.sent| + j) % s.nums
        {
          if j >= |s.posted| {
            ModPlus(total, j - |s.posted|, s.nums);
          }
        }
      }
    }
  }

  /** Writing one slot leaves the contents of every other slot alone. */
  lemma OtherSlot(ring: seq<byte>, nums: nat, gap: nat, at: nat, msg: seq<byte>, other: nat, n: nat)
    requires IsRing(ring, nums, gap) && at < nums && |msg| <= gap && other < nums && other != at && n <= gap
    ensures Times(at, gap) + |msg| <= |ring|
    ensures Slot(Splice(ring, Times(at, gap), msg), nums, gap, other, n) == Slot(ring, nums, gap, other, n)
  {
    SlotFits(at, nums, gap);
    SlotFits(other, nums, gap);
    if at < other {
      TimesMono(at + 1, other, gap);
      assert Times(at, gap) + |msg| <= Times(other, gap);
    } else {
      TimesMono(other + 1, at, gap);
      assert Times(other, gap) + n <= Times(at, gap);
    }
    SpliceApart(ring, Times(at, gap), msg, Times(other, gap), Times(other, gap) + n);
  }

  /** The slot the next message goes to holds nothing that is still unread. */
  ghost predicate Spare(s: State)
    requires Shape(s)
  {
    forall j :: 0 <= j < |s.unread| && (s.taken + j) % s.nums == |s.sent| % s.nums ==> s.unread[j] == 0
  }

  lemma SlotFree(s: State)
    requires Shape(s) && |s.unread| < s.nums
    ensures Spare(s)
  {
    forall j | 0 <= j < |s.unread|
      ensures (s.taken + j) % s.nums == |s.sent| % s.nums ==> s.unread[j] == 0
    {
      SlotsApart(s.taken + j, |s.unread| - j, |s.sent|, s.nums);
    }
  }

  lemma SlotsApart(k: nat, d: nat, next: nat, nums: nat)
    requires 0 < d < nums && next == k + d
    ensures k % nums != next % nums
  {
    ModApart(k, d, nums);
  }

  lemma ArriveInSlot(s: State, msg: seq<byte>, j: nat)
    requires Inv(s) && Enabled(s, Arrive(msg)) && Spare(s) && j < |s.unread|
    ensures InSlot(Step(s, Arrive(msg)), j)
  {
    var at := s.posted[0];
    assert InSlot(s, j);
    assert at == (|s.sent| + 0) % s.nums;
    if s.unread[j] > 0 {
      OtherSlot(s.ring, s.nums, s.gap, at, msg, (s.taken + j) % s.nums, s.unread[j]);
    }
  }

  lemma ArriveInOwnSlot(s: State, msg: seq<byte>)
    requires Inv(s) && Enabled(s, Arrive(msg))
    ensures InSlot(Step(s, Arrive(msg)), |s.unread|)
  {
    SlotFits(s.posted[0], s.nums, s.gap);
    assert s.posted[0] == (|s.sent| + 0) % s.nums;
    assert s.taken + |s.unread| == |s.sent|;
  }

  /** An arrival takes a slot nobody needs. */
  lemma ArriveKeeps(s: State, msg: seq<byte>)
    requires Inv(s) && Enabled(s, Arrive(msg)) && Spare(s)
    ensures Inv(Step(s, Arrive(msg)))
  {
    var s' := Step(s, Arrive(msg));
    ArriveKeepsRest(s, msg);
    forall j | 0 <= j < |s'.unread|
      ensures InSlot(s', j)
    {
      if j < |s.unread| {
        ArriveInSlot(s, msg, j);
      } else {
        ArriveInOwnSlot(s, msg);
      }
    }
  }

  lemma ArriveKeepsRest(s: State, msg: seq<byte>)
    requires Inv(s) && Enabled(s, Arrive(msg))
    ensures var s' := Step(s, Arrive(msg));
            && Shape(s')
            && (forall j :: 0 <= j < |s'.posted| ==> s'.posted[j] == (|s'.sent| + j) % s.nums)
            && (s.started ==> s'.sent[1..s'.taken] == s.sent[1..s.taken])
  {
    var s' := Step(s, Arrive(msg));
    SlotFits(s.posted[0], s.nums, s.gap);
    forall j | 0 <= j < |s'.posted|
      ensures s'.posted[j] == (|s'.sent| + j) % s.nums
    {
      assert s'.posted[j] == s.posted[j + 1];
    }
  }

  lemma FirstInSlot(ring: seq<byte>, nums: nat, gap: nat, at: nat, msg: seq<byte>, n: nat)
    requires IsRing(ring, nums, gap) && at < nums && 0 < |msg| <= gap && 0 < n <= gap
    ensures Times(at, gap) + |msg| <= |ring|
    ensures Slot(Splice(ring, Times(at, gap), msg), nums, gap, at, n)[0] == msg[0]
  {
    SlotFits(at, nums, gap);
    assert Splice(ring, Times(at, gap), msg)[Times(at, gap)] == msg[0];
  }

  /** Otherwise some message destroys the unread one in that slot. */
  lemma ArriveClobbers(s: State, j: nat) returns (msg: seq<byte>)
    requires Inv(s) && s.posted != [] && j < |s.unread|
    requires (s.taken + j) % s.nums == |s.sent| % s.nums && s.unread[j] > 0
    ensures Enabled(s, Arrive(msg)) && !Inv(Step(s, Arrive(msg)))
  {
    var lost := s.sent[s.taken + j];
    assert InSlot(s, j);
    msg := [if lost[0] == 0 then 1 else 0];
    var s' := Step(s, Arrive(msg));
    var at := s.posted[0];
    assert at == (|s.sent| + 0) % s.nums;
    FirstInSlot(s.ring, s.nums, s.gap, at, msg, s.unread[j]);
    assert !InSlot(s', j);
  }

  ghost predicate AnyArrivalSafe(s: State)
    requires Shape(s)
  {
    forall msg :: Enabled(s, Arrive(msg)) ==> Inv(Step(s, Arrive(msg)))
  }

  /** The next message is safe whatever it holds exactly when the unread messages in its slot, if any, are empty. */
  lemma ArriveSafeIff(s: State)
    requires Inv(s) && s.posted != []
    ensures AnyArrivalSafe(s) <==> Spare(s)
  {
    if Spare(s) {
      forall msg | Enabled(s, Arrive(msg))
        ensures Inv(Step(s, Arrive(msg)))
      {
        ArriveKeeps(s, msg);
      }
    } else {
      var j :| 0 <= j < |s.unread| && (s.taken + j) % s.nums == |s.sent| % s.nums && s.unread[j] > 0;
      var msg := ArriveClobbers(s, j);
    }
  }

  /** Messages that lie in consecutive slots are gathered in order. */
  lemma {:induction false} GatherMessages(ring: seq<byte>, nums: nat, gap: nat, base: nat, lens: seq<nat>, msgs: seq<seq<byte>>)
    requires IsRing(ring, nums, gap) && Fit(lens, gap) && |lens| == |msgs|
    requires forall k :: 0 <= k < |lens| ==> Slot(ring, nums, gap, (base + k) % nums, lens[k]) == msgs[k]
    ensures Gather(ring, nums, gap, base % nums, lens) == Flatten(msgs)
    decreases |lens|
  {
    if |lens| > 0 {
      NextSlot(base, nums);
      forall k | 0 <= k < |lens| - 1
        ensures Slot(ring, nums, gap, (base + 1 + k) % nums, lens[1..][k]) == msgs[1..][k]
      {
        assert base + 1 + k == base + (k + 1);
      }
      assert base + 0 == base;
      GatherMessages(ring, nums, gap, base + 1, lens[1..], msgs[1..]);
    }
  }

  /** Gathering the first b unread messages from their slots gives their concatenation. */
  lemma GatherIsMessages(s: State, b: nat)
    requires Inv(s) && b <= |s.unread|
    ensures Gather(s.ring, s.nums, s.gap, s.recvIndex, s.unread[..b]) == Flatten(s.sent[s.taken..s.taken + b])
  {
    var lens, msgs := s.unread[..b], s.sent[s.taken..s.taken + b];
    forall k | 0 <= k < b
      ensures Slot(s.ring, s.nums, s.gap, (s.taken + k) % s.nums, lens[k]) == msgs[k]
    {
      assert InSlot(s, k);
    }
    GatherMessages(s.ring, s.nums, s.gap, s.taken, lens, msgs);
  }

  lemma NextSlot(k: nat, nums: nat)
    requires 0 < nums
    ensures Next(k % nums, nums) == (k + 1) % nums
  {
    ModPlus(k, 1, nums);
    ModOnce(k % nums + 1, nums);
  }

  lemma UnreadAfter(s: State, batch: nat, s': State)
    requires Inv(s) && batch <= |s.unread| && Shape(s')
    requires s'.ring == s.ring && s'.nums == s.nums && s'.gap == s.gap && s'.sent == s.sent
    requires s'.unread == s.unread[batch..] && s'.taken == s.taken + batch
    ensures forall j :: 0 <= j < |s'.unread| ==> InSlot(s', j)
  {
    forall j | 0 <= j < |s'.unread|
      ensures InSlot(s', j)
    {
      assert InSlot(s, batch + j);
      assert s'.taken + j == s.taken + (batch + j);
    }
  }

  lemma ReadKeeps(s: State, batch: nat)
    requires Inv(s) && Enabled(s, Read(batch))
    ensures Inv(Step(s, Read(batch)))
  {
    var s' := Step(s, Read(batch));
    UnreadAfter(s, batch, s');
    ModPlus(s.taken, batch, s.nums);
    GatherIsMessages(s, batch);
    FlattenSnoc(s.outs, Gather(s.ring, s.nums, s.gap, s.recvIndex, s.unread[..batch]));
    FlattenConcat(s.sent[1..s.taken], s.sent[s.taken..s.taken + batch]);
    assert s.sent[1..s.taken] + s.sent[s.taken..s.taken + batch] == s.sent[1..s.taken + batch];
  }

  /** start_remote parses one message of the batch it polled and steps one slot: right exactly for a batch of one
      (in a ring of more than one slot). */
  lemma StartRemoteKeepsIff(s: State, batch: nat)
    requires Inv(s) && Enabled(s, StartRemote(batch))
    ensures Inv(Step(s, StartRemote(batch))) <==> Guard(s, StartRemote(batch))
  {
    var s' := Step(s, StartRemote(batch));
    ModOnce(0, s.nums);
    ModOnce(batch, s.nums);
    if Guard(s, StartRemote(batch)) {
      UnreadAfter(s, batch, s');
      assert s.sent[1..s'.taken] == [];
    }
  }

  /** A query that fails on a completion has consumed its batch, and read returns 0 and stays where it is: right exactly
      if it consumed nothing, or a whole lap of empty messages. */
  lemma FailedReadKeepsIff(s: State, batch: nat)
    requires Inv(s) && Enabled(s, FailedRead(batch))
    ensures Inv(Step(s, FailedRead(batch))) <==> Guard(s, FailedRead(batch))
  {
    var s' := Step(s, FailedRead(batch));
    ModApart(s.taken, batch, s.nums);
    FlattenSnoc(s.outs, []);
    assert Flatten(s'.outs) == Flatten(s.outs);
    NothingLostIff(s, batch);
    UnreadAfter(s, batch, s');
  }

  /** What the reads returned is still everything taken exactly if the messages lost were empty. */
  lemma NothingLostIff(s: State, batch: nat)
    requires Inv(s) && s.started && batch <= |s.unread|
    ensures Flatten(s.sent[1..s.taken]) == Flatten(s.sent[1..s.taken + batch]) <==> AllEmpty(s.unread, batch)
  {
    var lost := s.sent[s.taken..s.taken + batch];
    FlattenConcat(s.sent[1..s.taken], lost);
    assert s.sent[1..s.taken] + lost == s.sent[1..s.taken + batch];
    forall j | 0 <= j < batch
      ensures |lost[j]| == s.unread[j]
    {
      assert InSlot(s, j);
    }
    FlattenEmptyIff(lost);
    assert AllEmpty(s.unread, batch) <==> forall j :: 0 <= j < |lost| ==> |lost[j]| == 0;
  }

  lemma StepKeeps(s: State, e: Event)
    requires Inv(s) && Enabled(s, e) && Guard(s, e)
    ensures Inv(Step(s, e))
  {
    match e
    case Post(n) => PostKeepsIff(s, n);
    case Arrive(msg) =>
      SlotFree(s);
      ArriveKeeps(s, msg);
    case StartRemote(batch) => StartRemoteKeepsIff(s, batch);
    case Read(batch) => ReadKeeps(s, batch);
    case FailedRead(batch) => FailedReadKeepsIff(s, batch);
  }

  // Whole runs.

  /** Every event is enabled and guarded where it happens. */
  ghost predicate Legal(s: State, run: seq<Event>)
    decreases |run|
  {
    |run| == 0 || (Shape(s) && Enabled(s, run[0]) && Guard(s, run[0]) && Legal(Step(s, run[0]), run[1..]))
  }

  ghost function Run(s: State, run: seq<Event>): State
    requires Legal(s, run)
    decreases |run|
  {
    if |run| == 0 then s else Run(Step(s, run[0]), run[1..])
  }

  lemma LegalOne(s: State, e: Event)
    requires Shape(s) && Enabled(s, e) && Guard(s, e)
    ensures Legal(s, [e]) && Run(s, [e]) == Step(s, e)
  {
    assert Legal(Step(s, e), [e][1..]);
  }

  lemma {:induction false} LegalConcat(s: State, a: seq<Event>, b: seq<Event>)
    requires Legal(s, a) && Legal(Run(s, a), b)
    ensures Legal(s, a + b) && Run(s, a + b) == Run(Run(s, a), b)
    decreases |a|
  {
    if |a| == 0 {
      assert a + b == b;
    } else {
      assert (a + b)[1..] == a[1..] + b;
      LegalConcat(Step(s, a[0]), a[1..], b);
    }
  }

  lemma InitInv(nums: nat, gap: nat, ring: seq<byte>)
    requires IsRing(ring, nums, gap)
    ensures Inv(Init(nums, gap, ring))
  {
    ModOnce(0, nums);
  }

  lemma {:induction false} RunKeeps(s: State, run: seq<Event>)
    requires Inv(s) && Legal(s, run)
    ensures Inv(Run(s, run))
    decreases |run|
  {
    if |run| > 0 {
      StepKeeps(s, run[0]);
      RunKeeps(Step(s, run[0]), run[1..]);
    }
  }

  /** Stream delivery: after any legal run of a fresh session, what the reads returned, followed by what a read of
      everything unread would return, is all the messages after the start-up one, whole and in order. */
  lemma StreamDelivered(nums: nat, gap: nat, ring: seq<byte>, run: seq<Event>)
    requires IsRing(ring, nums, gap) && Legal(Init(nums, gap, ring), run)
    ensures var s := Run(Init(nums, gap, ring), run);
            && Shape(s)
            && s.recvIndex == s.taken % nums
            && (s.started ==>
                  && s.sent != []
                  && Flatten(s.outs) + Gather(s.ring, s.nums, s.gap, s.recvIndex, s.unread) == Flatten(s.sent[1..]))
  {
    var s0 := Init(nums, gap, ring);
    InitInv(nums, gap, ring);
    RunKeeps(s0, run);
    RunKeepsSize(s0, run);
    var s := Run(s0, run);
    if s.started {
      GatherIsMessages(s, |s.unread|);
      assert s.unread[..|s.unread|] == s.unread;
      FlattenConcat(s.sent[1..s.taken], s.sent[s.taken..]);
      assert s.sent[1..s.taken] + s.sent[s.taken..] == s.sent[1..];
      assert s.sent[s.taken..s.taken + |s.unread|] == s.sent[s.taken..];
    }
  }

  lemma {:induction false} RunKeepsSize(s: State, run: seq<Event>)
    requires Legal(s, run)
    ensures Run(s, run).nums == s.nums && Run(s, run).gap == s.gap
    decreases |run|
  {
    if |run| > 0 {
      RunKeepsSize(Step(s, run[0]), run[1..]);
    }
  }

  // The session of Ring takes these steps.

  /** The session, with the device's queue of posted receives, is in state s. */
  ghost predicate At(session: Session, s: State)
    reads session, session.rbuf
  {
    && session.Valid() && session.recvNums == s.nums && session.gap == s.gap
    && session.rbuf[..] == s.ring && session.posted == s.posted && session.recvIndex == s.recvIndex
  }

  /** The batch is the oldest unread messages, as the device reports them. */
  ghost predicate Reports(s: State, wcs: seq<Completion>) {
    |wcs| <= |s.unread| && Lengths(wcs) == s.unread[..|wcs|]
  }

  method RunPost(session: Session, nums: nat, failAt: nat, ghost s: State) returns (r: int, ghost s': State)
    requires At(session, s) && Shape(s)
    modifies session`posted, session`postedRecv
    ensures s' == Step(s, Post(if failAt < nums then failAt else nums)) && At(session, s')
  {
    r := session.PostRecv(nums, failAt);
    s' := Step(s, Post(if failAt < nums then failAt else nums));
  }

  /** The device's step. */
  method RunArrive(session: Session, msg: seq<byte>, ghost s: State) returns (ghost s': State)
    requires At(session, s) && Shape(s) && Enabled(s, Arrive(msg))
    modifies session`posted, session.rbuf
    ensures s' == Step(s, Arrive(msg)) && At(session, s')
  {
    s' := Step(s, Arrive(msg));
    SlotFits(session.posted[0], session.recvNums, session.gap);
    Put(session.rbuf, Times(session.posted[0], session.gap), msg);
    session.posted := session.posted[1..];
  }

  method RunStartRemote(session: Session, polls: seq<Poll>, stale: nat, ghost s: State)
    returns (len: nat, ghost s': State)
    requires At(session, s) && Shape(s) && Answers(polls)
    requires Reports(s, Consumed(polls)) && Enabled(s, StartRemote(|Consumed(polls)|))
    modifies session`recvIndex
    ensures s' == Step(s, StartRemote(|Consumed(polls)|))
    ensures QueryBatch(RECV_QUEUE, polls) != [] ==> |s.unread| > 0 && len == s.unread[0]
    ensures session.recvIndex == s'.recvIndex
    ensures Guard(s, StartRemote(|Consumed(polls)|)) && Inv(s) ==> At(session, s')
  {
    ghost var wcs := Consumed(polls);
    len := session.StartRemote(polls, stale);
    if QueryBatch(RECV_QUEUE, polls) != [] {
      assert Lengths(wcs)[0] == s.unread[0];
    }
    s' := Step(s, StartRemote(|wcs|));
    if Inv(s) {
      ModOnce(0, s.nums);
    }
  }

  /** A read whose query fails: nothing is copied, and what the query consumed is gone. */
  method RunFailedRead(session: Session, flag: int, polls: seq<Poll>, dest: array<byte>, at: nat, ghost s: State)
    returns (size: nat, ghost s': State)
    requires At(session, s) && Shape(s) && (flag == SEND_QUEUE || flag == RECV_QUEUE) && Answers(polls)
    requires dest != session.rbuf && at <= dest.Length
    requires forall p :: p in polls && p.Polled? ==> |p.wcs| <= s.nums && Fit(Lengths(p.wcs), s.gap)
    requires QueryBatch(flag, polls) == [] && Reports(s, Consumed(polls)) && Enabled(s, FailedRead(|Consumed(polls)|))
    modifies dest, session`recvIndex, session`postedRecv
    ensures s' == Step(s, FailedRead(|Consumed(polls)|)) && At(session, s')
    ensures size == 0 && dest[..] == old(dest[..])
  {
    s' := Step(s, FailedRead(|Consumed(polls)|));
    size := session.Read(flag, polls, dest, at);
    SmallRemainder(s.recvIndex, s.nums);
  }

  method RunRead(session: Session, flag: int, polls: seq<Poll>, dest: array<byte>, at: nat, ghost s: State)
    returns (size: nat, ghost s': State)
    requires At(session, s) && Shape(s) && (flag == SEND_QUEUE || flag == RECV_QUEUE) && Answers(polls)
    requires dest != session.rbuf && forall p :: p in polls && p.Polled? ==> |p.wcs| <= s.nums && Fit(Lengths(p.wcs), s.gap)
    requires QueryBatch(flag, polls) != [] && Reports(s, QueryBatch(flag, polls))
    requires Enabled(s, Read(|QueryBatch(flag, polls)|))
    requires at + |Gather(s.ring, s.nums, s.gap, s.recvIndex, s.unread[..|QueryBatch(flag, polls)|])| <= dest.Length
    modifies dest, session`recvIndex, session`postedRecv
    ensures s' == Step(s, Read(|QueryBatch(flag, polls)|)) && At(session, s')
    ensures size == |s'.outs[|s.outs|]| && at + size <= dest.Length
    ensures dest[..] == Splice(old(dest[..]), at, s'.outs[|s.outs|])
  {
    ghost var wcs := QueryBatch(flag, polls);
    size := session.Read(flag, polls, dest, at);
    s' := Step(s, Read(|wcs|));
  }
}
