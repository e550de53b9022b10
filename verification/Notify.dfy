/** The completion notification protocol: a handler that drains, rearms and drains again, against a device
    that may queue a completion between any two of its steps. */
module Notify {
  import opened Bytes

  const MAX_COMPLETIONS: nat := 16
  const MAX_ACK_EVENT: nat := 128

  /** A work completion: the chunk it was posted with and whether it succeeded. */
  datatype Wc = Wc(chunk: nat, ok: bool)

  datatype Phase =
    | Idle                   // outside the handler
    | Drain(rearmed: bool)   // at the label again, with the flag rearmed
    | Rearm                  // the queue was seen empty, about to request notification
    | Aborted                // a failed completion hit assert(0)

  datatype State = State(
    armed: bool,             // the device will raise an event for the next completion
    events: nat,             // events raised and not consumed
    cq: seq<Wc>,             // completions not yet polled
    phase: Phase,
    batch: seq<Wc>,          // polled and not yet handled
    done: seq<nat>,          // chunks handed back, in order
    unacked: nat,            // cq_events_that_need_ack
    acked: nat,              // events acknowledged to the device
    got: nat,                // history: events consumed
    pushed: seq<nat>)        // history: chunks completed, in order

  datatype Event =
    | Complete(wc: Wc)       // device: queue a completion, and raise an event if armed
    | GetEvent               // handler: get_cq_event
    | Poll(n: nat)           // handler: poll_cq answers n entries
    | PollError              // handler: poll_cq answers -1, which the goto treats like a non-empty poll
    | Handle                 // handler: one round of the for loop
    | RequestNotify(ok: bool) // handler: rearm_notify, whose result it ignores

  function Chunks(wcs: seq<Wc>): (r: seq<nat>)
    ensures |r| == |wcs| && forall i :: 0 <= i < |wcs| ==> r[i] == wcs[i].chunk
  {
    seq(|wcs|, i requires 0 <= i < |wcs| => wcs[i].chunk)
  }

  /** After CompletionQueue::init: armed, nothing queued. */
  function Init(): State {
    State(true, 0, [], Idle, [], [], 0, 0, 0, [])
  }

  predicate Enabled(s: State, e: Event) {
    match e
    case Complete(wc) => true
    case GetEvent => s.phase.Idle?
    case Poll(n) =>
      && s.phase.Drain? && s.batch == []
      && n <= MAX_COMPLETIONS && n <= |s.cq| && (n == 0 ==> s.cq == [])
    case PollError => s.phase.Drain? && s.batch == []
    case Handle => s.phase.Drain? && s.batch != []
    case RequestNotify(ok) => s.phase.Rearm?
  }

  function Step(s: State, e: Event): State
    requires Enabled(s, e)
  {
    match e
    case Complete(wc) =>
      s.(cq := s.cq + [wc], pushed := s.pushed + [wc.chunk],
         events := if s.armed then s.events + 1 else s.events, armed := false)
    case GetEvent =>
      if s.events == 0 then s
      else if s.unacked + 1 == MAX_ACK_EVENT then
        s.(events := s.events - 1, got := s.got + 1, phase := Drain(false),
           unacked := 0, acked := s.acked + MAX_ACK_EVENT)
      else
        s.(events := s.events - 1, got := s.got + 1, phase := Drain(false), unacked := s.unacked + 1)
    case Poll(n) =>
      if n > 0 then s.(batch := s.cq[..n], cq := s.cq[n..])
      else s.(phase := if s.phase.rearmed then Idle else Rearm)
    case PollError => s
    case Handle =>
      if s.batch[0].ok then s.(done := s.done + [s.batch[0].chunk], batch := s.batch[1..])
      else s.(phase := Aborted)
    case RequestNotify(ok) => s.(armed := s.armed || ok, phase := Drain(true))
  }

  ghost predicate Legal(s: State, run: seq<Event>)
    decreases |run|
  {
    |run| == 0 || (Enabled(s, run[0]) && Legal(Step(s, run[0]), run[1..]))
  }

  ghost function Run(s: State, run: seq<Event>): State
    requires Legal(s, run)
    decreases |run|
  {
    if |run| == 0 then s else Run(Step(s, run[0]), run[1..])
  }

  lemma {:induction false} RunSnoc(s: State, run: seq<Event>, e: Event)
    requires Legal(s, run) && Enabled(Run(s, run), e)
    ensures Legal(s, run + [e]) && Run(s, run + [e]) == Step(Run(s, run), e)
    decreases |run|
  {
    if |run| > 0 {
      assert (run + [e])[1..] == run[1..] + [e];
      RunSnoc(Step(s, run[0]), run[1..], e);
    }
  }

  /** The prefix of a run but its last event. */
  lemma {:induction false} RunButLast(s: State, run: seq<Event>)
    requires Legal(s, run) && |run| > 0
    ensures Legal(s, run[..|run| - 1]) && Enabled(Run(s, run[..|run| - 1]), run[|run| - 1])
    ensures Run(s, run) == Step(Run(s, run[..|run| - 1]), run[|run| - 1])
    decreases |run|
  {
    if |run| > 1 {
      RunButLast(Step(s, run[0]), run[1..]);
      assert run[..|run| - 1][1..] == run[1..][..|run| - 2];
    }
  }

  // Wake-ups.

  /** A completion can still reach the handler: the queue is empty and armed, or an event is waiting. */
  predicate Live(s: State) {
    (s.armed && s.cq == []) || s.events > 0
  }

  /** No event is waiting and none will be raised. */
  predicate Deaf(s: State) {
    !s.armed && s.events == 0 && (s.phase.Idle? || s.phase == Drain(true) || s.phase.Aborted?)
  }

  /** How arming and events stand in each phase, as long as every request for notification succeeded. */
  predicate Good(s: State) {
    match s.phase
    case Idle => (s.armed && s.events == 0 && s.cq == []) || (!s.armed && s.events == 1)
    case Drain(rearmed) => if rearmed then s.events == (if s.armed then 0 else 1) else !s.armed && s.events == 0
    case Rearm => !s.armed && s.events == 0
    case Aborted => true
  }

  ghost predicate AllRearmed(run: seq<Event>) {
    RequestNotify(false) !in run
  }

  lemma {:induction false} PhaseOfRun(run: seq<Event>)
    requires Legal(Init(), run)
    ensures AllRearmed(run) ==> Good(Run(Init(), run))
    ensures !AllRearmed(run) ==> Deaf(Run(Init(), run)) || Run(Init(), run).phase.Aborted?
    decreases |run|
  {
    if |run| > 0 {
      RunButLast(Init(), run);
      var head := run[..|run| - 1];
      PhaseOfRun(head);
      assert run == head + [run[|run| - 1]];
    }
  }

  /** No lost wake-up, exactly: whenever the handler is idle after a run, a completion can still reach it if and
      only if every request for notification in the run succeeded. */
  lemma NoLostWakeupIff(run: seq<Event>)
    requires Legal(Init(), run) && Run(Init(), run).phase.Idle?
    ensures Live(Run(Init(), run)) <==> AllRearmed(run)
  {
    PhaseOfRun(run);
  }

  /** Once idle and deaf, nothing is handled again, whatever the device does. */
  lemma {:induction false} DeafForever(s: State, run: seq<Event>)
    requires Deaf(s) && s.phase.Idle? && Legal(s, run)
    ensures Deaf(Run(s, run)) && Run(s, run).phase.Idle? && Run(s, run).done == s.done
    decreases |run|
  {
    if |run| > 0 {
      DeafForever(Step(s, run[0]), run[1..]);
    }
  }

  // Nothing lost, nothing handled twice.

  /** Handled, polled and queued completions are, in this order, all that were pushed; and every event consumed
      is acknowledged or among the fewer than 128 waiting to be. */
  predicate Accounted(s: State) {
    && InOrder(s)
    && s.acked + s.unacked == s.got && s.unacked < MAX_ACK_EVENT && s.acked % MAX_ACK_EVENT == 0
    && (s.batch != [] ==> s.phase.Drain? || s.phase.Aborted?)
  }

  lemma ChunksConcat(a: seq<Wc>, b: seq<Wc>)
    ensures Chunks(a + b) == Chunks(a) + Chunks(b)
  {
  }

  lemma Regroup(a: seq<nat>, b: seq<nat>, c: seq<nat>, d: seq<nat>)
    ensures a + (b + c) + d == (a + b) + c + d
    ensures a + [] + (b + c) == a + b + c
    ensures a + b + (c + d) == (a + b + c) + d
  {
  }

  /** Handled, polled and queued chunks, in this order. */
  function Flow(s: State): seq<nat> {
    s.done + Chunks(s.batch) + Chunks(s.cq)
  }

  predicate InOrder(s: State) {
    Flow(s) == s.pushed
  }

  /** Between two states only what was pushed in between joined the flow, at its end. */
  ghost predicate Flows(s: State, s': State) {
    s.pushed <= s'.pushed && Flow(s') == Flow(s) + s'.pushed[|s.pushed|..]
  }

  lemma StepFlows(s: State, e: Event)
    requires Enabled(s, e)
    ensures Flows(s, Step(s, e))
  {
    match e
    case Complete(wc) =>
      ChunksConcat(s.cq, [wc]);
      Regroup(s.done, Chunks(s.batch), Chunks(s.cq), [wc.chunk]);
    case Poll(n) =>
      if n > 0 {
        ChunksConcat(s.cq[..n], s.cq[n..]);
        assert s.cq[..n] + s.cq[n..] == s.cq;
        assert Chunks(s.batch) == [];
        Regroup(s.done, Chunks(s.cq[..n]), Chunks(s.cq[n..]), []);
      }
    case Handle =>
      HandleFlows(s);
    case _ =>
  }

  lemma HandleFlows(s: State)
    requires Enabled(s, Handle)
    ensures Flow(Step(s, Handle)) == Flow(s)
  {
    ChunksConcat(s.batch[..1], s.batch[1..]);
    assert s.batch[..1] + s.batch[1..] == s.batch;
    assert Chunks(s.batch[..1]) == [s.batch[0].chunk];
    Regroup(s.done, [s.batch[0].chunk], Chunks(s.batch[1..]), Chunks(s.cq));
  }

  lemma FlowsOn(s: State, s1: State, s2: State)
    requires Flows(s, s1) && Flows(s1, s2)
    ensures Flows(s, s2)
  {
    var a, b := s1.pushed[|s.pushed|..], s2.pushed[|s1.pushed|..];
    assert s2.pushed[|s.pushed|..] == a + b;
    ConcatAssoc(Flow(s), a, b);
  }

  /** Over any run, whatever happens in it: nothing is lost, repeated or reordered. */
  lemma {:induction false} RunFlows(s: State, run: seq<Event>)
    requires Legal(s, run)
    ensures Flows(s, Run(s, run))
    decreases |run|
  {
    if |run| > 0 {
      StepFlows(s, run[0]);
      RunFlows(Step(s, run[0]), run[1..]);
      FlowsOn(s, Step(s, run[0]), Run(s, run));
    }
  }

  lemma StepAccounted(s: State, e: Event)
    requires Accounted(s) && Enabled(s, e)
    ensures Accounted(Step(s, e))
  {
    StepFlows(s, e);
  }

  lemma {:induction false} RunAccounted(s: State, run: seq<Event>)
    requires Accounted(s) && Legal(s, run)
    ensures Accounted(Run(s, run))
    decreases |run|
  {
    if |run| > 0 {
      StepAccounted(s, run[0]);
      RunAccounted(Step(s, run[0]), run[1..]);
    }
  }

  lemma QuietHandled(s: State)
    requires Good(s) && Accounted(s) && s.phase.Idle? && s.events == 0
    ensures s.done == s.pushed
  {
    assert s.batch == [] && s.cq == [] && Chunks(s.batch) == [] && Chunks(s.cq) == [];
    assert Flow(s) == s.done;
  }

  /** After any run in which every rearm succeeded, an idle handler with no event waiting has handed back every
      chunk that completed, in completion order. */
  lemma QuietMeansAllHandled(run: seq<Event>)
    requires Legal(Init(), run) && AllRearmed(run)
    requires Run(Init(), run).phase.Idle? && Run(Init(), run).events == 0
    ensures Run(Init(), run).done == Run(Init(), run).pushed
  {
    PhaseOfRun(run);
    assert Accounted(Init());
    RunAccounted(Init(), run);
    QuietHandled(Run(Init(), run));
  }

  // The handler comes to an end.

  predicate HandlerStep(e: Event) {
    e.Poll? || e.Handle? || e.RequestNotify?
  }

  /** An upper bound on the steps the handler can still take while the device is silent. */
  function Work(s: State): nat {
    3 * |s.cq| + 2 * |s.batch| + match s.phase
      case Idle => 0
      case Aborted => 0
      case Drain(rearmed) => if rearmed then 1 else 3
      case Rearm => 2
  }

  /** With the device silent and polls answering, the handler takes at most Work steps; and where it can go no
      further it is back to idle with the queue empty, or aborted. */
  lemma {:induction false} HandlerEnds(s: State, run: seq<Event>)
    requires Legal(s, run) && forall i :: 0 <= i < |run| ==> HandlerStep(run[i])
    requires s.phase.Idle? ==> s.batch == []
    requires s.phase.Rearm? ==> s.batch == []
    ensures |run| + Work(Run(s, run)) <= Work(s)
    ensures var s' := Run(s, run);
            (forall e :: HandlerStep(e) ==> !Enabled(s', e)) ==>
              s'.phase.Aborted? || (s'.phase.Idle? && s'.batch == [] && (!s.phase.Idle? ==> s'.cq == []))
    decreases |run|
  {
    if |run| > 0 {
      var s1 := Step(s, run[0]);
      assert Work(s1) < Work(s);
      HandlerEnds(s1, run[1..]);
      if s1.phase.Idle? {
        StuckWhenIdle(s1, run[1..]);
      }
    } else {
      if s.phase.Rearm? {
        assert Enabled(s, RequestNotify(true)) && HandlerStep(RequestNotify(true));
      } else if s.phase.Drain? && s.batch != [] {
        assert Enabled(s, Handle) && HandlerStep(Handle);
      } else if s.phase.Drain? {
        var n := if |s.cq| <= MAX_COMPLETIONS then |s.cq| else MAX_COMPLETIONS;
        assert Enabled(s, Poll(n)) && HandlerStep(Poll(n));
      }
    }
  }

  lemma StuckWhenIdle(s: State, run: seq<Event>)
    requires Legal(s, run) && s.phase.Idle? && forall i :: 0 <= i < |run| ==> HandlerStep(run[i])
    ensures run == []
  {
    if |run| > 0 {
      assert false;
    }
  }
}
