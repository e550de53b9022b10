/** The transmit completion handler of a worker, run step by step against the device. */
module TxWorker {
  import opened Bytes
  import opened Notify

  /** What the device does around one step of the handler: completions it queues first, and its answers to a poll
      or to a request for notification. */
  datatype Env = Env(burst: seq<Wc>, polled: nat, fails: bool, notifyOk: bool)

  /** Once the script is used up the device is silent and polls answer as much as they can. */
  function Script(env: seq<Env>, k: nat): Env {
    if k < |env| then env[k] else Env([], MAX_COMPLETIONS, false, true)
  }

  /** The number of entries a poll answers: none only from an empty queue, otherwise between 1 and 16. */
  function Brought(wanted: nat, available: nat): (n: nat)
    ensures n <= MAX_COMPLETIONS && n <= available && (n == 0 <==> available == 0)
  {
    if available == 0 then 0
    else if wanted == 0 then 1
    else Least(wanted, Least(MAX_COMPLETIONS, available))
  }

  ghost predicate Traced(s0: State, trace: seq<Event>, s: State) {
    Legal(s0, trace) && Run(s0, trace) == s
  }

  /** The device queues nothing. */
  ghost predicate Silent(env: seq<Env>) {
    forall i :: 0 <= i < |env| ==> env[i].burst == []
  }

  /** Every request for notification succeeds. */
  ghost predicate Rearms(env: seq<Env>) {
    forall i :: 0 <= i < |env| ==> env[i].notifyOk
  }

  ghost predicate AllOk(wcs: seq<Wc>) {
    forall i :: 0 <= i < |wcs| ==> wcs[i].ok
  }

  ghost predicate Requested(trace: seq<Event>) {
    RequestNotify(true) in trace || RequestNotify(false) in trace
  }

  /** The trace of one call of the handler so far: it consumed one event; past the first empty queue it requested
      notification; and from a request that succeeded on the queue is armed or an event waits. */
  ghost predicate InCall(s0: State, trace: seq<Event>, s: State) {
    && Traced(s0, trace, s)
    && trace != [] && trace[0] == GetEvent && GetEvent !in trace[1..]
    && (s.phase.Idle? || s.phase == Drain(true) ==> Requested(trace))
    && (RequestNotify(true) in trace ==> s.armed || s.events > 0)
  }

  lemma InCallSnoc(s0: State, trace: seq<Event>, s: State, e: Event)
    requires InCall(s0, trace, s) && Enabled(s, e) && e != GetEvent
    ensures InCall(s0, trace + [e], Step(s, e))
  {
    TraceSnoc(s0, trace, s, e);
    assert (trace + [e])[1..] == trace[1..] + [e];
  }

  lemma InCallStart(s0: State)
    requires s0.phase.Idle? && s0.events > 0
    ensures InCall(s0, [GetEvent], Step(s0, GetEvent))
  {
    assert Enabled(s0, GetEvent) && Legal(Step(s0, GetEvent), []);
    assert [GetEvent][1..] == [];
  }

  lemma TraceSnoc(s0: State, trace: seq<Event>, s: State, e: Event)
    requires Traced(s0, trace, s) && Enabled(s, e)
    ensures Traced(s0, trace + [e], Step(s, e))
  {
    RunSnoc(s0, trace, e);
  }

  class Worker {
    var armed: bool         // device side of tx_cq
    var events: nat         // device side of tx_cc
    var cq: seq<Wc>
    var unacked: nat        // cq_events_that_need_ack
    var acked: nat
    var sendFree: seq<nat>  // the free list chunks are handed back to
    ghost var got: nat
    ghost var pushed: seq<nat>

    constructor ()
      ensures View(Idle, []) == Init()
    {
      armed, events, cq, unacked, acked, sendFree, got, pushed := true, 0, [], 0, 0, [], 0, [];
    }

    /** The state of the protocol, given where the handler is. */
    ghost function View(phase: Phase, batch: seq<Wc>): State
      reads this
    {
      State(armed, events, cq, phase, batch, sendFree, unacked, acked, got, pushed)
    }

    /** The device queues completions while the handler is between two steps. */
    method Interfere(burst: seq<Wc>, ghost s0: State, ghost trace: seq<Event>, ghost phase: Phase)
      returns (ghost trace': seq<Event>)
      requires InCall(s0, trace, View(phase, []))
      modifies this`armed, this`events, this`cq, this`pushed
      ensures InCall(s0, trace', View(phase, []))
      ensures burst == [] ==> trace' == trace && cq == old(cq) && pushed == old(pushed)
      ensures AllRearmed(trace) ==> AllRearmed(trace')
    {
      trace' := trace;
      for i := 0 to |burst|
        invariant i == 0 ==> trace' == trace && cq == old(cq) && pushed == old(pushed)
        invariant InCall(s0, trace', View(phase, []))
        invariant AllRearmed(trace) ==> AllRearmed(trace')
      {
        InCallSnoc(s0, trace', View(phase, []), Complete(burst[i]));
        trace' := trace' + [Complete(burst[i])];
        cq, pushed := cq + [burst[i]], pushed + [burst[i].chunk];
        if armed {
          events := events + 1;
        }
        armed := false;
      }
    }

    /** get_cq_event: consumes one event, acknowledging them 128 at a time. */
    method GetCqEvent() returns (r: bool)
      modifies this`events, this`got, this`unacked, this`acked
      ensures r == (old(events) > 0)
      ensures View(if r then Drain(false) else Idle, []) == Step(old(View(Idle, [])), GetEvent)
    {
      if events == 0 {
        return false;
      }
      events, got := events - 1, got + 1;
      unacked := unacked + 1;
      if unacked == MAX_ACK_EVENT {
        acked := acked + MAX_ACK_EVENT;
        unacked := 0;
      }
      r := true;
    }

    /** The for loop over one polled batch; r is false if it hit a failed completion. */
    method HandleBatch(wcs: seq<Wc>, ghost s0: State, ghost trace: seq<Event>, ghost rearmed: bool)
      returns (r: bool, ghost trace': seq<Event>, ghost rest: seq<Wc>)
      requires InCall(s0, trace, View(Drain(rearmed), wcs))
      modifies this`sendFree
      ensures r <==> AllOk(wcs)
      ensures InCall(s0, trace', View(if r then Drain(rearmed) else Aborted, rest))
      ensures if r then rest == [] else rest != [] && !rest[0].ok
      ensures AllRearmed(trace) ==> AllRearmed(trace')
    {
      trace', rest := trace, wcs;
      for i := 0 to |wcs|
        invariant forall j :: 0 <= j < i ==> wcs[j].ok
        invariant rest == wcs[i..] && InCall(s0, trace', View(Drain(rearmed), rest))
        invariant AllRearmed(trace) ==> AllRearmed(trace')
      {
        InCallSnoc(s0, trace', View(Drain(rearmed), rest), Handle);
        trace' := trace' + [Handle];
        if !wcs[i].ok {
          return false, trace', rest;
        }
        assert rest[1..] == wcs[i + 1..];
        rest := rest[1..];
        sendFree := sendFree + [wcs[i].chunk];
      }
      r := true;
    }

    /** handle_tx_event. Whatever the device does around its steps, it ends, and what it did is a run of the
        notification protocol: it consumed one event, handed back in order everything that was queued and came in
        meanwhile, requested notification, and saw the queue empty after that; or it hit a failed completion, at which
        the source asserts. */
    method HandleTxEvent(env: seq<Env>) returns (r: bool, ghost trace: seq<Event>)
      modifies this
      ensures r ==> Traced(old(View(Idle, [])), trace, View(Idle, []))
      ensures old(events) == 0 ==> r && View(Idle, []) == old(View(Idle, []))
      ensures old(events) > 0 && r ==>
                && InCall(old(View(Idle, [])), trace, View(Idle, []))
                && trace[|trace| - 1] == Poll(0) && cq == []
                && old(pushed) <= pushed && sendFree == old(sendFree) + Chunks(old(cq)) + pushed[|old(pushed)|..]
                && (RequestNotify(true) in trace ==> Live(View(Idle, [])))
      ensures !r ==> exists rest: seq<Wc> ::
                rest != [] && !rest[0].ok && InCall(old(View(Idle, [])), trace, View(Aborted, rest))
      ensures Rearms(env) ==> AllRearmed(trace)
      ensures old(events) > 0 && Silent(env) && AllOk(old(cq)) ==>
                && r && cq == [] && sendFree == old(sendFree) + Chunks(old(cq))
                && (Rearms(env) ==> Live(View(Idle, [])))
    {
      ghost var s0 := View(Idle, []);
      if events > 0 {
        InCallStart(s0);
      } else {
        TraceSnoc(s0, [], s0, GetEvent);
        assert [] + [GetEvent] == [GetEvent];
      }
      var event := GetCqEvent();
      trace := [GetEvent];
      if !event {
        return true, trace;
      }
      r, trace := DrainTwice(env, s0, trace);
      if r {
        RunFlows(s0, trace);
        assert Flow(s0) == s0.done + Chunks(s0.cq) && Flow(View(Idle, [])) == sendFree;
      }
    }

    /** One poll, and the completions it brings; n is -1 where the poll fails. */
    method PollOnce(now: Env, ghost s0: State, ghost trace: seq<Event>, ghost rearmed: bool)
      returns (r: bool, n: int, ghost trace': seq<Event>)
      requires InCall(s0, trace, View(Drain(rearmed), []))
      modifies this
      ensures r && n != 0 ==> InCall(s0, trace', View(Drain(rearmed), []))
      ensures n == 0 ==>
                && r && InCall(s0, trace', View(if rearmed then Idle else Rearm, []))
                && trace'[|trace'| - 1] == Poll(0) && cq == []
      ensures !r ==> exists rest: seq<Wc> :: rest != [] && !rest[0].ok && InCall(s0, trace', View(Aborted, rest))
      ensures now.burst == [] ==> pushed == old(pushed) && (AllOk(old(cq)) ==> r && AllOk(cq))
      ensures now.burst == [] && !now.fails && n != 0 ==> |cq| < |old(cq)|
      ensures AllRearmed(trace) ==> AllRearmed(trace')
    {
      trace' := Interfere(now.burst, s0, trace, Drain(rearmed));
      if now.fails {
        InCallSnoc(s0, trace', View(Drain(rearmed), []), PollError);
        return true, -1, trace' + [PollError];
      }
      n := Brought(now.polled, |cq|);
      InCallSnoc(s0, trace', View(Drain(rearmed), []), Poll(n));
      trace' := trace' + [Poll(n)];
      if n == 0 {
        return true, 0, trace';
      }
      var wcs := cq[..n];
      cq := cq[n..];
      ghost var rest;
      r, trace', rest := HandleBatch(wcs, s0, trace', rearmed);
    }

    /** The labelled loop: drains, requests notification, and drains again. */
    method DrainTwice(env: seq<Env>, ghost s0: State, ghost trace: seq<Event>) returns (r: bool, ghost trace': seq<Event>)
      requires InCall(s0, trace, View(Drain(false), []))
      modifies this
      ensures r ==> InCall(s0, trace', View(Idle, [])) && trace'[|trace'| - 1] == Poll(0) && cq == []
      ensures !r ==> exists rest: seq<Wc> :: rest != [] && !rest[0].ok && InCall(s0, trace', View(Aborted, rest))
      ensures Silent(env) ==> pushed == old(pushed) && (AllOk(old(cq)) ==> r)
      ensures Rearms(env) && AllRearmed(trace) ==> AllRearmed(trace')
    {
      var rearmed, k := false, 0;
      trace' := trace;
      while true
        invariant InCall(s0, trace', View(Drain(rearmed), []))
        invariant Silent(env) ==> pushed == old(pushed) && (AllOk(old(cq)) ==> AllOk(cq))
        invariant Rearms(env) && AllRearmed(trace) ==> AllRearmed(trace')
        decreases |env| - k, !rearmed, |cq|
      {
        var now := Script(env, k);
        k := if k < |env| then k + 1 else k;
        var n;
        r, n, trace' := PollOnce(now, s0, trace', rearmed);
        if !r {
          return;
        }
        // A failed poll answers -1, and the goto takes that for a non-empty one.
        if n != 0 {
          continue;
        }
        if rearmed {
          return;
        }
        k, trace' := RearmNotify(env, k, s0, trace');
        rearmed := true;
      }
    }

    /** rearm_notify, whose result the handler ignores. */
    method RearmNotify(env: seq<Env>, k: nat, ghost s0: State, ghost trace: seq<Event>)
      returns (k': nat, ghost trace': seq<Event>)
      requires InCall(s0, trace, View(Rearm, []))
      modifies this`armed, this`events, this`cq, this`pushed
      ensures k' == if k < |env| then k + 1 else k
      ensures InCall(s0, trace', View(Drain(true), []))
      ensures Script(env, k).burst == [] ==> cq == old(cq) && pushed == old(pushed)
      ensures Script(env, k).notifyOk && AllRearmed(trace) ==> AllRearmed(trace')
    {
      var now := Script(env, k);
      k' := if k < |env| then k + 1 else k;
      trace' := Interfere(now.burst, s0, trace, Rearm);
      InCallSnoc(s0, trace', View(Rearm, []), RequestNotify(now.notifyOk));
      trace' := trace' + [RequestNotify(now.notifyOk)];
      armed := armed || now.notifyOk;
    }
  }
}
