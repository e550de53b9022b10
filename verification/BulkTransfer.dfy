/** The bulk and low-latency sends of a session, run against a device that executes posted operations in order at
    moments of its own choosing. */
module BulkTransfer {
  import opened Bytes
  import opened Modular
  import opened Bulk
  import opened Counting

  lemma {:induction false} ApplyConcat(remote: seq<byte>, a: seq<Op>, b: seq<Op>)
    requires FitsAll(a + b, |remote|)
    ensures FitsAll(a, |remote|) && FitsAll(b, |remote|)
    ensures ApplyAll(remote, a + b) == ApplyAll(ApplyAll(remote, a), b)
    decreases |b|
  {
    assert forall i :: 0 <= i < |a| ==> (a + b)[i] == a[i];
    assert forall i :: 0 <= i < |b| ==> (a + b)[|a| + i] == b[i];
    if |b| == 0 {
      assert a + b == a;
    } else {
      assert (a + b)[..|a + b| - 1] == a + b[..|b| - 1];
      ApplyConcat(remote, a, b[..|b| - 1]);
    }
  }

  /** The operations ran, the first of those waiting, were executed: they turned memory mem into mem'. */
  ghost predicate Did(waiting: seq<Op>, mem: seq<byte>, ran: seq<Op>, left: seq<Op>, mem': seq<byte>) {
    waiting == ran + left && FitsAll(ran, |mem|) && mem' == ApplyAll(mem, ran)
  }

  lemma DidMore(waiting: seq<Op>, mem: seq<byte>, ran: seq<Op>, left: seq<Op>, mem': seq<byte>,
                more: seq<Op>, left': seq<Op>, mem'': seq<byte>)
    requires Did(waiting, mem, ran, left, mem') && Did(left, mem', more, left', mem'')
    ensures Did(waiting, mem, ran + more, left', mem'')
  {
    ConcatAssoc(ran, more, left');
    assert FitsAll(ran + more, |mem|);
    ApplyConcat(mem, ran, more);
  }

  /** One more, the oldest still waiting. */
  lemma DidOne(waiting: seq<Op>, mem: seq<byte>, ran: seq<Op>, left: seq<Op>, mem': seq<byte>)
    requires Did(waiting, mem, ran, left, mem') && |left| > 0 && FitsOp(left[0], |mem|)
    ensures Did(waiting, mem, ran + [left[0]], left[1..], Apply(mem', left[0]))
  {
    assert (ran + [left[0]])[..|ran|] == ran;
    assert ran + left == ran + [left[0]] + left[1..];
  }

  class Session {
    const t: Table
    const maxCQE: nat
    const sendGap: nat        // the size of the send buffer
    const remote: array<byte> // the peer's memory
    var rdmaIndex: nat
    var pending: seq<Op>      // posted and not executed
    var completed: nat        // executed and not polled
    ghost var posts: seq<Op>  // history: everything posted

    ghost predicate Valid()
      reads this
    {
      && GoodTable(t, remote.Length) && rdmaIndex < |t.raddrs| && 0 < maxCQE
      && FitsAll(pending, remote.Length)
    }

    /** What the device has to do for the session still, and the session to collect. */
    function Waiting(): Queue
      reads this
    {
      Queue(maxCQE, |pending|, completed)
    }

    constructor (table: Table, cqe: nat, buffer: nat, memory: array<byte>)
      requires GoodTable(table, memory.Length) && 0 < cqe
      ensures Valid() && t == table && remote == memory && Waiting() == Queue(cqe, 0, 0) && rdmaIndex == 0
      ensures maxCQE == cqe && sendGap == buffer && posts == []
    {
      t, maxCQE, sendGap, remote := table, cqe, buffer, memory;
      rdmaIndex, pending, completed, posts := 0, [], 0, [];
    }

    /** The device executes the oldest posted operation. */
    method ExecuteOne()
      requires Valid() && pending != []
      modifies remote, this`pending, this`completed
      ensures Valid() && pending == old(pending)[1..] && completed == old(completed) + 1
      ensures remote[..] == Apply(old(remote[..]), old(pending)[0])
    {
      var op := pending[0];
      assert FitsOp(op, remote.Length);
      if op.Write? {
        Put(remote, op.addr, op.data);
      }
      pending, completed := pending[1..], completed + 1;
    }

    /** The device executes up to n posted operations; ran are those. */
    method Execute(n: nat) returns (ghost ran: seq<Op>)
      requires Valid()
      modifies remote, this`pending, this`completed
      ensures Valid() && Did(old(pending), old(remote[..]), ran, pending, remote[..])
      ensures Waiting() == Executed(old(Waiting()), n)
    {
      ran := [];
      var i := 0;
      while i < n && |pending| > 0
        invariant Valid() && Did(old(pending), old(remote[..]), ran, pending, remote[..])
        invariant i <= n && |pending| == |old(pending)| - i && completed == old(completed) + i
        decreases n - i
      {
        DidOne(old(pending), old(remote[..]), ran, pending, remote[..]);
        ran := ran + [pending[0]];
        ExecuteOne();
        i := i + 1;
      }
    }

    /** The same, after ran were executed before. */
    method ExecuteMore(n: nat, ghost waiting: seq<Op>, ghost mem: seq<byte>, ghost ran: seq<Op>)
      returns (ghost ran': seq<Op>)
      requires Valid() && Did(waiting, mem, ran, pending, remote[..])
      modifies remote, this`pending, this`completed
      ensures Valid() && Did(waiting, mem, ran', pending, remote[..])
      ensures Waiting() == Executed(old(Waiting()), n)
    {
      ghost var more := Execute(n);
      DidMore(waiting, mem, ran, old(pending), old(remote[..]), more, pending, remote[..]);
      ran' := ran + more;
    }

    /** rdma_query_cq on the send queue: polls until a poll fails or brings completions. ran are the operations the device
        executed meanwhile, in the order they were posted. */
    method QuerySend(turns: Schedule) returns (r: int, rest: Schedule, ghost ran: seq<Op>)
      requires Valid() && QueryEnds(Waiting(), turns)
      modifies remote, this`pending, this`completed
      ensures Valid() && Answer(r, Waiting(), rest) == Ask(old(Waiting()), turns)
      ensures Did(old(pending), old(remote[..]), ran, pending, remote[..])
    {
      rest, ran := turns, [];
      while true
        invariant Valid() && Did(old(pending), old(remote[..]), ran, pending, remote[..])
        invariant QueryEnds(Waiting(), rest) && Ask(Waiting(), rest) == Ask(old(Waiting()), turns)
        decreases rest
      {
        var turn := if rest.Next? then rest.turn else Turn(|pending|, false, false);
        ran := ExecuteMore(turn.execute, old(pending), old(remote[..]), ran);
        rest := if rest.Next? then rest.later else rest;
        if turn.broken {
          return -1, rest, ran;
        }
        var n := Least(maxCQE, completed);
        if n > 0 {
          completed := completed - n;
          r := if turn.fails then -1 else n;
          return;
        }
      }
    }

    /** rdma: posts one slice to the next table entry, which it leaves behind even if the post fails. */
    method Rdma(data: seq<byte>, accepted: bool) returns (r: int)
      requires Valid() && |data| <= t.gap
      modifies this`rdmaIndex, this`pending, this`posts
      ensures Valid() && rdmaIndex == Entry(t, old(rdmaIndex), 1)
      ensures r == if accepted then 0 else -1
      ensures posts == old(posts) + (if accepted then [WriteTo(t, old(rdmaIndex), data)] else [])
      ensures pending == old(pending) + (if accepted then [WriteTo(t, old(rdmaIndex), data)] else [])
      ensures accepted ==>
                var i := old(rdmaIndex);
                posts == old(posts) + [if t.raddrs[i] != 0 || t.rkeys[i] != 0
                                       then Write(t.raddrs[i], t.rkeys[i], data)
                                       else Write(t.fallback, t.fallbackKey, data)]
    {
      var op := WriteTo(t, rdmaIndex, data);
      EntryIsMod(t, rdmaIndex, 1);
      rdmaIndex := (rdmaIndex + 1) % |t.raddrs|;
      if !accepted {
        return -1;
      }
      pending, posts := pending + [op], posts + [op];
      r := 0;
    }

    /** The first loop of bulk: the slices as (start, length) pairs. regFails is the registration that fails, if any. */
    method Slice(src: seq<byte>, regFails: nat) returns (ok: bool, mems: seq<(nat, nat)>)
      requires 0 < t.gap
      ensures ok <==> regFails >= |Cut(src, t.gap)|
      ensures ok ==> Named(src, mems, Cut(src, t.gap))
    {
      var cursor: nat := 0;
      mems := [];
      ghost var parts: seq<seq<byte>> := [];
      SlicedStart(src, t.gap);
      while cursor < |src|
        invariant |mems| <= regFails && Named(src, mems, parts) && SlicedTo(src, t.gap, parts, cursor)
        decreases |src| - cursor
      {
        var len := if |src| - cursor >= t.gap then t.gap else |src| - cursor;
        SlicedNext(src, t.gap, parts, cursor, len);
        if |mems| == regFails {
          return false, mems;
        }
        mems, parts := mems + [(cursor, len)], parts + [src[cursor..cursor + len]];
        cursor := cursor + len;
      }
      SlicedAll(src, t.gap, parts, cursor);
      ok := true;
    }

    /** The second loop of bulk: posts the slices; r is -1 at the first the device does not accept. */
    method PostAll(src: seq<byte>, mems: seq<(nat, nat)>, postFails: nat, ghost parts: seq<seq<byte>>) returns (r: int)
      requires Valid() && Sized(parts, t.gap) && Named(src, mems, parts)
      modifies this`rdmaIndex, this`pending, this`posts
      ensures Valid()
      ensures r == if postFails < |parts| then -1 else 0
      ensures posts == old(posts) + Writes(t, old(rdmaIndex), parts)[..Least(postFails, |parts|)]
      ensures pending == old(pending) + Writes(t, old(rdmaIndex), parts)[..Least(postFails, |parts|)]
      ensures rdmaIndex == Entry(t, old(rdmaIndex), if postFails < |parts| then postFails + 1 else |parts|)
    {
      ghost var index, ops := rdmaIndex, Writes(t, rdmaIndex, parts);
      assert Entry(t, index, 0) == index;
      var i := 0;
      while i < |mems|
        invariant Valid() && i <= |mems| && i <= postFails
        invariant pending == old(pending) + ops[..i] && posts == old(posts) + ops[..i]
        invariant rdmaIndex == Entry(t, index, i)
        decreases |mems| - i
      {
        EntryPlus(t, index, i, 1);
        var accepted := i != postFails;
        r := Rdma(src[mems[i].0..mems[i].0 + mems[i].1], accepted);
        if r != 0 {
          return -1;
        }
        assert ops[..i + 1] == ops[..i] + [ops[i]];
        i := i + 1;
      }
      r := 0;
    }

    /** The third loop of bulk: counts completions until they are exactly num. answers are what its queries return, in
        order: it ends well exactly if they are positive and come to num, and badly exactly if the last of them is -1.
        The polls of all of them together decide the same. */
    method Collect(num: nat, turns: Schedule) returns (r: int, rest: Schedule, ghost answers: seq<int>, ghost ran: seq<Op>)
      requires Valid() && !Count(Waiting(), num, turns).Spins?
      modifies remote, this`pending, this`completed
      ensures Valid() && r == (if Count(old(Waiting()), num, turns).Done? then 0 else -1)
      ensures Waiting() == Count(old(Waiting()), num, turns).left
      ensures Asked(old(Waiting()), turns, answers, Waiting(), rest)
      ensures Verdict(answers, num, r)
      ensures r == -1 <==> FailsBefore(Polls(old(Waiting()), turns), num)
      ensures Did(old(pending), old(remote[..]), ran, pending, remote[..])
    {
      GivesUpIff(Waiting(), num, turns);
      var ack: int := 0;
      rest, answers, ran := turns, [], [];
      while ack != num
        invariant Valid() && CountsTo(old(Waiting()), turns, num, answers, Waiting(), rest, ack)
        invariant Did(old(pending), old(remote[..]), ran, pending, remote[..])
        decreases Total(Waiting())
      {
        ghost var q, was := Waiting(), rest;
        var tmp;
        tmp, rest, ran := QueryMore(rest, old(pending), old(remote[..]), ran);
        ghost var a := Ask(q, was);
        assert a == Answer(tmp, Waiting(), rest);
        CountsOn(old(Waiting()), turns, num, answers, q, was, ack, a);
        answers := answers + [tmp];
        if tmp == -1 {
          return -1, rest, answers, ran;
        }
        ack := ack + tmp;
      }
      VerdictWell(answers, num);
      r := 0;
    }

    /** A query, after ran were executed before. */
    method QueryMore(turns: Schedule, ghost waiting: seq<Op>, ghost mem: seq<byte>, ghost ran: seq<Op>)
      returns (r: int, rest: Schedule, ghost ran': seq<Op>)
      requires Valid() && QueryEnds(Waiting(), turns) && Did(waiting, mem, ran, pending, remote[..])
      modifies remote, this`pending, this`completed
      ensures Valid() && Answer(r, Waiting(), rest) == Ask(old(Waiting()), turns)
      ensures Did(waiting, mem, ran', pending, remote[..])
    {
      ghost var more;
      r, rest, more := QuerySend(turns);
      DidMore(waiting, mem, ran, old(pending), old(remote[..]), more, pending, remote[..]);
      ran' := ran + more;
    }

    /** Where every slice is registered and posted, the counting ends. */
    ghost predicate BulkEnds(num: nat, regFails: nat, postFails: nat, turns: Schedule)
      requires 0 < maxCQE
      reads this
    {
      regFails >= num && postFails >= num ==> !Count(Posted(Waiting(), num), num, turns).Spins?
    }

    /** bulk. regFails, postFails and deregFails are the calls that fail, if any. A session with nothing outstanding
        always comes to an end; a success leaves outstanding what was. */
    method BulkSend(src: seq<byte>, regFails: nat, postFails: nat, deregFails: nat, turns: Schedule)
      returns (r: int, ghost ran: seq<Op>)
      requires Valid()
      requires Total(Waiting()) == 0 || BulkEnds(|Cut(src, t.gap)|, regFails, postFails, turns)
      modifies remote, this`rdmaIndex, this`pending, this`completed, this`posts
      ensures Valid()
      ensures regFails < |Cut(src, t.gap)| ==>
                && r == -1 && pending == old(pending) && completed == old(completed) && posts == old(posts)
                && rdmaIndex == old(rdmaIndex) && remote[..] == old(remote[..])
      ensures regFails >= |Cut(src, t.gap)| > postFails ==>
                && r == -1 && pending == old(pending) + Writes(t, old(rdmaIndex), Cut(src, t.gap))[..postFails]
                && posts == old(posts) + Writes(t, old(rdmaIndex), Cut(src, t.gap))[..postFails]
                && completed == old(completed) && rdmaIndex == Entry(t, old(rdmaIndex), postFails + 1)
                && remote[..] == old(remote[..])
      ensures regFails >= |Cut(src, t.gap)| && postFails >= |Cut(src, t.gap)| ==>
                var num := |Cut(src, t.gap)|;
                var end := Count(Posted(old(Waiting()), num), num, turns);
                && !end.Spins? && Waiting() == end.left && r == (if end.Done? && deregFails >= num then 0 else -1)
                && posts == old(posts) + Writes(t, old(rdmaIndex), Cut(src, t.gap))
                && rdmaIndex == Entry(t, old(rdmaIndex), num)
                && Did(old(pending) + Writes(t, old(rdmaIndex), Cut(src, t.gap)), old(remote[..]), ran, pending, remote[..])
      ensures r == 0 ==> Total(Waiting()) == Total(old(Waiting()))
      ensures r == 0 && Total(old(Waiting())) == 0 ==>
                remote[..] == After(old(remote[..]), t, old(rdmaIndex), Cut(src, t.gap))
      ensures r == 0 || r == -1
      ensures r == 0 <==> Least(regFails, Least(postFails, deregFails)) >= |Cut(src, t.gap)|
                          && !FailsBefore(Polls(Posted(old(Waiting()), |Cut(src, t.gap)|), turns), |Cut(src, t.gap)|)
      ensures Total(old(Waiting())) == 0 && Sound(turns) ==>
                (r == 0 <==> Least(regFails, Least(postFails, deregFails)) >= |Cut(src, t.gap)|)
      ensures r == 0 && Total(old(Waiting())) == 0 && NoZeros(t) && |Cut(src, t.gap)| <= |t.raddrs| ==>
                forall k: nat :: k < |Cut(src, t.gap)| ==> SliceAt(remote[..], t, old(rdmaIndex), src, k)
    {
      ghost var parts, q, index, mem := Cut(src, t.gap), Waiting(), rdmaIndex, remote[..];
      ghost var before := pending;
      var ok, mems := Slice(src, regFails);
      if !ok {
        return -1, [];
      }
      BulkOutcome(q, |mems|, turns);
      GivesUpIff(Posted(q, |mems|), |mems|, turns);
      r, ran := PostAndCollect(src, mems, postFails, deregFails, turns, parts);
      if r == 0 && Total(q) == 0 {
        assert Total(Waiting()) == 0;
        AllWritten(t, index, parts, mem, before, ran, pending, remote[..]);
        AllSlicesAt(mem, t, index, src);
      }
    }

    /** bulk after its slices are registered. */
    method PostAndCollect(src: seq<byte>, mems: seq<(nat, nat)>, postFails: nat, deregFails: nat, turns: Schedule,
                          ghost parts: seq<seq<byte>>)
      returns (r: int, ghost ran: seq<Op>)
      requires Valid() && Sized(parts, t.gap) && Named(src, mems, parts)
      requires postFails >= |parts| ==> !Count(Posted(Waiting(), |parts|), |parts|, turns).Spins?
      modifies remote, this`rdmaIndex, this`pending, this`completed, this`posts
      ensures Valid()
      ensures postFails < |parts| ==>
                && r == -1 && pending == old(pending) + Writes(t, old(rdmaIndex), parts)[..postFails]
                && posts == old(posts) + Writes(t, old(rdmaIndex), parts)[..postFails]
                && completed == old(completed) && rdmaIndex == Entry(t, old(rdmaIndex), postFails + 1)
                && remote[..] == old(remote[..])
      ensures postFails >= |parts| ==>
                var end := Count(Posted(old(Waiting()), |parts|), |parts|, turns);
                && !end.Spins? && Waiting() == end.left && r == (if end.Done? && deregFails >= |parts| then 0 else -1)
                && posts == old(posts) + Writes(t, old(rdmaIndex), parts)
                && rdmaIndex == Entry(t, old(rdmaIndex), |parts|)
                && Did(old(pending) + Writes(t, old(rdmaIndex), parts), old(remote[..]), ran, pending, remote[..])
    {
      ghost var ops := Writes(t, rdmaIndex, parts);
      r := PostAll(src, mems, postFails, parts);
      if r != 0 {
        return -1, [];
      }
      assert ops[..|ops|] == ops;
      var counted, _, _, more := Collect(|mems|, turns);
      r, ran := counted, more;
      if r == 0 && deregFails < |mems| {
        r := -1;
      }
    }

    /** latency: one message of the given size. It queries even after a send of size 0, which posts nothing: the query
        must have something to end it. */
    method Latency(message: seq<byte>, accepted: bool, turns: Schedule) returns (r: int, ghost ran: seq<Op>)
      requires Valid()
      requires Refused(|message|, sendGap, accepted) || QueryEnds(Posted(Waiting(), |Sent(message)|), turns)
      modifies remote, this`pending, this`completed, this`posts
      ensures Valid()
      ensures Refused(|message|, sendGap, accepted) ==>
                && r == -1 && pending == old(pending) && completed == old(completed) && posts == old(posts)
                && remote[..] == old(remote[..])
      ensures !Refused(|message|, sendGap, accepted) ==>
                && Waiting() == Ask(Posted(old(Waiting()), |Sent(message)|), turns).left
                && r == (if Ask(Posted(old(Waiting()), |Sent(message)|), turns).r == -1 then -1 else 0)
                && posts == old(posts) + Sent(message)
                && Did(old(pending) + Sent(message), old(remote[..]), ran, pending, remote[..])
      ensures Total(old(Waiting())) == 0 ==> (r == 0 ==> Total(Waiting()) == 0) && remote[..] == old(remote[..])
      ensures !Refused(|message|, sendGap, accepted) && Sound(turns) ==> r == 0
      ensures r == 0 || r == -1
      ensures r == -1 <==> |message| > sendGap || (|message| > 0 && !accepted)
                           || FailsFirst(Polls(Posted(old(Waiting()), |Sent(message)|), turns))
      ensures posts == old(posts) + (if 0 < |message| <= sendGap && accepted then [Message(message)] else [])
    {
      if |message| > sendGap {
        return -1, [];
      }
      if !Refused(|message|, sendGap, accepted) {
        AskFailsIff(Posted(Waiting(), |Sent(message)|), turns);
      }
      var sent := Send(message, accepted);
      if sent != 0 {
        return sent, [];
      }
      ghost var q := Waiting();
      assert q == Posted(old(Waiting()), |Sent(message)|);
      r, ran := Await(turns);
      assert Waiting() == Ask(q, turns).left;
      if Total(old(Waiting())) == 0 {
        OnlyMessages(old(remote[..]), old(pending), message, ran, pending, remote[..]);
      }
    }

    /** latency after its send: one query, whatever it brings. */
    method Await(turns: Schedule) returns (r: int, ghost ran: seq<Op>)
      requires Valid() && QueryEnds(Waiting(), turns)
      modifies remote, this`pending, this`completed
      ensures Valid() && Waiting() == Ask(old(Waiting()), turns).left
      ensures r == if Ask(old(Waiting()), turns).r == -1 then -1 else 0
      ensures Sound(turns) ==> r == 0
      ensures Did(old(pending), old(remote[..]), ran, pending, remote[..])
    {
      if Sound(turns) {
        AskSound(Waiting(), turns);
      }
      var ack, _, more := QuerySend(turns);
      ran := more;
      if ack == -1 {
        return -1, ran;
      }
      r := 0;
    }

    /** One call after the other, up to the first that does not return 0: done of them. From a quiet session every one comes
        to an end, never counting past what it posted, and leaves the session quiet again if it succeeds; so they all
        succeed as long as nothing fails. (latency(0) is not among them: see LatencyEndsIff.) */
    method Calls(calls: seq<Call>) returns (done: nat)
      requires Valid() && Total(Waiting()) == 0
      requires forall i :: 0 <= i < |calls| && calls[i].LatencyCall? ==> |calls[i].message| > 0
      modifies remote, this`rdmaIndex, this`pending, this`completed, this`posts
      ensures Valid() && done <= |calls|
      ensures done == |calls| ==> Total(Waiting()) == 0
      ensures done == |calls| ==> rdmaIndex == Entry(t, old(rdmaIndex), SlicesOf(calls, t.gap))
      ensures done < |calls| ==> !Fine(calls[done], t.gap, sendGap)
    {
      done := 0;
      assert calls[..0] == [] && Entry(t, rdmaIndex, 0) == rdmaIndex;
      while done < |calls|
        invariant done <= |calls| && Valid() && Total(Waiting()) == 0
        invariant rdmaIndex == Entry(t, old(rdmaIndex), SlicesOf(calls[..done], t.gap))
      {
        var r := CallOne(calls[done]);
        if r != 0 {
          return;
        }
        assert calls[..done + 1][..done] == calls[..done];
        EntryPlus(t, old(rdmaIndex), SlicesOf(calls[..done], t.gap), SlicesIn(calls[done], t.gap));
        done := done + 1;
      }
      assert calls[..done] == calls;
    }

    method CallOne(call: Call) returns (r: int)
      requires Valid() && Total(Waiting()) == 0 && (call.LatencyCall? ==> |call.message| > 0)
      modifies remote, this`rdmaIndex, this`pending, this`completed, this`posts
      ensures Valid() && (Fine(call, t.gap, sendGap) ==> r == 0)
      ensures r == 0 ==> Total(Waiting()) == 0 && rdmaIndex == Entry(t, old(rdmaIndex), SlicesIn(call, t.gap))
    {
      match call
      case BulkCall(src, regFails, postFails, deregFails, turns) =>
        var result, _ := BulkSend(src, regFails, postFails, deregFails, turns);
        r := result;
      case LatencyCall(message, accepted, turns) =>
        var result, _ := Latency(message, accepted, turns);
        r := result;
        assert Entry(t, rdmaIndex, 0) == rdmaIndex;
    }

    /** send of what the registered buffer holds: nothing is posted for size 0. */
    method Send(message: seq<byte>, accepted: bool) returns (r: int)
      requires Valid()
      modifies this`pending, this`posts
      ensures Valid() && r == if |message| > 0 && !accepted then -1 else 0
      ensures r == 0 ==> pending == old(pending) + Sent(message) && posts == old(posts) + Sent(message)
      ensures r == 0 ==> Waiting() == Posted(old(Waiting()), |Sent(message)|)
      ensures r != 0 ==> pending == old(pending) && posts == old(posts)
    {
      if |message| == 0 {
        return 0;
      }
      if !accepted {
        return -1;
      }
      pending, posts := pending + Sent(message), posts + Sent(message);
      r := 0;
    }
  }

  /** A call of bulk or latency, with the calls below it that fail, if any. */
  datatype Call =
    | BulkCall(src: seq<byte>, regFails: nat, postFails: nat, deregFails: nat, turns: Schedule)
    | LatencyCall(message: seq<byte>, accepted: bool, turns: Schedule)

  /** Nothing fails in the call, and its message is not too large. */
  ghost predicate Fine(call: Call, gap: nat, sendGap: nat)
    requires 0 < gap
  {
    match call
    case BulkCall(src, regFails, postFails, deregFails, turns) =>
      Sound(turns) && Least(regFails, Least(postFails, deregFails)) >= |Cut(src, gap)|
    case LatencyCall(message, accepted, turns) =>
      Sound(turns) && accepted && |message| <= sendGap
  }

  function SlicesIn(call: Call, gap: nat): nat
    requires 0 < gap
  {
    if call.BulkCall? then |Cut(call.src, gap)| else 0
  }

  function SlicesOf(calls: seq<Call>, gap: nat): nat
    requires 0 < gap
  {
    if |calls| == 0 then 0 else SlicesOf(calls[..|calls| - 1], gap) + SlicesIn(calls[|calls| - 1], gap)
  }

  /** All slices executed are the bulk image. */
  lemma AllWritten(t: Table, index: nat, parts: seq<seq<byte>>, mem: seq<byte>, before: seq<Op>, ran: seq<Op>,
                   left: seq<Op>, mem': seq<byte>)
    requires GoodTable(t, |mem|) && Sized(parts, t.gap) && before == [] && left == []
    requires Did(before + Writes(t, index, parts), mem, ran, left, mem')
    ensures mem' == After(mem, t, index, parts)
  {
    assert before + Writes(t, index, parts) == Writes(t, index, parts) && ran + left == ran;
  }

  /** All slices lie where the table says. */
  lemma AllSlicesAt(mem: seq<byte>, t: Table, index: nat, src: seq<byte>)
    requires GoodTable(t, |mem|)
    ensures NoZeros(t) && |Cut(src, t.gap)| <= |t.raddrs| ==>
              forall k: nat :: k < |Cut(src, t.gap)| ==> SliceAt(After(mem, t, index, Cut(src, t.gap)), t, index, src, k)
  {
    if NoZeros(t) && |Cut(src, t.gap)| <= |t.raddrs| {
      forall k: nat | k < |Cut(src, t.gap)|
        ensures SliceAt(After(mem, t, index, Cut(src, t.gap)), t, index, src, k)
      {
        BulkImageAt(mem, t, index, src, k);
      }
    }
  }

  /** latency gives up before its query: the size is too large, or the device does not take the message. */
  predicate Refused(size: nat, sendGap: nat, accepted: bool) {
    size > sendGap || (size > 0 && !accepted)
  }

  /** What a send of a message posts. */
  function Sent(message: seq<byte>): seq<Op> {
    if |message| > 0 then [Message(message)] else []
  }

  /** latency can come to an end, unless a poll fails, exactly if it does not get to its query, or posted something, or
      something was outstanding before. In particular latency(0) on a quiet session never ends. */
  lemma LatencyEndsIff(message: seq<byte>, sendGap: nat, accepted: bool, q: Queue)
    requires 0 < q.max
    ensures Refused(|message|, sendGap, accepted) || CanAnswer(Posted(q, |Sent(message)|))
        <==> |message| > 0 || Total(q) > 0
  {
    CanAnswerIff(Posted(q, |Sent(message)|));
  }

  /** What a loop that counts the completions of num posts comes to, from a queue in which nothing was outstanding. */
  lemma BulkOutcome(q: Queue, num: nat, turns: Schedule)
    requires 0 < q.max
    ensures Total(q) == 0 ==> !Count(Posted(q, num), num, turns).Spins?
    ensures Total(q) == 0 && Sound(turns) ==> Count(Posted(q, num), num, turns).Done?
    ensures Count(Posted(q, num), num, turns).Done? ==>
              Total(Count(Posted(q, num), num, turns).left) == Total(q)
  {
    CountTakesDue(Posted(q, num), num, turns);
    if Total(q) == 0 {
      CountEnds(Posted(q, num), turns);
    }
    if Sound(turns) {
      CountSound(Posted(q, num), num, turns);
    }
  }

  /** On a quiet session only the message is executed. */
  lemma OnlyMessages(remote: seq<byte>, before: seq<Op>, message: seq<byte>, ran: seq<Op>, left: seq<Op>, remote': seq<byte>)
    requires before == [] && Did(before + Sent(message), remote, ran, left, remote')
    ensures remote' == remote
  {
    forall k | 0 <= k < |ran|
      ensures ran[k].Message?
    {
      assert ran[k] == (before + Sent(message))[k];
    }
    MessagesOnly(remote, ran);
  }

  lemma {:induction false} MessagesOnly(remote: seq<byte>, ops: seq<Op>)
    requires forall k :: 0 <= k < |ops| ==> ops[k].Message?
    ensures FitsAll(ops, |remote|) && ApplyAll(remote, ops) == remote
    decreases |ops|
  {
    if |ops| > 0 {
      MessagesOnly(remote, ops[..|ops| - 1]);
    }
  }

  lemma EntryPlus(t: Table, index: nat, k: nat, n: nat)
    requires 0 < |t.raddrs|
    ensures Entry(t, Entry(t, index, k), n) == Entry(t, index, k + n)
  {
    EntryIsMod(t, index, k);
    EntryIsMod(t, index, k + n);
    EntryIsMod(t, Entry(t, index, k), n);
    ModPlus(index + k, n, |t.raddrs|);
    assert index + k + n == index + (k + n);
  }

  /** The pairs name these parts of the source. */
  ghost predicate Named(src: seq<byte>, mems: seq<(nat, nat)>, parts: seq<seq<byte>>) {
    && |mems| == |parts|
    && forall k :: 0 <= k < |mems| ==>
         mems[k].0 + mems[k].1 <= |src| && src[mems[k].0..mems[k].0 + mems[k].1] == parts[k]
  }

  /** The source is sliced up to cursor: the parts so far, and the slices of the rest behind them. */
  ghost predicate SlicedTo(src: seq<byte>, gap: nat, parts: seq<seq<byte>>, cursor: nat)
    requires 0 < gap
  {
    cursor <= |src| && Cut(src, gap) == parts + Cut(src[cursor..], gap)
  }

  lemma SlicedStart(src: seq<byte>, gap: nat)
    requires 0 < gap
    ensures SlicedTo(src, gap, [], 0)
  {
    assert src[0..] == src;
  }

  lemma SlicedAll(src: seq<byte>, gap: nat, parts: seq<seq<byte>>, cursor: nat)
    requires 0 < gap && SlicedTo(src, gap, parts, cursor) && cursor == |src|
    ensures parts == Cut(src, gap)
  {
    assert src[cursor..] == [];
  }

  lemma SlicedNext(src: seq<byte>, gap: nat, parts: seq<seq<byte>>, cursor: nat, len: nat)
    requires 0 < gap && SlicedTo(src, gap, parts, cursor) && cursor < |src| && len == Least(gap, |src| - cursor)
    ensures |parts| < |Cut(src, gap)|
    ensures cursor + len <= |src| && SlicedTo(src, gap, parts + [src[cursor..cursor + len]], cursor + len)
  {
    CutNext(src, gap, cursor, len);
    ConcatAssoc(parts, [src[cursor..cursor + len]], Cut(src[cursor + len..], gap));
  }
}
