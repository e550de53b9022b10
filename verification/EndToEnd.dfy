/** The low-latency test from end to end: the client's messages through the receive ring to the server's check. */
module EndToEnd {
  import opened Bytes
  import Bulk
  import Ring
  import RingRun
  import opened TestStream
  import opened TestClient

  /** A run of the receive ring in which the messages after the start-up one are these, the reads return outs, and
      unread messages are left. */
  ghost predicate RingGives(nums: nat, gap: nat, ring: seq<byte>, run: seq<RingRun.Event>, messages: seq<seq<byte>>,
                            outs: seq<seq<byte>>, unread: nat)
  {
    && Ring.IsRing(ring, nums, gap) && RingRun.Legal(RingRun.Init(nums, gap, ring), run)
    && var s := RingRun.Run(RingRun.Init(nums, gap, ring), run);
       s.started && s.sent != [] && s.sent[1..] == messages && s.outs == outs && |s.unread| == unread
  }

  /** End to end: in any legal run of the receive ring fed by the first k messages of the client, what the server's reads
      put together is a beginning of the pattern, so it never runs past a buffer of that size; and once it read all
      messages it is the pattern, fills the buffer, and passes the check. */
  lemma ReadsMakePattern(nums: nat, gap: nat, ring: seq<byte>, run: seq<RingRun.Event>, pattern: seq<byte>, n: nat, k: nat,
                 outs: seq<seq<byte>>, unread: nat)
    requires 0 < n && IsPattern(pattern) && k <= |Bulk.Cut(pattern, n)|
    requires RingGives(nums, gap, ring, run, Bulk.Cut(pattern, n)[..k], outs, unread)
    ensures Flatten(outs) <= pattern && IsPattern(Flatten(outs))
    ensures |Flatten(outs)| == |pattern| ==> Flatten(outs) == pattern
    ensures k == |Bulk.Cut(pattern, n)| && unread == 0 ==> Flatten(outs) == pattern && Fills(outs, |pattern|)
  {
    RingRun.StreamDelivered(nums, gap, ring, run);
    FlattenPrefix(Bulk.Cut(pattern, n), k);
    Bulk.CutIsWhole(pattern, n);
    assert outs[..|outs|] == outs && Bulk.Cut(pattern, n)[..|Bulk.Cut(pattern, n)|] == Bulk.Cut(pattern, n);
  }

  /** Some legal run of a ring of this shape takes these messages behind the start-up one, and its reads return outs, with
      none left unread. */
  ghost predicate RingDelivers(nums: nat, gap: nat, messages: seq<seq<byte>>, outs: seq<seq<byte>>) {
    exists ring, run :: RingGives(nums, gap, ring, run, messages, outs, 0)
  }

  lemma AllRead(nums: nat, gap: nat, pattern: seq<byte>, n: nat, outs: seq<seq<byte>>)
    requires 0 < n && IsPattern(pattern) && RingDelivers(nums, gap, Bulk.Cut(pattern, n), outs)
    ensures Flatten(outs) == pattern && Fills(outs, |pattern|)
  {
    var ring, run :| RingGives(nums, gap, ring, run, Bulk.Cut(pattern, n), outs, 0);
    var parts := Bulk.Cut(pattern, n);
    assert parts[..|parts|] == parts;
    ReadsMakePattern(nums, gap, ring, run, pattern, n, |parts|, outs, 0);
  }

  /** The whole test: where nothing fails at the client and the ring delivers, the server accepts, and has the client's
      pattern. */
  method WholeTest(sender: Sender, n: nat, ts: array<byte>, fates: seq<Fate>, received: array<byte>,
                   outs: seq<seq<byte>>, ghost nums: nat, ghost gap: nat)
    returns (ok: bool)
    requires sender.Idle() && sender.wire == [] && 0 < n <= sender.sendBuf.Length
    requires ts != sender.sendBuf && received != ts && received != sender.sendBuf
    requires 0 < ts.Length == received.Length && ts.Length % 4 == 0 && ts.Length % n == 0 && NothingFails(fates)
    requires RingDelivers(nums, gap, Bulk.Cut(Pattern(ts.Length), n), outs)
    modifies sender, sender.sendBuf, ts, received
    ensures sender.Valid() && sender.Delivered() == Bulk.Cut(ts[..], n)
    ensures ok && received[..] == ts[..] && IsPattern(ts[..])
  {
    ComesWell(sender.JobOf(n, ts.Length, fates));
    var _ := sender.Client(n, ts, fates);
    PatternIsOnly(ts[..]);
    AllRead(nums, gap, ts[..], n, outs);
    ok := Server(outs, received);
    assert received[..] == Flatten(outs);
  }

  // The ring can deliver anything that fits its slots.

  /** A ring of two slots with everything read, whose receives were posted in whole laps. */
  ghost predicate Lapping(s: RingRun.State, gap: nat) {
    && RingRun.Inv(s) && s.nums == 2 && s.gap == gap && s.started && |s.unread| == 0
    && (|s.sent| + |s.posted|) % 2 == 0
  }

  /** Two more receives, if none are left. */
  lemma Posting(s: RingRun.State, gap: nat) returns (run: seq<RingRun.Event>)
    requires Lapping(s, gap)
    ensures RingRun.Legal(s, run) && Lapping(RingRun.Run(s, run), gap)
    ensures var s' := RingRun.Run(s, run); |s'.posted| > 0 && s'.sent == s.sent && s'.outs == s.outs
  {
    if |s.posted| == 0 {
      RingRun.StepKeeps(s, RingRun.Post(2));
      RingRun.LegalOne(s, RingRun.Post(2));
      run := [RingRun.Post(2)];
    } else {
      run := [];
    }
  }

  /** One message arrives and is read. */
  lemma Passing(s: RingRun.State, gap: nat, msg: seq<byte>) returns (run: seq<RingRun.Event>)
    requires Lapping(s, gap) && |s.posted| > 0 && |msg| <= gap
    ensures RingRun.Legal(s, run) && Lapping(RingRun.Run(s, run), gap)
    ensures var s' := RingRun.Run(s, run); s'.sent == s.sent + [msg] && s'.outs == s.outs + [msg]
  {
    var arrive, read := RingRun.Arrive(msg), RingRun.Read(1);
    RingRun.StepKeeps(s, arrive);
    var s1 := RingRun.Step(s, arrive);
    RingRun.StepKeeps(s1, read);
    RingRun.GatherIsMessages(s1, 1);
    assert s1.sent[s1.taken..s1.taken + 1] == [msg];
    FlattenOne(msg);
    RingRun.LegalOne(s, arrive);
    RingRun.LegalOne(s1, read);
    RingRun.LegalConcat(s, [arrive], [read]);
    run := [arrive] + [read];
  }

  /** The same, after re-posting where needed. */
  lemma PassingOne(s: RingRun.State, gap: nat, msg: seq<byte>) returns (run: seq<RingRun.Event>, s': RingRun.State)
    requires Lapping(s, gap) && |msg| <= gap
    ensures RingRun.Legal(s, run) && s' == RingRun.Run(s, run) && Lapping(s', gap)
    ensures s'.sent == s.sent + [msg] && s'.outs == s.outs + [msg]
  {
    var post := Posting(s, gap);
    var s1 := RingRun.Run(s, post);
    var pass := Passing(s1, gap, msg);
    RingRun.LegalConcat(s, post, pass);
    run := post + pass;
    s' := RingRun.Run(s1, pass);
  }

  lemma {:induction false} PassingAll(s: RingRun.State, gap: nat, messages: seq<seq<byte>>)
    returns (run: seq<RingRun.Event>, s': RingRun.State)
    requires Lapping(s, gap) && forall i :: 0 <= i < |messages| ==> |messages[i]| <= gap
    ensures RingRun.Legal(s, run) && s' == RingRun.Run(s, run) && |s'.unread| == 0 && s'.started
    ensures s'.sent == s.sent + messages && s'.outs == s.outs + messages
    decreases |messages|
  {
    if |messages| == 0 {
      run, s' := [], s;
    } else {
      var one, s1 := PassingOne(s, gap, messages[0]);
      var rest;
      rest, s' := PassingAll(s1, gap, messages[1..]);
      RingRun.LegalConcat(s, one, rest);
      run := one + rest;
      assert [messages[0]] + messages[1..] == messages;
      ConcatAssoc(s.sent, [messages[0]], messages[1..]);
      ConcatAssoc(s.outs, [messages[0]], messages[1..]);
    }
  }

  /** The start-up message, in a fresh ring of two slots. */
  lemma Starting(gap: nat, ring: seq<byte>) returns (run: seq<RingRun.Event>)
    requires Ring.IsRing(ring, 2, gap)
    ensures RingRun.Legal(RingRun.Init(2, gap, ring), run)
    ensures var s := RingRun.Run(RingRun.Init(2, gap, ring), run); Lapping(s, gap) && |s.sent| == 1 && s.outs == []
  {
    var s0 := RingRun.Init(2, gap, ring);
    var post, arrive, start := RingRun.Post(2), RingRun.Arrive([]), RingRun.StartRemote(1);
    RingRun.InitInv(2, gap, ring);
    RingRun.StepKeeps(s0, post);
    var s1 := RingRun.Step(s0, post);
    RingRun.StepKeeps(s1, arrive);
    var s2 := RingRun.Step(s1, arrive);
    RingRun.StepKeeps(s2, start);
    RingRun.LegalOne(s0, post);
    RingRun.LegalOne(s1, arrive);
    RingRun.LegalOne(s2, start);
    RingRun.LegalConcat(s1, [arrive], [start]);
    RingRun.LegalConcat(s0, [post], [arrive] + [start]);
    run := [post] + ([arrive] + [start]);
  }

  /** Whatever fits the slots is delivered by some legal run of a ring of two slots, a message a read. */
  lemma RingCanDeliver(gap: nat, messages: seq<seq<byte>>)
    requires 0 < gap && forall i :: 0 <= i < |messages| ==> |messages[i]| <= gap
    ensures RingDelivers(2, gap, messages, messages)
  {
    var ring := seq<byte>(Times(2, gap), _ => 0);
    var s0 := RingRun.Init(2, gap, ring);
    var start := Starting(gap, ring);
    var s1 := RingRun.Run(s0, start);
    var rest, s := PassingAll(s1, gap, messages);
    RingRun.LegalConcat(s0, start, rest);
    assert s.sent[1..] == messages && s.outs == [] + messages == messages;
    assert RingGives(2, gap, ring, start + rest, messages, messages, 0);
  }
}
