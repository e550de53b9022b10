/** The polling loop over one completion queue, shared by every caller in the prototype. */
module Verbs {

  /** A completion: the id its task was posted with, the number of bytes, and whether it succeeded. */
  datatype Completion = Completion(id: nat, byteLen: nat, ok: bool)

  /** What one poll of the device answers. */
  datatype Poll = PollFailed | Polled(wcs: seq<Completion>)

  const SEND_QUEUE := 1
  const RECV_QUEUE := 2

  ghost predicate AllOk(wcs: seq<Completion>) {
    forall i :: 0 <= i < |wcs| ==> wcs[i].ok
  }

  /** The loop ends: some poll fails or is not empty. */
  ghost predicate Answers(polls: seq<Poll>) {
    exists k :: 0 <= k < |polls| && polls[k] != Polled([])
  }

  /** The first poll that fails or is not empty. */
  ghost function FirstAnswer(polls: seq<Poll>): (p: Poll)
    requires Answers(polls)
    ensures p in polls && p != Polled([])
  {
    if polls[0] != Polled([]) then polls[0] else FirstAnswer(polls[1..])
  }

  /** What a query leaves in wc: the whole batch of the first answer, if every entry of it succeeded. */
  ghost function QueryBatch(flag: int, polls: seq<Poll>): (wcs: seq<Completion>)
    requires flag == SEND_QUEUE || flag == RECV_QUEUE ==> Answers(polls)
    ensures wcs != [] ==> Polled(wcs) in polls && AllOk(wcs)
  {
    if flag != SEND_QUEUE && flag != RECV_QUEUE then []
    else if FirstAnswer(polls).Polled? && AllOk(FirstAnswer(polls).wcs) then FirstAnswer(polls).wcs
    else []
  }

  /** Poll k ends the loop: it fails or is not empty, and all before it are empty. */
  ghost predicate EndsAt(polls: seq<Poll>, k: nat) {
    k < |polls| && polls[k] != Polled([]) && forall i :: 0 <= i < k ==> polls[i] == Polled([])
  }

  /** The poll itself fails, or one of the completions it brings did. */
  ghost predicate Fails(p: Poll) {
    p.PollFailed? || exists i :: 0 <= i < |p.wcs| && !p.wcs[i].ok
  }

  lemma {:induction false} FirstAnswerAt(polls: seq<Poll>, k: nat)
    requires EndsAt(polls, k)
    ensures Answers(polls) && FirstAnswer(polls) == polls[k]
    decreases k
  {
    if k > 0 {
      assert EndsAt(polls[1..], k - 1);
      FirstAnswerAt(polls[1..], k - 1);
    }
  }

  /** A query on either queue gives all of the poll that ends it, or nothing if that fails; it takes what that poll
      brought in any case. */
  lemma QueryBatchIs(flag: int, polls: seq<Poll>, k: nat)
    requires (flag == SEND_QUEUE || flag == RECV_QUEUE) && EndsAt(polls, k)
    ensures Answers(polls)
    ensures Fails(polls[k]) ==> QueryBatch(flag, polls) == []
    ensures !Fails(polls[k]) ==> QueryBatch(flag, polls) == polls[k].wcs
    ensures Consumed(polls) == if polls[k].PollFailed? then [] else polls[k].wcs
  {
    FirstAnswerAt(polls, k);
  }

  /** What a query takes from the completion queue, whether it succeeds or not. */
  ghost function Consumed(polls: seq<Poll>): (wcs: seq<Completion>)
    requires Answers(polls)
  {
    if FirstAnswer(polls).Polled? then FirstAnswer(polls).wcs else []
  }

  /** rdma_query_cq. polls are the answers the device would give, in order; with none that ends the loop, the source
      spins. */
  method QueryCq(flag: int, polls: seq<Poll>) returns (r: int, wcs: seq<Completion>)
    requires flag == SEND_QUEUE || flag == RECV_QUEUE ==> Answers(polls)
    ensures wcs == QueryBatch(flag, polls)
    ensures r == if wcs == [] then -1 else |wcs|
    ensures flag == SEND_QUEUE || flag == RECV_QUEUE ==>
              forall k: nat :: EndsAt(polls, k) ==>
                if Fails(polls[k]) then r == -1 && wcs == []
                else r == |polls[k].wcs| && wcs == polls[k].wcs
    ensures flag != SEND_QUEUE && flag != RECV_QUEUE ==> r == -1 && wcs == []
  {
    if flag != SEND_QUEUE && flag != RECV_QUEUE {
      return -1, [];
    }
    var k := 0;
    while polls[k] == Polled([])
      invariant k < |polls| && Answers(polls[k..])
      invariant FirstAnswer(polls[k..]) == FirstAnswer(polls)
      invariant forall i :: 0 <= i < k ==> polls[i] == Polled([])
      decreases |polls| - k
    {
      assert polls[k..][1..] == polls[k + 1..];
      k := k + 1;
    }
    if polls[k].PollFailed? {
      return -1, [];
    }
    wcs := polls[k].wcs;
    for i := 0 to |wcs|
      invariant forall j :: 0 <= j < i ==> wcs[j].ok
    {
      if !wcs[i].ok {
        return -1, [];
      }
    }
    r := |wcs|;
  }
}
