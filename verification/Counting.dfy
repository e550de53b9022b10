/** How bulk and latency wait for their completions: what a query and the counting loop come to, against a device that
    executes posted operations at moments of its own choosing. */
module Counting {
  import opened Bytes
  import opened Modular
  import opened Verbs

  /** What the device does at one poll: how many posted operations it executes before, whether the completions the poll
      brings include one with an error, and whether the poll itself fails. */
  datatype Turn = Turn(execute: nat, fails: bool, broken: bool)

  /** What it does poll after poll. Once the schedule is over it executes everything, and nothing fails. */
  datatype Schedule = Over | Next(turn: Turn, later: Schedule)

  /** A completion queue: the most completions a poll brings, operations posted and not executed, and completions not
      polled. */
  datatype Queue = Queue(max: nat, pending: nat, completed: nat)

  function Total(q: Queue): nat {
    q.pending + q.completed
  }

  function Executed(q: Queue, n: nat): Queue {
    Queue(q.max, q.pending - Least(n, q.pending), q.completed + Least(n, q.pending))
  }

  /** A poll brings all that is completed, up to max. */
  function Brings(q: Queue): nat {
    Least(q.max, q.completed)
  }

  function AfterPoll(q: Queue): Queue {
    Queue(q.max, q.pending, q.completed - Brings(q))
  }

  predicate Unbroken(turns: Schedule) {
    turns.Next? ==> !turns.turn.broken && Unbroken(turns.later)
  }

  /** No poll and no completion fails. */
  predicate Sound(turns: Schedule) {
    turns.Next? ==> !turns.turn.broken && !turns.turn.fails && Sound(turns.later)
  }

  // One query.

  /** The query ends: something can still complete, or a poll fails. */
  ghost predicate QueryEnds(q: Queue, turns: Schedule) {
    Total(q) > 0 || !Unbroken(turns)
  }

  /** What a query returns, and the queue and the turns it leaves. */
  datatype Answer = Answer(r: int, left: Queue, rest: Schedule)

  /** The query run turn by turn: up to a poll that fails or is not empty. A poll brings everything completed by then. */
  ghost function Ask(q: Queue, turns: Schedule): (a: Answer)
    requires 0 < q.max && QueryEnds(q, turns)
    ensures a.left.max == q.max
    ensures a.r == -1 || (0 < a.r <= q.max && Total(a.left) == Total(q) - a.r)
    ensures a.r != -1 ==> a.r + a.left.completed >= q.completed && a.r == Least(q.max, a.r + a.left.completed)
    decreases turns
  {
    if turns.Over? then
      Answer(Least(q.max, Total(q)), AfterPoll(Executed(q, q.pending)), Over)
    else
      var q1 := Executed(q, turns.turn.execute);
      if turns.turn.broken then Answer(-1, q1, turns.later)
      else if q1.completed == 0 then Ask(q1, turns.later)
      else Answer(if turns.turn.fails then -1 else Brings(q1), AfterPoll(q1), turns.later)
  }

  /** A query only answers -1 for a failure, and what is left of sound turns is sound. */
  lemma {:induction false} AskSound(q: Queue, turns: Schedule)
    requires 0 < q.max && QueryEnds(q, turns) && Sound(turns)
    ensures Ask(q, turns).r > 0 && Sound(Ask(q, turns).rest)
    decreases turns
  {
    if turns.Next? && Executed(q, turns.turn.execute).completed == 0 {
      AskSound(Executed(q, turns.turn.execute), turns.later);
    }
  }

  const WRITE_ID: nat := 233

  /** n completions, one of them with an error if fails. */
  function Batch(n: nat, fails: bool): (wcs: seq<Completion>)
    ensures |wcs| == n && (n > 0 ==> (AllOk(wcs) <==> !fails))
  {
    var wcs := seq(n, i => Completion(WRITE_ID, 0, i > 0 || !fails));
    assert n > 0 ==> wcs[0].ok == !fails;
    wcs
  }

  /** The polls the device answers over the given turns. */
  ghost function Polls(q: Queue, turns: Schedule): (polls: seq<Poll>)
    ensures polls == [] <==> turns.Over?
    decreases turns
  {
    if turns.Over? then []
    else
      var q1 := Executed(q, turns.turn.execute);
      if turns.turn.broken then [PollFailed] + Polls(q1, turns.later)
      else
        [Verbs.Polled(Batch(Brings(q1), turns.turn.fails))] + Polls(AfterPoll(q1), turns.later)
  }

  /** The query is the polling loop of rdma_query_cq on those polls, and takes what that takes, even if it fails. */
  lemma {:induction false} AskIsQuery(q: Queue, turns: Schedule)
    requires 0 < q.max && Answers(Polls(q, turns))
    ensures QueryEnds(q, turns)
    ensures var wcs := QueryBatch(SEND_QUEUE, Polls(q, turns));
            Ask(q, turns).r == if wcs == [] then -1 else |wcs|
    ensures Total(Ask(q, turns).left) == Total(q) - |Consumed(Polls(q, turns))|
    decreases turns
  {
    var q1 := Executed(q, turns.turn.execute);
    if turns.turn.broken || q1.completed > 0 {
      FirstPollAnswers(q, turns);
    } else {
      FirstPollEmpty(q, turns);
      AskIsQuery(q1, turns.later);
    }
  }

  lemma FirstPollAnswers(q: Queue, turns: Schedule)
    requires 0 < q.max && turns.Next? && QueryEnds(q, turns)
    requires turns.turn.broken || Executed(q, turns.turn.execute).completed > 0
    ensures Answers(Polls(q, turns))
    ensures var wcs := QueryBatch(SEND_QUEUE, Polls(q, turns));
            Ask(q, turns).r == if wcs == [] then -1 else |wcs|
    ensures Total(Ask(q, turns).left) == Total(q) - |Consumed(Polls(q, turns))|
  {
    var polls := Polls(q, turns);
    assert polls[0] != Verbs.Polled([]);
    assert FirstAnswer(polls) == polls[0];
  }

  lemma FirstPollEmpty(q: Queue, turns: Schedule)
    requires 0 < q.max && turns.Next? && Answers(Polls(q, turns))
    requires !turns.turn.broken && Executed(q, turns.turn.execute).completed == 0
    ensures var q1 := Executed(q, turns.turn.execute);
            && Answers(Polls(q1, turns.later))
            && QueryBatch(SEND_QUEUE, Polls(q, turns)) == QueryBatch(SEND_QUEUE, Polls(q1, turns.later))
            && Consumed(Polls(q, turns)) == Consumed(Polls(q1, turns.later))
  {
    EmptyPoll(q, turns);
    LaterAnswers(Polls(q, turns));
  }

  lemma EmptyPoll(q: Queue, turns: Schedule)
    requires turns.Next? && !turns.turn.broken && Executed(q, turns.turn.execute).completed == 0
    ensures |Polls(q, turns)| > 0 && Polls(q, turns)[0] == Verbs.Polled([])
    ensures Polls(q, turns)[1..] == Polls(Executed(q, turns.turn.execute), turns.later)
  {
    var q1 := Executed(q, turns.turn.execute);
    assert AfterPoll(q1) == q1;
    assert Batch(0, turns.turn.fails) == [];
  }

  lemma LaterAnswers(polls: seq<Poll>)
    requires Answers(polls) && polls[0] == Verbs.Polled([])
    ensures Answers(polls[1..]) && QueryBatch(SEND_QUEUE, polls) == QueryBatch(SEND_QUEUE, polls[1..])
    ensures Consumed(polls) == Consumed(polls[1..])
  {
    var k :| 0 <= k < |polls| && polls[k] != Verbs.Polled([]);
    assert polls[1..][k - 1] == polls[k];
  }

  // What decides the result of a query, on the polls alone.

  /** The poll that ends a query fails. */
  ghost predicate FailsFirst(polls: seq<Poll>) {
    exists k: nat :: EndsAt(polls, k) && Fails(polls[k])
  }

  lemma FailsFirstLater(polls: seq<Poll>)
    requires |polls| > 0 && polls[0] == Verbs.Polled([])
    ensures FailsFirst(polls) <==> FailsFirst(polls[1..])
  {
    if FailsFirst(polls) {
      var k: nat :| EndsAt(polls, k) && Fails(polls[k]);
      assert EndsAt(polls[1..], k - 1) && polls[1..][k - 1] == polls[k];
    }
    if FailsFirst(polls[1..]) {
      var k: nat :| EndsAt(polls[1..], k) && Fails(polls[1..][k]);
      assert EndsAt(polls, k + 1);
    }
  }

  lemma FailsFirstNow(polls: seq<Poll>)
    requires |polls| > 0 && polls[0] != Verbs.Polled([])
    ensures FailsFirst(polls) <==> Fails(polls[0])
  {
    assert EndsAt(polls, 0);
  }

  /** A query answers -1 exactly if the poll that ends it fails, or brings a completion that did. */
  lemma {:induction false} AskFailsIff(q: Queue, turns: Schedule)
    requires 0 < q.max && QueryEnds(q, turns)
    ensures Ask(q, turns).r == -1 <==> FailsFirst(Polls(q, turns))
    decreases turns
  {
    if turns.Next? {
      var q1 := Executed(q, turns.turn.execute);
      if turns.turn.broken || q1.completed > 0 {
        FailsFirstNow(Polls(q, turns));
      } else {
        EmptyPoll(q, turns);
        FailsFirstLater(Polls(q, turns));
        AskFailsIff(q1, turns.later);
      }
    }
  }

  /** With nothing posted and nothing completed every poll is empty. */
  lemma {:induction false} NothingAnswers(max: nat, turns: Schedule)
    requires Unbroken(turns)
    ensures !Answers(Polls(Queue(max, 0, 0), turns))
    decreases turns
  {
    if turns.Next? {
      NothingAnswers(max, turns.later);
      EmptyPoll(Queue(max, 0, 0), turns);
      if Answers(Polls(Queue(max, 0, 0), turns)) {
        LaterAnswers(Polls(Queue(max, 0, 0), turns));
      }
    }
  }

  /** Some schedule of a device whose polls do not fail lets the query end. */
  ghost predicate CanAnswer(q: Queue) {
    exists turns :: Unbroken(turns) && Answers(Polls(q, turns))
  }

  lemma CanAnswerIff(q: Queue)
    requires 0 < q.max
    ensures CanAnswer(q) <==> Total(q) > 0
  {
    if Total(q) > 0 {
      var turns := Next(Turn(q.pending, false, false), Over);
      assert Polls(q, turns)[0] != Verbs.Polled([]);
      assert Unbroken(turns) && Answers(Polls(q, turns));
    } else {
      forall turns | Unbroken(turns)
        ensures !Answers(Polls(q, turns))
      {
        NothingAnswers(q.max, turns);
      }
    }
  }

  // The counting loop.

  /** What the loop comes to: as many completions as are due, and the queue it leaves; a failed query; or a query that
      never ends. */
  datatype Outcome = Done(left: Queue) | GaveUp(left: Queue) | Spins

  /** The loop of bulk: it goes on until ack is exactly the number posted, that is, until exactly 0 are due. Once it
      counted too many, due is negative. */
  ghost function Count(q: Queue, due: int, turns: Schedule): Outcome
    requires 0 < q.max
    decreases Total(q)
  {
    if due == 0 then Done(q)
    else if !QueryEnds(q, turns) then Spins
    else
      var a := Ask(q, turns);
      if a.r == -1 then GaveUp(a.left) else Count(a.left, due - a.r, a.rest)
  }

  // What decides its result, on the polls of all its queries together.

  /** How many completions a poll brings, and the first k of them all. */
  ghost function Size(p: Poll): nat {
    if p.Polled? then |p.wcs| else 0
  }

  ghost function Brought(polls: seq<Poll>, k: nat): nat
    requires k <= |polls|
  {
    if k == 0 then 0 else Size(polls[0]) + Brought(polls[1..], k - 1)
  }

  /** Up to poll k, the completions brought were at no time as many as are due: the loop is still going. */
  ghost predicate Undecided(polls: seq<Poll>, due: int, k: nat)
    requires k <= |polls|
  {
    forall i :: 0 <= i <= k ==> Brought(polls, i) != due
  }

  /** A poll fails, or brings a completion that did, before the loop has what is due. */
  ghost predicate FailsBefore(polls: seq<Poll>, due: int) {
    exists k: nat :: k < |polls| && Fails(polls[k]) && Undecided(polls, due, k)
  }

  lemma FailsBeforeNow(polls: seq<Poll>, due: int)
    requires |polls| > 0 && Fails(polls[0]) && due != 0
    ensures FailsBefore(polls, due)
  {
    assert Undecided(polls, due, 0);
  }

  lemma FailsBeforeLater(polls: seq<Poll>, due: int)
    requires |polls| > 0 && !Fails(polls[0]) && due != 0
    ensures FailsBefore(polls, due) <==> FailsBefore(polls[1..], due - Size(polls[0]))
  {
    var later, due' := polls[1..], due - Size(polls[0]);
    if FailsBefore(polls, due) {
      var k: nat :| k < |polls| && Fails(polls[k]) && Undecided(polls, due, k);
      forall i | 0 <= i <= k - 1
        ensures Brought(later, i) != due'
      {
        assert Brought(polls, i + 1) != due;
      }
      assert later[k - 1] == polls[k] && Undecided(later, due', k - 1);
    }
    if FailsBefore(later, due') {
      var k: nat :| k < |later| && Fails(later[k]) && Undecided(later, due', k);
      forall i | 0 <= i <= k + 1
        ensures Brought(polls, i) != due
      {
        assert i > 0 ==> Brought(later, i - 1) != due';
      }
      assert polls[k + 1] == later[k] && Undecided(polls, due, k + 1);
    }
  }

  lemma NothingDue(polls: seq<Poll>)
    ensures !FailsBefore(polls, 0)
  {
    forall k: nat | k < |polls|
      ensures !Undecided(polls, 0, k)
    {
      assert Brought(polls, 0) == 0;
    }
  }

  /** What a poll of this queue brings at this turn. */
  ghost predicate IsPoll(p: Poll, q1: Queue, turn: Turn) {
    if turn.broken then p == PollFailed
    else Size(p) == Brings(q1) && (Fails(p) <==> Brings(q1) > 0 && turn.fails)
  }

  lemma FirstPoll(q: Queue, turns: Schedule, q1: Queue)
    requires turns.Next? && q1 == Executed(q, turns.turn.execute)
    ensures |Polls(q, turns)| > 0 && IsPoll(Polls(q, turns)[0], q1, turns.turn)
    ensures !turns.turn.broken ==> Polls(q, turns)[1..] == Polls(AfterPoll(q1), turns.later)
  {
    assert !turns.turn.broken ==> |Batch(Brings(q1), turns.turn.fails)| == Brings(q1);
  }

  /** A first poll that brings nothing, and one that brings something. */
  lemma CountFirst(q: Queue, due: int, turns: Schedule, q1: Queue)
    requires 0 < q.max && due != 0 && turns.Next? && q1 == Executed(q, turns.turn.execute) && !turns.turn.broken
    ensures q1.completed == 0 ==> Count(q, due, turns) == Count(q1, due, turns.later)
    ensures q1.completed > 0 && !turns.turn.fails ==>
              Count(q, due, turns) == Count(AfterPoll(q1), due - Brings(q1), turns.later)
    ensures q1.completed > 0 && turns.turn.fails ==> Count(q, due, turns).GaveUp?
  {
  }

  /** Behind the first poll p, which did not fail, the loop goes on; at a failed one it gives up. */
  lemma CountPoll(q: Queue, due: int, turns: Schedule, p: Poll, q1: Queue)
    requires 0 < q.max && due != 0 && turns.Next? && q1 == Executed(q, turns.turn.execute)
    requires IsPoll(p, q1, turns.turn)
    ensures Fails(p) ==> Count(q, due, turns).GaveUp?
    ensures !Fails(p) ==>
              !turns.turn.broken && Count(q, due, turns) == Count(AfterPoll(q1), due - Size(p), turns.later)
  {
    if !turns.turn.broken {
      CountFirst(q, due, turns, q1);
      assert q1.completed == 0 ==> AfterPoll(q1) == q1;
    }
  }

  /** The loop gives up exactly if a poll fails, or brings a completion that did, while it goes on: not one of the polls
      left for later calls. */
  lemma {:induction false} GivesUpIff(q: Queue, due: int, turns: Schedule)
    requires 0 < q.max
    ensures Count(q, due, turns).GaveUp? <==> FailsBefore(Polls(q, turns), due)
    decreases turns, 1
  {
    if due == 0 {
      NothingDue(Polls(q, turns));
    } else if turns.Over? {
      CountSound(q, due, turns);
    } else {
      GivesUpNext(q, due, turns, Executed(q, turns.turn.execute));
    }
  }

  /** The same behind the first poll. */
  lemma GivesUpNext(q: Queue, due: int, turns: Schedule, q1: Queue)
    requires 0 < q.max && due != 0 && turns.Next? && q1 == Executed(q, turns.turn.execute)
    ensures Count(q, due, turns).GaveUp? <==> FailsBefore(Polls(q, turns), due)
    decreases turns, 0
  {
    FirstPoll(q, turns, q1);
    var polls, p, due' := Polls(q, turns), Polls(q, turns)[0], due - Size(Polls(q, turns)[0]);
    CountPoll(q, due, turns, p, q1);
    if Fails(p) {
      FailsBeforeNow(polls, due);
    } else {
      FailsBeforeLater(polls, due);
      GivesUpIff(AfterPoll(q1), due', turns.later);
      assert polls[1..] == Polls(AfterPoll(q1), turns.later);
    }
  }

  // What decides it, on the answers of its queries.

  /** The queries from queue q on answer these, one after the other, and leave this queue and these turns. */
  ghost predicate Asked(q: Queue, turns: Schedule, answers: seq<int>, left: Queue, rest: Schedule)
    requires 0 < q.max
    decreases |answers|
  {
    if |answers| == 0 then left == q && rest == turns
    else
      && QueryEnds(q, turns) && answers[0] == Ask(q, turns).r
      && Asked(Ask(q, turns).left, Ask(q, turns).rest, answers[1..], left, rest)
  }

  lemma {:induction false} AskedNext(q: Queue, turns: Schedule, answers: seq<int>, left: Queue, rest: Schedule)
    requires 0 < q.max && 0 < left.max && Asked(q, turns, answers, left, rest) && QueryEnds(left, rest)
    ensures var a := Ask(left, rest);
            Asked(q, turns, answers + [a.r], a.left, a.rest)
    decreases |answers|
  {
    var a := Ask(left, rest);
    if |answers| == 0 {
      assert (answers + [a.r])[1..] == answers;
    } else {
      AskedNext(Ask(q, turns).left, Ask(q, turns).rest, answers[1..], left, rest);
      assert (answers + [a.r])[1..] == answers[1..] + [a.r];
    }
  }

  ghost function Sum(answers: seq<int>): int {
    if |answers| == 0 then 0 else Sum(answers[..|answers| - 1]) + answers[|answers| - 1]
  }

  ghost predicate AllPositive(answers: seq<int>) {
    forall i :: 0 <= i < |answers| ==> answers[i] > 0
  }

  /** No count before the last answer was num. */
  ghost predicate NotBefore(answers: seq<int>, num: int) {
    forall i :: 0 <= i < |answers| ==> Sum(answers[..i]) != num
  }

  lemma NotBeforeNext(answers: seq<int>, num: int, r: int)
    requires NotBefore(answers, num) && Sum(answers) != num
    ensures NotBefore(answers + [r], num) && (answers + [r])[..|answers|] == answers
  {
    var all := answers + [r];
    assert all[..|answers|] == answers;
    forall i | 0 <= i < |all|
      ensures Sum(all[..i]) != num
    {
      assert i < |answers| ==> all[..i] == answers[..i];
    }
  }

  /** What the answers say of the result r of a loop to num: it is 0 exactly if they are positive and come to num, and -1
      exactly if the last is -1. They end there: none before is -1, and no count before was num. */
  ghost predicate Verdict(answers: seq<int>, num: int, r: int) {
    && (r == 0 <==> AllPositive(answers) && Sum(answers) == num)
    && (r == -1 <==> |answers| > 0 && answers[|answers| - 1] == -1)
    && (r == 0 || (r == -1 && AllPositive(answers[..|answers| - 1])))
    && NotBefore(answers, num)
  }

  lemma VerdictWell(answers: seq<int>, num: int)
    requires AllPositive(answers) && Sum(answers) == num && NotBefore(answers, num)
    ensures Verdict(answers, num, 0)
  {
  }

  lemma VerdictBad(answers: seq<int>, num: int, all: seq<int>)
    requires AllPositive(answers) && all == answers + [-1] && NotBefore(all, num)
    ensures Verdict(all, num, -1)
  {
    assert all[|all| - 1] == -1 && all[..|all| - 1] == answers;
  }

  /** Where the loop is behind these answers: at queue q and the turns rest, having counted up to ack. */
  ghost predicate CountsTo(q0: Queue, turns: Schedule, num: int, answers: seq<int>, q: Queue, rest: Schedule, ack: int)
    requires 0 < q0.max
  {
    && 0 < q.max && Asked(q0, turns, answers, q, rest) && Count(q, num - ack, rest) == Count(q0, num, turns)
    && AllPositive(answers) && Sum(answers) == ack && NotBefore(answers, num)
  }

  /** One more query. */
  lemma CountsOn(q0: Queue, turns: Schedule, num: int, answers: seq<int>, q: Queue, rest: Schedule, ack: int, a: Answer)
    requires 0 < q0.max && CountsTo(q0, turns, num, answers, q, rest, ack) && ack != num
    requires QueryEnds(q, rest) && a == Ask(q, rest)
    ensures Asked(q0, turns, answers + [a.r], a.left, a.rest)
    ensures a.r != -1 ==> CountsTo(q0, turns, num, answers + [a.r], a.left, a.rest, ack + a.r)
    ensures a.r == -1 ==> Count(q0, num, turns) == GaveUp(a.left) && Verdict(answers + [a.r], num, -1)
  {
    var all := answers + [a.r];
    NotBeforeNext(answers, num, a.r);
    AskedNext(q0, turns, answers, q, rest);
    CountQuery(q, num - ack, rest, a);
    if a.r == -1 {
      VerdictBad(answers, num, all);
    } else {
      assert num - ack - a.r == num - (ack + a.r);
      assert all[..|all| - 1] == answers;
    }
  }

  lemma CountQuery(q: Queue, due: int, turns: Schedule, a: Answer)
    requires 0 < q.max && due != 0 && QueryEnds(q, turns) && a == Ask(q, turns)
    ensures Count(q, due, turns) == if a.r == -1 then GaveUp(a.left) else Count(a.left, due - a.r, a.rest)
  {
  }

  /** The loop takes exactly what is due: what was outstanding before is still outstanding. In particular it never ends
      well once it counted too many. */
  lemma {:induction false} CountTakesDue(q: Queue, due: int, turns: Schedule)
    requires 0 < q.max
    ensures Count(q, due, turns).Done? ==>
              && due >= 0 && Count(q, due, turns).left.max == q.max
              && Total(Count(q, due, turns).left) == Total(q) - due
    decreases Total(q)
  {
    if due != 0 && QueryEnds(q, turns) && Ask(q, turns).r != -1 {
      var a := Ask(q, turns);
      CountTakesDue(a.left, due - a.r, a.rest);
    }
  }

  /** Where exactly what is outstanding is due, the loop ends. */
  lemma {:induction false} CountEnds(q: Queue, turns: Schedule)
    requires 0 < q.max
    ensures !Count(q, Total(q), turns).Spins?
    decreases Total(q)
  {
    if Total(q) > 0 && Ask(q, turns).r != -1 {
      var a := Ask(q, turns);
      CountEnds(a.left, a.rest);
    }
  }

  lemma {:induction false} CountSound(q: Queue, due: int, turns: Schedule)
    requires 0 < q.max && Sound(turns)
    ensures !Count(q, due, turns).GaveUp?
    decreases Total(q)
  {
    if due != 0 && QueryEnds(q, turns) {
      AskSound(q, turns);
      var a := Ask(q, turns);
      CountSound(a.left, due - a.r, a.rest);
    }
  }

  /** Once the loop counted more than were posted, it ends well under no schedule, and where nothing fails not at all. */
  lemma CountPast(q: Queue, due: int, turns: Schedule)
    requires 0 < q.max && due < 0
    ensures !Count(q, due, turns).Done?
    ensures Sound(turns) ==> Count(q, due, turns).Spins?
  {
    CountTakesDue(q, due, turns);
    if Sound(turns) {
      CountSound(q, due, turns);
    }
  }

  /** num more operations posted. */
  function Posted(q: Queue, num: nat): Queue {
    Queue(q.max, q.pending + num, q.completed)
  }

  /** Under any schedule in which nothing fails: the loop after num posts ends with nothing outstanding exactly if
      nothing was outstanding before them. */
  lemma CountQuietIff(q: Queue, num: nat, turns: Schedule)
    requires 0 < q.max && Sound(turns)
    ensures Count(Posted(q, num), num, turns) == Done(Queue(q.max, 0, 0)) <==> Total(q) == 0
  {
    CountTakesDue(Posted(q, num), num, turns);
    if Total(q) == 0 {
      CountEnds(Posted(q, num), turns);
      CountSound(Posted(q, num), num, turns);
    }
  }

  // Sessions with completions left over from an earlier call.

  /** One turn without failure that leaves n completions to poll: the loop counts them. */
  lemma CountTurn(q: Queue, due: int, n: nat, rest: Schedule)
    requires 0 < q.max && due != 0 && 0 < Executed(q, n).completed
    ensures Count(q, due, Next(Turn(n, false, false), rest))
         == Count(AfterPoll(Executed(q, n)), due - Brings(Executed(q, n)), rest)
  {
  }

  /** Everything due is among what is completed already, and comes in whole batches. (Rem is the remainder operator, by
      Modular.RemIsMod.) */
  predicate WholeBatches(q: Queue, due: nat)
    requires 0 < q.max
  {
    due <= q.completed && Rem(due, q.max) == 0
  }

  /** A whole batch is due and comes at once. */
  lemma WholeBatchesNext(q: Queue, due: nat, a: Answer)
    requires 0 < q.max && 0 < due && WholeBatches(q, due)
    requires a.left.max == q.max && a.r + a.left.completed >= q.completed
    requires a.r == Least(q.max, a.r + a.left.completed)
    ensures a.r == q.max <= due && WholeBatches(a.left, due - q.max)
  {
  }

  /** Where polls bring one at a time, or whole batches are forced, the loop does not count too many. */
  lemma {:induction false} NoOvershoot(q: Queue, due: nat, turns: Schedule)
    requires 0 < q.max && due <= Total(q)
    requires q.max == 1 || WholeBatches(q, due)
    ensures !Count(q, due, turns).Spins?
    decreases Total(q)
  {
    if due > 0 && Ask(q, turns).r != -1 {
      var a := Ask(q, turns);
      if q.max > 1 {
        WholeBatchesNext(q, due, a);
      }
      NoOvershoot(a.left, due - a.r, a.rest);
    }
  }

  /** One more than are due, from a queue with nothing completed: ones, and two at the end. */
  lemma {:induction false} OnesThenTwo(q: Queue, due: nat) returns (turns: Schedule)
    requires 1 < q.max && 0 < due < q.pending && q.completed == 0
    ensures Count(q, due, turns).Spins?
    decreases due
  {
    if due == 1 {
      turns := PollPast(q, due, 2);
    } else {
      var rest := OnesThenTwo(Queue(q.max, q.pending - 1, 0), due - 1);
      turns := Next(Turn(1, false, false), rest);
      CountTurn(q, due, 1, rest);
    }
  }

  /** A poll of more than are due. */
  lemma PollPast(q: Queue, due: nat, n: nat) returns (turns: Schedule)
    requires 0 < due < Brings(Executed(q, n))
    ensures Count(q, due, turns).Spins?
  {
    CountTurn(q, due, n, Over);
    CountPast(AfterPoll(Executed(q, n)), due - Brings(Executed(q, n)), Over);
    turns := Next(Turn(n, false, false), Over);
  }

  /** Some schedule makes the loop count too many, after which it never ends. */
  ghost predicate CanOvershoot(q: Queue, due: nat)
    requires 0 < q.max
  {
    exists turns :: Count(q, due, turns).Spins?
  }

  lemma {:induction false} Overshoot(q: Queue, due: nat) returns (turns: Schedule)
    requires 1 < q.max && 0 < due < Total(q) && !WholeBatches(q, due)
    ensures Count(q, due, turns).Spins?
    decreases q.completed
  {
    if Brings(q) > due {
      turns := PollPast(q, due, 0);
    } else if q.completed == 0 {
      turns := OnesThenTwo(q, due);
    } else if q.completed == due && due < q.max {
      turns := PollPast(q, due, 1);
    } else {
      MoreDue(q, due);
      var rest := Overshoot(AfterPoll(q), due - Brings(q));
      turns := PollFirst(q, due, rest);
    }
  }

  lemma PollFirst(q: Queue, due: nat, rest: Schedule) returns (turns: Schedule)
    requires 0 < q.max && 0 < due && 0 < q.completed
    ensures Count(q, due, turns) == Count(AfterPoll(q), due - Brings(q), rest)
  {
    turns := Next(Turn(0, false, false), rest);
    assert Executed(q, 0) == q;
    CountTurn(q, due, 0, rest);
  }

  /** After a poll that brings no more than are due, the same is the case with what is left. */
  lemma MoreDue(q: Queue, due: nat)
    requires 1 < q.max && 0 < due < Total(q) && !WholeBatches(q, due) && 0 < q.completed
    requires Brings(q) <= due && !(q.completed == due && due < q.max)
    ensures Brings(q) < due
    ensures !WholeBatches(AfterPoll(q), due - Brings(q))
  {
    assert Rem(0, q.max) == 0;
  }

  /** The loop can count past the number posted exactly when completions were outstanding before, a poll can bring two,
      and those completed before are not taken for all the posted ones, batch by batch. */
  lemma OvershootIff(q: Queue, num: nat)
    requires 0 < q.max && 0 < num
    ensures CanOvershoot(Posted(q, num), num) <==> Total(q) > 0 && q.max > 1 && !WholeBatches(q, num)
  {
    var p := Posted(q, num);
    if Total(q) > 0 && q.max > 1 && !WholeBatches(q, num) {
      var turns := Overshoot(p, num);
    } else {
      forall turns
        ensures !Count(p, num, turns).Spins?
      {
        if Total(q) == 0 {
          CountEnds(p, turns);
        } else {
          NoOvershoot(p, num, turns);
        }
      }
    }
  }

  /** Some schedule lets the loop end well with an operation still unexecuted: operations are executed in order, so the
      last one posted is among them. */
  ghost predicate CanEndEarly(q: Queue, due: nat)
    requires 0 < q.max
  {
    exists turns :: Count(q, due, turns).Done? && Count(q, due, turns).left.pending > 0
  }

  /** More than are due are completed already, and not in whole batches: the loop counts too many. */
  lemma {:induction false} MustOvershoot(q: Queue, due: nat, turns: Schedule)
    requires 0 < q.max && due < q.completed && Rem(due, q.max) != 0
    ensures !Count(q, due, turns).Done?
    decreases Total(q)
  {
    if Ask(q, turns).r != -1 {
      var a := Ask(q, turns);
      if a.r > due {
        CountPast(a.left, due - a.r, a.rest);
      } else {
        MustOvershoot(a.left, due - a.r, a.rest);
      }
    }
  }

  /** The schedule that executes as little as it can. */
  lemma {:induction false} EndEarly(q: Queue, due: nat) returns (turns: Schedule)
    requires 0 < q.max && due < Total(q) && 0 < q.pending && (q.completed <= due || Rem(due, q.max) == 0)
    ensures Count(q, due, turns).Done? && Count(q, due, turns).left.pending > 0
    decreases due
  {
    if due == 0 {
      turns := Over;
    } else {
      var n := if q.completed == 0 then 1 else 0;
      var e := Executed(q, n);
      EarlyNext(q, due, e);
      var rest := EndEarly(AfterPoll(e), due - Brings(e));
      turns := Next(Turn(n, false, false), rest);
      CountTurn(q, due, n, rest);
    }
  }

  lemma EarlyNext(q: Queue, due: nat, e: Queue)
    requires 0 < q.max && 0 < due < Total(q) && 0 < q.pending && (q.completed <= due || Rem(due, q.max) == 0)
    requires e == Executed(q, if q.completed == 0 then 1 else 0)
    ensures 0 < e.pending && 0 < Brings(e) <= due
    ensures var n := Brings(e);
            AfterPoll(e).completed <= due - n || Rem(due - n, q.max) == 0
  {
  }

  /** bulk can answer 0 before its last slice is written exactly when completions were outstanding before, of which
      those completed already do not force it past the number posted. */
  lemma EndsEarlyIff(q: Queue, num: nat)
    requires 0 < q.max && 0 < num
    ensures CanEndEarly(Posted(q, num), num) <==> Total(q) > 0 && (q.completed <= num || Rem(num, q.max) == 0)
  {
    var p := Posted(q, num);
    if Total(q) > 0 && (q.completed <= num || Rem(num, q.max) == 0) {
      var turns := EndEarly(p, num);
    } else {
      forall turns | Count(p, num, turns).Done?
        ensures Count(p, num, turns).left.pending == 0
      {
        CountTakesDue(p, num, turns);
        if Total(q) > 0 {
          MustOvershoot(p, num, turns);
        }
      }
    }
  }
}
