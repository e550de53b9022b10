/** The exchange of connection data over TCP and the queue pair transitions on both sides, in every interleaving. */
module Handshake {
  import opened Formats
  import opened Gid
  import opened Messages
  import opened Words

  /** InfiniBand queue pair states, as far as they are used here (InfiniBand Architecture Specification Vol. 1,
      section 10.3.1). */
  datatype QpState = Init | Rtr | Rts

  datatype Qp = Qp(state: QpState, destQpn: word, rqPsn: word, sqPsn: word)

  /** Where a side is. The client sends first; the server connects its queue pair before it answers. */
  datatype Pc = Start | Requested | Informed | Half | Connected | Answered | Finished | Failed

  datatype Side = Side(info: Info, qp: Qp, pc: Pc, remote: Option<Info>)

  datatype State = State(
    client: Side,
    server: Side,
    toServer: seq<string>,  // messages on the way
    toClient: seq<string>,
    dones: nat)             // "done" notes on the way to the server

  /** A step of one side; ok is false where the call it makes fails. */
  datatype Event =
    | ClientWrite(ok: bool)
    | ServerRead(ok: bool)
    | ServerModify(ok: bool)   // to RTR, then to RTS
    | ServerWrite(ok: bool)
    | ClientRead(ok: bool)     // also writes "done"
    | ClientModify(ok: bool)   // to RTR, then to RTS
    | ServerReadDone

  ghost predicate Exchangeable(info: Info) {
    ValidInfo(info) && info.addr < 1_0000_0000_0000_0000
  }

  /** The data of both sides, the messages that carry them, and the parser. */
  datatype Setup = Setup(client: Info, server: Info, clientMsg: string, serverMsg: string, parse: string -> Option<Info>)

  ghost predicate Faithful(c: Setup) {
    c.parse(c.clientMsg) == Some(c.client) && c.parse(c.serverMsg) == Some(c.server)
  }

  lemma TextIsLong(info: Info)
    requires ValidInfo(info)
    ensures |InfoText(info)| >= 85
  {
    MessageFitsIff(info);
  }

  /** The set-up of the source: the formatted messages and its scan. */
  ghost function Source(client: Info, server: Info): Setup
    requires Exchangeable(client) && Exchangeable(server)
  {
    TextIsLong(client);
    TextIsLong(server);
    Setup(client, server, Wire(client), Wire(server), msg => ParseInfo(msg, 0))
  }

  lemma SourceIsFaithful(client: Info, server: Info)
    requires Exchangeable(client) && Exchangeable(server)
    ensures Faithful(Source(client, server))
    ensures Source(client, server).client == client && Source(client, server).server == server
  {
    HandshakeRoundTripIff(client, 0);
    HandshakeRoundTripIff(server, 0);
  }

  ghost function Fresh(info: Info): Side {
    Side(info, Qp(Init, 0, 0, 0), Start, None)
  }

  ghost function Begin(client: Info, server: Info): State {
    State(Fresh(client), Fresh(server), [], [], 0)
  }

  ghost predicate Enabled(s: State, e: Event) {
    match e
    case ClientWrite(ok) => s.client.pc == Start
    case ServerRead(ok) => s.server.pc == Start && s.toServer != []
    case ServerModify(ok) => (s.server.pc == Informed || s.server.pc == Half) && s.server.remote.Some?
    case ServerWrite(ok) => s.server.pc == Connected
    case ClientRead(ok) => s.client.pc == Requested && s.toClient != []
    case ClientModify(ok) => (s.client.pc == Informed || s.client.pc == Half) && s.client.remote.Some?
    case ServerReadDone => s.server.pc == Answered && s.dones > 0
  }

  /** The two ibv_modify_qp calls of rdma_connect_ctx: to RTR with the peer's numbers, to RTS with the own one. */
  function ToRtr(qp: Qp, dest: Info): Qp {
    qp.(state := Rtr, destQpn := dest.qpn, rqPsn := dest.psn)
  }

  function ToRts(qp: Qp, psn: word): Qp {
    qp.(state := Rts, sqPsn := psn)
  }

  class Context {
    var qp: Qp

    constructor ()
      ensures qp == Qp(Init, 0, 0, 0)
    {
      qp := Qp(Init, 0, 0, 0);
    }

    /** rdma_connect_ctx: 0 exactly if both transitions succeed, and then the queue pair is RTS towards dest; a failed
        one leaves the queue pair where it was. */
    method Connect(dest: Info, psn: word, rtrOk: bool, rtsOk: bool) returns (r: int)
      modifies this
      ensures r == if rtrOk && rtsOk then 0 else 1
      ensures rtrOk && rtsOk ==> qp == Qp(Rts, dest.qpn, dest.psn, psn)
      ensures rtrOk && !rtsOk ==> qp == ToRtr(old(qp), dest)
      ensures !rtrOk ==> qp == old(qp)
    {
      if !rtrOk {
        return 1;
      }
      qp := ToRtr(qp, dest);
      if !rtsOk {
        return 1;
      }
      qp := ToRts(qp, psn);
      r := 0;
    }
  }

  /** One half of it, as a step of one side. */
  ghost function Modify(side: Side, ok: bool): Side
    requires side.remote.Some?
  {
    if !ok then side.(pc := Failed)
    else if side.pc == Informed then
      side.(pc := Half, qp := ToRtr(side.qp, side.remote.value))
    else side.(pc := Connected, qp := ToRts(side.qp, side.info.psn))
  }

  /** rdma_connect_ctx on the queue pair of a side that knows its peer is two such steps, or one that fails. */
  method ConnectSide(ctx: Context, side: Side, rtrOk: bool, rtsOk: bool) returns (r: int, ghost side': Side)
    requires side.remote.Some? && side.pc == Informed && ctx.qp == side.qp
    modifies ctx
    ensures side' == if rtrOk then Modify(Modify(side, true), rtsOk) else Modify(side, false)
    ensures ctx.qp == side'.qp && (r == 0 <==> side'.pc == Connected)
  {
    r := ctx.Connect(side.remote.value, side.info.psn, rtrOk, rtsOk);
    side' := if rtrOk then Modify(Modify(side, true), rtsOk) else Modify(side, false);
  }

  /** A side that read a message; one that does not parse is not followed further. */
  ghost function Learn(c: Setup, side: Side, msg: string, ok: bool): Side {
    if !ok || c.parse(msg).None? then side.(pc := Failed)
    else side.(pc := Informed, remote := c.parse(msg))
  }

  ghost function Step(c: Setup, s: State, e: Event): State
    requires Enabled(s, e)
  {
    match e
    case ClientWrite(ok) =>
      if ok then s.(client := s.client.(pc := Requested), toServer := s.toServer + [c.clientMsg])
      else s.(client := s.client.(pc := Failed))
    case ServerRead(ok) =>
      s.(server := Learn(c, s.server, s.toServer[0], ok), toServer := s.toServer[1..])
    case ServerModify(ok) => s.(server := Modify(s.server, ok))
    case ServerWrite(ok) =>
      if ok then s.(server := s.server.(pc := Answered), toClient := s.toClient + [c.serverMsg])
      else s.(server := s.server.(pc := Failed))
    case ClientRead(ok) =>
      s.(client := Learn(c, s.client, s.toClient[0], ok), toClient := s.toClient[1..],
         dones := if ok then s.dones + 1 else s.dones)
    case ClientModify(ok) => s.(client := Modify(s.client, ok))
    case ServerReadDone => s.(server := s.server.(pc := Finished), dones := s.dones - 1)
  }

  /** A queue pair stands where its side is, with the numbers of the peer once it left INIT. */
  ghost predicate SideInv(side: Side, own: Info, peer: Info) {
    && side.info == own
    && (side.remote.Some? ==> side.remote == Some(peer))
    && (side.qp.state != Init ==> side.remote.Some? && side.qp.destQpn == peer.qpn && side.qp.rqPsn == peer.psn)
    && (side.qp.state == Rts ==> side.qp.sqPsn == own.psn)
    && match side.pc
       case Start => side.qp.state == Init && side.remote.None?
       case Requested => side.qp.state == Init && side.remote.None?
       case Informed => side.qp.state == Init && side.remote.Some?
       case Half => side.qp.state == Rtr && side.remote.Some?
       case Connected => side.qp.state == Rts && side.remote.Some?
       case Answered => side.qp.state == Rts
       case Finished => side.qp.state == Rts
       case Failed => true
  }

  /** Only the client's message is on the way to the server, only the server's to the client; and the latter, or what
      the client learned from it, means the server is connected. */
  ghost predicate ChannelInv(c: Setup, s: State) {
    && (forall i :: 0 <= i < |s.toServer| ==> s.toServer[i] == c.clientMsg)
    && (forall i :: 0 <= i < |s.toClient| ==> s.toClient[i] == c.serverMsg)
    && (s.toClient != [] ==> s.server.qp.state == Rts)
    && (s.client.remote.Some? ==> s.server.qp.state == Rts)
  }

  ghost predicate Inv(c: Setup, s: State) {
    SideInv(s.client, c.client, c.server) && SideInv(s.server, c.server, c.client) && ChannelInv(c, s)
  }

  lemma StepInv(c: Setup, s: State, e: Event)
    requires Faithful(c) && Inv(c, s) && Enabled(s, e)
    ensures Inv(c, Step(c, s, e))
  {
    if e.ServerRead? {
      assert s.toServer[0] == c.clientMsg;
    } else if e.ClientRead? {
      assert s.toClient[0] == c.serverMsg;
    }
  }

  /** No step takes a queue pair back or past a state. */
  ghost predicate Forward(a: QpState, b: QpState) {
    b == a || (a == Init && b == Rtr) || (a == Rtr && b == Rts)
  }

  lemma StepForward(c: Setup, s: State, e: Event)
    requires Inv(c, s) && Enabled(s, e)
    ensures Forward(s.client.qp.state, Step(c, s, e).client.qp.state)
    ensures Forward(s.server.qp.state, Step(c, s, e).server.qp.state)
  {
  }

  ghost predicate Legal(c: Setup, s: State, run: seq<Event>)
    decreases |run|
  {
    |run| == 0 || (Enabled(s, run[0]) && Legal(c, Step(c, s, run[0]), run[1..]))
  }

  ghost function Run(c: Setup, s: State, run: seq<Event>): State
    requires Legal(c, s, run)
    decreases |run|
  {
    if |run| == 0 then s else Run(c, Step(c, s, run[0]), run[1..])
  }

  lemma {:induction false} RunInv(c: Setup, s: State, run: seq<Event>)
    requires Faithful(c) && Inv(c, s) && Legal(c, s, run)
    ensures Inv(c, Run(c, s, run))
    decreases |run|
  {
    if |run| > 0 {
      StepInv(c, s, run[0]);
      RunInv(c, Step(c, s, run[0]), run[1..]);
    }
  }

  /** The two queue pairs are each other's ends. */
  ghost predicate Matched(a: Side, b: Side) {
    && a.qp.destQpn == b.info.qpn && b.qp.destQpn == a.info.qpn
    && a.qp.rqPsn == b.qp.sqPsn && b.qp.rqPsn == a.qp.sqPsn
  }

  lemma SafeRun(c: Setup, s0: State, run: seq<Event>)
    requires Faithful(c) && s0 == Begin(c.client, c.server) && Legal(c, s0, run)
    ensures var s := Run(c, s0, run);
            && (s.client.qp.state != Init ==> s.server.qp.state == Rts)
            && (s.client.qp.state == Rts && s.server.qp.state == Rts ==> Matched(s.client, s.server))
  {
    RunInv(c, s0, run);
  }

  /** Safety of the handshake: in every interleaving, and whatever calls fail, a client that left INIT has a server
      that is ready to send; and two ready queue pairs have each other's number and start at each other's sequence
      numbers. */
  lemma HandshakeSafe(client: Info, server: Info, c: Setup, s0: State, run: seq<Event>)
    requires Exchangeable(client) && Exchangeable(server) && c == Source(client, server)
    requires s0 == Begin(client, server) && Legal(c, s0, run)
    ensures Run(c, s0, run).client.qp.state != Init ==> Run(c, s0, run).server.qp.state == Rts
    ensures Run(c, s0, run).client.qp.state == Rts ==> Matched(Run(c, s0, run).client, Run(c, s0, run).server)
  {
    SourceIsFaithful(client, server);
    SafeRun(c, s0, run);
  }

  // The handshake does not get stuck.

  /** What is on the way, for each pair of places, while no call failed. */
  ghost predicate Expected(s: State) {
    && s.client.pc !in {Answered, Finished, Failed} && s.server.pc !in {Requested, Failed}
    && (s.client.pc == Requested && s.server.pc == Start ==> s.toServer != [])
    && (s.client.pc == Requested && s.server.pc == Answered ==> s.toClient != [])
    && (s.client.pc == Start ==> s.server.pc == Start && s.toServer == [])
    && (s.server.pc in {Start, Informed, Half, Connected} ==> s.toClient == [] && s.client.pc in {Start, Requested})
    && (s.server.pc == Answered && s.client.pc != Requested ==> s.dones > 0)
    && (s.server.pc == Finished ==> s.client.pc in {Informed, Half, Connected})
    && (s.client.pc in {Start, Requested} ==> s.dones == 0)
    && |s.toServer| <= 1 && |s.toClient| <= 1
    && (s.server.pc != Start ==> s.toServer == [])
    && (s.client.pc in {Informed, Half, Connected} ==> s.toClient == [])
  }

  ghost predicate Succeeds(e: Event) {
    e.ServerReadDone? || e.ok
  }

  lemma StepExpected(c: Setup, s: State, e: Event)
    requires Faithful(c) && Inv(c, s) && Expected(s) && Enabled(s, e) && Succeeds(e)
    ensures Expected(Step(c, s, e))
  {
    if e.ServerRead? {
      assert s.toServer[0] == c.clientMsg;
    } else if e.ClientRead? {
      assert s.toClient[0] == c.serverMsg;
    }
  }

  ghost predicate Complete(s: State) {
    s.client.pc == Connected && s.server.pc == Finished
  }

  /** As long as no call fails and the exchange is not complete, some step is possible. */
  lemma CanStep(c: Setup, s: State) returns (e: Event)
    requires Inv(c, s) && Expected(s) && !Complete(s)
    ensures Enabled(s, e) && Succeeds(e)
  {
    if s.client.pc == Start {
      e := ClientWrite(true);
    } else if s.server.pc == Start {
      e := ServerRead(true);
    } else if s.server.pc == Informed || s.server.pc == Half {
      e := ServerModify(true);
    } else if s.server.pc == Connected {
      e := ServerWrite(true);
    } else if s.client.pc == Requested {
      e := ClientRead(true);
    } else if s.client.pc == Informed || s.client.pc == Half {
      e := ClientModify(true);
    } else {
      e := ServerReadDone;
    }
  }

  function Rank(pc: Pc): nat {
    match pc
    case Start => 7
    case Requested => 6
    case Informed => 5
    case Half => 4
    case Connected => 3
    case Answered => 2
    case Finished => 1
    case Failed => 0
  }

  /** Every run ends: each step takes its side further. */
  lemma StepRank(c: Setup, s: State, e: Event)
    requires Inv(c, s) && Enabled(s, e)
    ensures Rank(Step(c, s, e).client.pc) + Rank(Step(c, s, e).server.pc) < Rank(s.client.pc) + Rank(s.server.pc)
  {
  }

  lemma {:induction false} RunExpected(c: Setup, s: State, run: seq<Event>)
    requires Faithful(c) && Inv(c, s) && Expected(s) && Legal(c, s, run)
    requires forall i :: 0 <= i < |run| ==> Succeeds(run[i])
    ensures Expected(Run(c, s, run)) && |run| <= Rank(s.client.pc) + Rank(s.server.pc)
    decreases |run|
  {
    if |run| > 0 {
      StepInv(c, s, run[0]);
      StepExpected(c, s, run[0]);
      StepRank(c, s, run[0]);
      RunExpected(c, Step(c, s, run[0]), run[1..]);
    }
  }

  ghost predicate Stuck(s: State) {
    forall e :: Succeeds(e) ==> !Enabled(s, e)
  }

  /** If no call fails, a run that can go no further has both sides connected to each other. */
  lemma HandshakeCompletes(client: Info, server: Info, c: Setup, s0: State, run: seq<Event>)
    requires Exchangeable(client) && Exchangeable(server) && c == Source(client, server)
    requires s0 == Begin(client, server) && Legal(c, s0, run)
    requires forall i :: 0 <= i < |run| ==> Succeeds(run[i])
    requires Stuck(Run(c, s0, run))
    ensures Complete(Run(c, s0, run)) && Matched(Run(c, s0, run).client, Run(c, s0, run).server)
  {
    SourceIsFaithful(client, server);
    CompleteRun(c, s0, run);
  }

  lemma CompleteRun(c: Setup, s0: State, run: seq<Event>)
    requires Faithful(c) && s0 == Begin(c.client, c.server) && Legal(c, s0, run)
    requires forall i :: 0 <= i < |run| ==> Succeeds(run[i])
    requires Stuck(Run(c, s0, run))
    ensures Complete(Run(c, s0, run)) && Matched(Run(c, s0, run).client, Run(c, s0, run).server)
  {
    RunInv(c, s0, run);
    RunExpected(c, s0, run);
    if !Complete(Run(c, s0, run)) {
      var e := CanStep(c, Run(c, s0, run));
    }
  }
}
