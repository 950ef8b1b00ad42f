/** Progress of the multiplexed connection: no deadlock, and bounded service. */
module MxioProgress {
  import opened Wrappers
  import opened Mxio
  import opened MxioSafety

  // ----- Progress -----

  /** The actions that serve requests already made. */
  predicate Internal(a: Action) { !a.OpenPort? && !a.Ask? && !a.KillRex? }

  /** A port whose rex runs and whose request is not finished lets something happen, unless
      packets queue up first. */
  lemma LivePortMoves(s: Sys, p: nat) returns (a: Action)
    requires Inv(s) && IsPort(p) && s.chans[p].spawned && !s.chans[p].phase.Quiet?
    requires s.up == [] && s.down == []
    requires s.narrow ==> s.handler == Reading(p) && s.narrowPort == p
    ensures Internal(a) && Step(s, a).To?
  {
    assert PortAt(s, p);
    var c := s.chans[p];
    var r := c.rex.value;
    if c.phase.Asking? {
      if c.toSend != [] { a := Flush(p, 1); }
      else if r.inbox != [] { a := RexRecv(p, 1); }
      else { a := RexReply(p, seq(c.need, i => 0)); }
    } else if s.narrow && c.buf != [] {
      a := Consume(1);
    } else if s.narrow && c.need == 0 {
      if c.more == [] { a := Finish; } else { a := NextRound([0]); }
    } else if r.outbox != [] {
      a := AgentRead(p, 1);
    } else {
      a := RexWrite(p, 1);
    }
  }

  lemma HandlerMoves(s: Sys) returns (a: Action)
    requires Inv(s) && s.handler.Reading? && s.down != []
    ensures Internal(a) && Step(s, a).To?
  {
    var p := s.handler.port;
    var c := s.chans[p];
    if c.need == 0 {
      RoundDone(s);
      if c.more == [] { a := Finish; } else { a := NextRound([0]); }
    } else if c.buf != [] {
      a := Consume(1);
    } else {
      FillSafe(s);
      a := Fill;
    }
  }

  lemma QueuesMove(s: Sys) returns (a: Action)
    requires Inv(s) && (s.up != [] || s.down != [])
    ensures Internal(a) && Step(s, a).To?
  {
    if s.up != [] {
      AgentRecvSafe(s);
      assert DoAgentRecv(s).To?;
      a := AgentRecv;
    } else if s.handler.Idle? {
      PeekSafe(s);
      assert DoPeek(s).To?;
      a := Peek;
    } else {
      a := HandlerMoves(s);
    }
  }

  /** No deadlock: while any request of any port is unfinished, some action that serves it
      can happen. */
  lemma NoDeadlock(s: Sys, p: nat) returns (a: Action)
    requires Inv(s) && IsPort(p) && !s.chans[p].phase.Quiet?
    ensures Internal(a) && Step(s, a).To?
  {
    if s.up != [] || s.down != [] {
      a := QueuesMove(s);
    } else if s.narrow {
      a := LivePortMoves(s, s.narrowPort);
    } else if s.chans[p].spawned {
      a := LivePortMoves(s, p);
    } else if s.lock.Some? {
      assert PortAt(s, s.lock.value);
      a := TakeAck(s.lock.value);
    } else {
      assert PortAt(s, p);
      a := LockAndExec(p);
    }
  }

  // ----- Bounded service: internal actions cannot go on for ever -----

  function RexPotential(r: Option<Rex>): nat {
    if r.None? then 0
    else
      3 * |r.value.inbox| + 10 * |r.value.owed| + 9 * |r.value.outbox|
      + if r.value.dead then 1 else if r.value.doomed then 2 else 3
  }

  function MorePotential(more: seq<nat>): nat {
    if more == [] then 0 else 11 * more[0] + 4 * OMRPC_IO_BUF_SIZE + 10 + MorePotential(more[1..])
  }

  function ChanPotential(c: Chan): nat {
    (if c.invoke.NeedLock? then 20 else 0)
    + 5 * |c.toSend| + 7 * |c.buf| + RexPotential(c.rex)
    + match c.phase
      case Quiet => 0
      case Asking => 11 * c.need + 3 + MorePotential(c.more)
      case Answering => 2 + MorePotential(c.more)
  }

  function ChansPotential(cs: seq<Chan>): nat {
    if cs == [] then 0 else ChanPotential(cs[0]) + ChansPotential(cs[1..])
  }

  function UpPotential(q: seq<Up>): nat {
    if q == [] then 0
    else
      (match q[0]
       case Exec(_) => 10
       case Data(_, bytes) => 4 * |bytes|
       case Kill(_) => 1
       case ReadDone => 1)
      + UpPotential(q[1..])
  }

  function DownPotential(q: seq<Down>): nat {
    if q == [] then 0
    else (if q[0].Ack? then 3 else 8 * |q[0].bytes|) + DownPotential(q[1..])
  }

  /** An upper bound on the number of internal actions that can still happen. */
  function Potential(s: Sys): nat {
    ChansPotential(s.chans) + UpPotential(s.up) + DownPotential(s.down) + if s.hp0Peeked then 2 else 0
  }

  lemma {:induction false} ChansUpdate(cs: seq<Chan>, p: nat, c: Chan)
    requires p < |cs|
    ensures ChansPotential(cs[p := c]) == ChansPotential(cs) - ChanPotential(cs[p]) + ChanPotential(c)
  {
    if p == 0 {
      assert cs[0 := c][1..] == cs[1..];
    } else {
      assert cs[p := c][1..] == cs[1..][p - 1 := c];
      ChansUpdate(cs[1..], p - 1, c);
    }
  }

  lemma {:induction false} UpPotentialPush(q: seq<Up>, x: Up)
    ensures UpPotential(q + [x]) == UpPotential(q) + UpPotential([x])
  {
    if q == [] {
      assert q + [x] == [x];
    } else {
      assert (q + [x])[1..] == q[1..] + [x];
      UpPotentialPush(q[1..], x);
    }
  }

  lemma {:induction false} DownPotentialPush(q: seq<Down>, x: Down)
    ensures DownPotential(q + [x]) == DownPotential(q) + DownPotential([x])
  {
    if q == [] {
      assert q + [x] == [x];
    } else {
      assert (q + [x])[1..] == q[1..] + [x];
      DownPotentialPush(q[1..], x);
    }
  }

  ghost predicate Spends(s: Sys, o: Outcome) {
    o.To? ==> Potential(o.next) < Potential(s)
  }

  /** An action on port `p` that spends on the port what it does not queue. */
  lemma PortSpends(s: Sys, t: Sys, p: nat)
    requires |s.chans| == MAX_HANDLE_PER_PORT && p < MAX_HANDLE_PER_PORT && |t.chans| == |s.chans|
    requires t.chans == s.chans[p := t.chans[p]]
    requires ChanPotential(t.chans[p]) + UpPotential(t.up) + DownPotential(t.down) + (if t.hp0Peeked then 2 else 0)
             < ChanPotential(s.chans[p]) + UpPotential(s.up) + DownPotential(s.down) + (if s.hp0Peeked then 2 else 0)
    ensures Potential(t) < Potential(s)
  {
    ChansUpdate(s.chans, p, t.chans[p]);
  }

  lemma LockAndExecSpends(s: Sys, p: nat)
    requires WellFormed(s) && IsPort(p)
    ensures Spends(s, DoLockAndExec(s, p))
  {
    var o := DoLockAndExec(s, p);
    if o.To? {
      UpPotentialPush(s.up, Exec(p));
      PortSpends(s, o.next, p);
    }
  }

  lemma TakeAckSpends(s: Sys, p: nat)
    requires WellFormed(s) && IsPort(p)
    ensures Spends(s, DoTakeAck(s, p))
  {
    var o := DoTakeAck(s, p);
    if o.To? { PortSpends(s, o.next, p); }
  }

  lemma FlushSpends(s: Sys, p: nat, n: nat)
    requires WellFormed(s) && IsPort(p)
    ensures Spends(s, DoFlush(s, p, n))
  {
    var o := DoFlush(s, p, n);
    if o.To? {
      UpPotentialPush(s.up, Data(p, s.chans[p].toSend[..n]));
      PortSpends(s, o.next, p);
    }
  }

  /** The handler takes the first packet, by peeking or by filling. */
  lemma TakePacketSpends(s: Sys)
    requires Inv(s) && s.down != []
    ensures s.down[0].Ack? ==> Potential(s.(hp0Peeked := true, down := s.down[1..])) < Potential(s)
    ensures s.down[0].Reply? && s.chans[s.down[0].port].buf == [] ==>
              var p := s.down[0].port;
              Potential(Put(s, p, s.chans[p].(buf := s.down[0].bytes)).(handler := Reading(p), down := s.down[1..]))
              < Potential(s)
  {
    FirstDown(s);
    if s.down[0].Reply? && s.chans[s.down[0].port].buf == [] {
      var p := s.down[0].port;
      PortSpends(s, Put(s, p, s.chans[p].(buf := s.down[0].bytes)).(handler := Reading(p), down := s.down[1..]), p);
    }
  }

  lemma PeekSpends(s: Sys)
    requires Inv(s)
    ensures Spends(s, DoPeek(s))
  {
    if s.down != [] { TakePacketSpends(s); }
  }

  lemma FillSpends(s: Sys)
    requires Inv(s)
    ensures Spends(s, DoFill(s))
  {
    if s.down != [] { TakePacketSpends(s); }
  }

  lemma ConsumeSpends(s: Sys, n: nat)
    requires Inv(s)
    ensures Spends(s, DoConsume(s, n))
  {
    var o := DoConsume(s, n);
    if o.To? {
      var p := s.handler.port;
      assert s.chans[p].phase.Answering? by { assert PortAt(s, p); }
      PortSpends(s, o.next, p);
    }
  }

  lemma NextRoundSpends(s: Sys, message: Bytes)
    requires Inv(s)
    ensures Spends(s, DoNextRound(s, message))
  {
    var o := DoNextRound(s, message);
    if o.To? {
      RoundDone(s);
      UpPotentialPush(s.up, Data(s.handler.port, message));
      PortSpends(s, o.next, s.handler.port);
    }
  }

  lemma FinishSpends(s: Sys)
    requires Inv(s)
    ensures Spends(s, DoFinish(s))
  {
    var o := DoFinish(s);
    if o.To? {
      RoundDone(s);
      UpPotentialPush(s.up, ReadDone);
      PortSpends(s, o.next, s.handler.port);
    }
  }

  lemma ExecSpends(s: Sys)
    requires WellFormed(s) && s.up != [] && s.up[0].Exec?
    ensures Spends(s, DoAgentRecv(s))
  {
    DownPotentialPush(s.down, Ack);
    PortSpends(s, DoAgentRecv(s).next, s.up[0].port);
  }

  /** The packet at the head of the queue has bytes, or ends a rex that nobody has ended. */
  lemma HeadSpends(s: Sys)
    requires Inv(s) && s.up != []
    ensures s.up[0].Data? ==> s.up[0].bytes != []
    ensures s.up[0].Kill? && s.chans[s.up[0].port].rex.Some? ==>
              var r := s.chans[s.up[0].port].rex.value; !r.dead && !r.doomed
  {
    var x := s.up[0];
    if x.Data? || x.Kill? {
      UpForTail(s.up, x.port);
      assert PortAt(s, x.port);
      assert UpFor(s.up, x.port)[0] == x;
    }
  }

  lemma ForwardSpends(s: Sys)
    requires Inv(s) && s.up != [] && (s.up[0].Data? || s.up[0].Kill?)
    ensures Spends(s, DoAgentRecv(s))
  {
    var o := DoAgentRecv(s);
    if o.To? {
      HeadSpends(s);
      PortSpends(s, o.next, s.up[0].port);
    }
  }

  lemma AgentRecvSpends(s: Sys)
    requires Inv(s)
    ensures Spends(s, DoAgentRecv(s))
  {
    if s.up != [] {
      if s.up[0].Exec? { ExecSpends(s); }
      else if !s.up[0].ReadDone? { ForwardSpends(s); }
    }
  }

  lemma AgentReadSpends(s: Sys, p: nat, n: nat)
    requires WellFormed(s) && IsPort(p)
    ensures Spends(s, DoAgentRead(s, p, n))
  {
    var o := DoAgentRead(s, p, n);
    if o.To? {
      DownPotentialPush(s.down, Reply(p, s.chans[p].rex.value.outbox[..n]));
      PortSpends(s, o.next, p);
    }
  }

  lemma AgentEofSpends(s: Sys, p: nat)
    requires WellFormed(s) && IsPort(p)
    ensures Spends(s, DoAgentEof(s, p))
  {
    var o := DoAgentEof(s, p);
    if o.To? { PortSpends(s, o.next, p); }
  }

  lemma RexRecvSpends(s: Sys, p: nat, n: nat)
    requires Inv(s) && IsPort(p)
    ensures Spends(s, DoRexRecv(s, p, n))
  {
    var o := DoRexRecv(s, p, n);
    if o.To? { PortSpends(s, o.next, p); }
  }

  lemma RexReplySpends(s: Sys, p: nat, reply: Bytes)
    requires Inv(s) && IsPort(p)
    ensures Spends(s, DoRexReply(s, p, reply))
  {
    var o := DoRexReply(s, p, reply);
    if o.To? {
      assert s.chans[p].rex.value.owed == [] by { assert PortAt(s, p); }
      PortSpends(s, o.next, p);
    }
  }

  lemma RexWriteSpends(s: Sys, p: nat, n: nat)
    requires WellFormed(s) && IsPort(p)
    ensures Spends(s, DoRexWrite(s, p, n))
  {
    var o := DoRexWrite(s, p, n);
    if o.To? { PortSpends(s, o.next, p); }
  }

  lemma RexDieSpends(s: Sys, p: nat)
    requires WellFormed(s) && IsPort(p)
    ensures Spends(s, DoRexDie(s, p))
  {
    var o := DoRexDie(s, p);
    if o.To? { PortSpends(s, o.next, p); }
  }

  lemma PortStepSpends(s: Sys, a: Action, p: nat)
    requires Inv(s) && IsPort(p) && OnPort(a) && Internal(a)
    ensures Spends(s, PortStep(s, a, p))
  {
    match a
    case LockAndExec(_) => LockAndExecSpends(s, p);
    case TakeAck(_) => TakeAckSpends(s, p);
    case Flush(_, n) => FlushSpends(s, p, n);
    case AgentRead(_, n) => AgentReadSpends(s, p, n);
    case AgentEof(_) => AgentEofSpends(s, p);
    case RexRecv(_, n) => RexRecvSpends(s, p, n);
    case RexReply(_, reply) => RexReplySpends(s, p, reply);
    case RexWrite(_, n) => RexWriteSpends(s, p, n);
    case RexDie(_) => RexDieSpends(s, p);
  }

  lemma InternalSpends(s: Sys, a: Action)
    requires Inv(s) && Internal(a)
    ensures Spends(s, Step(s, a))
  {
    if OnPort(a) {
      if IsPort(a.p) { PortStepSpends(s, a, a.p); }
    } else {
      match a
      case Peek => PeekSpends(s);
      case Consume(n) => ConsumeSpends(s, n);
      case Fill => FillSpends(s);
      case NextRound(message) => NextRoundSpends(s, message);
      case Finish => FinishSpends(s);
      case AgentRecv => AgentRecvSpends(s);
    }
  }

  /** However the internal actions are scheduled, there are at most `Potential(s)` of them. */
  lemma {:induction false} ServiceIsBounded(s: Sys, actions: seq<Action>)
    requires Inv(s) && forall i | 0 <= i < |actions| :: Internal(actions[i])
    requires Run(s, actions).To?
    ensures |actions| <= Potential(s)
    decreases |actions|
  {
    if actions != [] {
      StepSafe(s, actions[0]);
      InternalSpends(s, actions[0]);
      ServiceIsBounded(Step(s, actions[0]).next, actions[1..]);
    }
  }

  ghost predicate Exhausted(s: Sys)
    requires WellFormed(s)
  {
    forall a: Action :: Internal(a) ==> !Step(s, a).To?
  }

  /** When a run that started anywhere has no internal action left, every request that any
      thread has made is finished and every byte of it has arrived.  With the bound above:
      every schedule completes every request. */
  lemma EveryRequestCompletes(s: Sys, p: nat)
    requires Reachable(s) && WellFormed(s) && Exhausted(s) && IsPort(p)
    ensures var c := s.chans[p];
            c.phase.Quiet? && c.gotUp == c.sentUp && c.gotDown == c.sentDown
  {
    ReachableInv(s);
    if !s.chans[p].phase.Quiet? {
      var a := NoDeadlock(s, p);
    }
    StreamsPreserved(s, p);
  }
}
