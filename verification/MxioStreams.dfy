/** What the threads hand over is what arrives: both byte streams of a port, told from the actions of a
run alone. */
module MxioStreams {
  import opened Wrappers
  import opened Mxio
  import opened MxioSafety
  import MxioProgress

  /** Since a port was last opened: the bytes handed over for its rex, the replies of the rex, and the
      lengths of the replies that its requests wait for. */
  datatype Tally = Tally(handed: Bytes, replies: seq<Bytes>, lens: seq<nat>)

  const NOTHING: Tally := Tally([], [], [])

  function Total(lens: seq<nat>): nat {
    if lens == [] then 0 else lens[0] + Total(lens[1..])
  }

  function Flat(parts: seq<Bytes>): Bytes {
    if parts == [] then [] else parts[0] + Flat(parts[1..])
  }

  function LengthsOf(parts: seq<Bytes>): seq<nat> {
    if parts == [] then [] else [|parts[0]|] + LengthsOf(parts[1..])
  }

  /** What one action adds for port `p`.  NextRound is about the port that the handler reads. */
  function Count(t: Tally, a: Action, reading: Handler, p: nat): Tally {
    match a
    case OpenPort(q, lens) => if q == p then Tally([], [], lens) else t
    case KillRex(q) => if q == p then NOTHING else t
    case Ask(q, request, lens) =>
      if q == p then Tally(t.handed + request, t.replies, t.lens + lens) else t
    case NextRound(message) => if reading == Reading(p) then t.(handed := t.handed + message) else t
    case RexReply(q, reply) => if q == p then t.(replies := t.replies + [reply]) else t
    case _ => t
  }

  /** The tally of the actions of a run, up to the first that cannot happen. */
  function Counted(s: Sys, actions: seq<Action>, p: nat, t: Tally): Tally
    requires WellFormed(s)
    decreases |actions|
  {
    if actions == [] then t
    else
      match Step(s, actions[0])
      case To(next) => Counted(next, actions[1..], p, Count(t, actions[0], s.handler, p))
      case _ => t
  }

  function Owed(c: Chan): Bytes { if c.rex.Some? then c.rex.value.owed else [] }

  /** The lengths of the replies that are still to come. */
  function Awaited(c: Chan): seq<nat> {
    (if c.phase.Asking? then [c.need] else []) + c.more
  }

  /** The port has put on its way, or still holds, what was handed over; its rex has put on its way, or
      still owes, its replies; these and the ones to come have the lengths waited for, one by one; what
      is still to be read makes up the sum. */
  predicate Agrees(c: Chan, t: Tally) {
    && c.sentUp + c.toSend == t.handed
    && c.sentDown + Owed(c) == Flat(t.replies)
    && LengthsOf(t.replies) + Awaited(c) == t.lens
    && |c.gotDown| + c.need + Total(c.more) == Total(t.lens)
    && (c.phase.Quiet? ==> c.need == 0 && c.more == [])
  }

  lemma {:induction false} FlatAppend(parts: seq<Bytes>, last: Bytes)
    ensures Flat(parts + [last]) == Flat(parts) + last
    ensures LengthsOf(parts + [last]) == LengthsOf(parts) + [|last|]
  {
    if parts == [] {
      assert parts + [last] == [last] && [last][1..] == [];
    } else {
      assert (parts + [last])[1..] == parts[1..] + [last];
      FlatAppend(parts[1..], last);
      Associate(parts[0], Flat(parts[1..]), last);
    }
  }

  lemma {:induction false} TotalAppend(a: seq<nat>, b: seq<nat>)
    ensures Total(a + b) == Total(a) + Total(b)
  {
    if a == [] {
      assert a + b == b;
    } else {
      assert (a + b)[1..] == a[1..] + b;
      TotalAppend(a[1..], b);
    }
  }

  /** A rex owes bytes only while its port is being answered, and only to a port of its own. */
  predicate OwesInTime(c: Chan) {
    && (!c.spawned || !c.phase.Answering? ==> Owed(c) == [])
    && (c.rex.Some? && c.rex.value.dead ==> Owed(c) == [])
    && (c.phase.Quiet? ==> c.toSend == [])
    && (!c.open ==> !c.spawned)
  }

  lemma OwesNothing(s: Sys, p: nat)
    requires Inv(s) && IsPort(p)
    ensures OwesInTime(s.chans[p])
  {
    assert PortAt(s, p);
  }

  lemma FlushAgrees(c: Chan, n: nat, t: Tally)
    requires n <= |c.toSend| && Agrees(c, t)
    ensures Agrees(c.(toSend := c.toSend[n..], sentUp := c.sentUp + c.toSend[..n]), t)
  {
    Associate(c.sentUp, c.toSend[..n], c.toSend[n..]);
    assert c.toSend[..n] + c.toSend[n..] == c.toSend;
  }

  lemma WriteAgrees(c: Chan, n: nat, t: Tally)
    requires c.rex.Some? && n <= |c.rex.value.owed| && Agrees(c, t)
    ensures var r := c.rex.value;
            Agrees(c.(rex := Some(r.(owed := r.owed[n..], outbox := r.outbox + r.owed[..n])),
                      sentDown := c.sentDown + r.owed[..n]), t)
  {
    var owed := c.rex.value.owed;
    Associate(c.sentDown, owed[..n], owed[n..]);
    assert owed[..n] + owed[n..] == owed;
  }

  lemma AskAgrees(c: Chan, request: Bytes, lens: seq<nat>, t: Tally)
    requires c.phase.Quiet? && c.toSend == [] && |lens| > 0 && Agrees(c, t)
    ensures Agrees(c.(phase := Asking, toSend := request, reqLeft := |request|, need := lens[0], more := lens[1..]),
                   Tally(t.handed + request, t.replies, t.lens + lens))
  {
    Nil(c.sentUp);
    TotalAppend(t.lens, lens);
    assert [lens[0]] + lens[1..] == lens;
  }

  lemma ReplyAgrees(c: Chan, reply: Bytes, t: Tally)
    requires c.phase.Asking? && c.rex.Some? && c.rex.value.owed == [] && |reply| == c.need && Agrees(c, t)
    ensures Agrees(c.(phase := Answering, rex := Some(c.rex.value.(owed := reply))), t.(replies := t.replies + [reply]))
  {
    Nil(c.sentDown);
    FlatAppend(t.replies, reply);
    Associate(LengthsOf(t.replies), [c.need], c.more);
  }

  /** The action leaves the streams of the port as they were. */
  predicate SameStreams(c: Chan, d: Chan) {
    && d.sentUp == c.sentUp && d.toSend == c.toSend && d.sentDown == c.sentDown && Owed(d) == Owed(c)
    && d.gotDown == c.gotDown && d.need == c.need && d.more == c.more && d.phase == c.phase
  }

  lemma SameAgrees(c: Chan, d: Chan, t: Tally)
    requires SameStreams(c, d) && Agrees(c, t)
    ensures Agrees(d, t)
  {
  }

  lemma OpenAgrees(c: Chan, lens: seq<nat>)
    requires |lens| > 0 && Owed(c) == []
    ensures Agrees(Chan(true, NeedLock, Asking, false, [], 0, lens[0], lens[1..], [], c.rex, [], [], [], []),
                   Tally([], [], lens))
  {
    assert [lens[0]] + lens[1..] == lens;
  }

  lemma KillAgrees(c: Chan)
    requires Owed(c) == []
    ensures Agrees(CLOSED_CHAN.(rex := c.rex), NOTHING)
  {
  }

  /** The actions of port `p` that hand over nothing and answer nothing. */
  lemma PortStepKeeps(s: Sys, a: Action, p: nat)
    requires WellFormed(s) && IsPort(p) && OwesInTime(s.chans[p]) && OnPort(a) && PortStep(s, a, p).To?
    requires !a.OpenPort? && !a.KillRex? && !a.Ask? && !a.Flush? && !a.RexReply? && !a.RexWrite?
    ensures SameStreams(s.chans[p], PortStep(s, a, p).next.chans[p])
  {
  }

  /** The actions of a client thread on its port. */
  lemma ThreadAgrees(s: Sys, a: Action, p: nat, t: Tally)
    requires WellFormed(s) && IsPort(p) && OwesInTime(s.chans[p]) && OnPort(a) && a.p == p && PortStep(s, a, p).To?
    requires (a.OpenPort? || a.KillRex? || a.Ask? || a.Flush?) && Agrees(s.chans[p], t)
    ensures Agrees(PortStep(s, a, p).next.chans[p], Count(t, a, s.handler, p))
  {
    var c := s.chans[p];
    match a
    case OpenPort(_, lens) => OpenAgrees(c, lens);
    case KillRex(_) => KillAgrees(c);
    case Ask(_, request, lens) => AskAgrees(c, request, lens, t);
    case Flush(_, n) => FlushAgrees(c, n, t);
    case _ =>
  }

  /** The actions of its rex. */
  lemma RexAgrees(s: Sys, a: Action, p: nat, t: Tally)
    requires WellFormed(s) && IsPort(p) && OwesInTime(s.chans[p]) && OnPort(a) && a.p == p && PortStep(s, a, p).To?
    requires (a.RexReply? || a.RexWrite?) && Agrees(s.chans[p], t)
    ensures Agrees(PortStep(s, a, p).next.chans[p], Count(t, a, s.handler, p))
  {
    match a
    case RexReply(_, reply) => ReplyAgrees(s.chans[p], reply, t);
    case RexWrite(_, n) => WriteAgrees(s.chans[p], n, t);
    case _ =>
  }

  lemma PortStepAgrees(s: Sys, a: Action, p: nat, t: Tally)
    requires WellFormed(s) && IsPort(p) && OwesInTime(s.chans[p]) && OnPort(a) && a.p == p && PortStep(s, a, p).To?
    requires Agrees(s.chans[p], t)
    ensures Agrees(PortStep(s, a, p).next.chans[p], Count(t, a, s.handler, p))
  {
    if a.OpenPort? || a.KillRex? || a.Ask? || a.Flush? {
      ThreadAgrees(s, a, p, t);
    } else if a.RexReply? || a.RexWrite? {
      RexAgrees(s, a, p, t);
    } else {
      PortStepKeeps(s, a, p);
      SameAgrees(s.chans[p], PortStep(s, a, p).next.chans[p], t);
    }
  }

  /** A command to run a rex is only for a port without one. */
  lemma ExecIsDormant(s: Sys, p: nat)
    requires Inv(s) && IsPort(p) && s.up != [] && s.up[0] == Exec(p)
    ensures Owed(s.chans[p]) == []
  {
    assert PortAt(s, p);
    UpForTail(s.up, p);
    assert !AllData(UpFor(s.up, p)) by {
      assert UpFor(s.up, p)[0] == Exec(p);
    }
    OwesNothing(s, p);
  }

  lemma AgentRecvKeeps(s: Sys, p: nat)
    requires WellFormed(s) && IsPort(p) && DoAgentRecv(s).To? && (s.up[0] == Exec(p) ==> Owed(s.chans[p]) == [])
    ensures SameStreams(s.chans[p], DoAgentRecv(s).next.chans[p])
  {
  }

  lemma ConsumeAgrees(c: Chan, n: nat, t: Tally)
    requires 0 < n <= |c.buf| && n <= c.need && Agrees(c, t) && !c.phase.Asking?
    ensures Agrees(c.(buf := c.buf[n..], need := c.need - n, gotDown := c.gotDown + c.buf[..n]), t)
  {
  }

  lemma NextRoundAgrees(c: Chan, message: Bytes, t: Tally)
    requires c.phase.Answering? && c.need == 0 && c.more != [] && c.toSend == [] && Agrees(c, t)
    ensures Agrees(c.(phase := Asking, reqLeft := |message|, need := c.more[0], more := c.more[1..],
                      sentUp := c.sentUp + message), t.(handed := t.handed + message))
  {
    Nil(c.sentUp);
    Nil(c.sentUp + message);
    assert [c.more[0]] + c.more[1..] == c.more && [] + c.more == c.more;
  }

  lemma FinishAgrees(c: Chan, t: Tally)
    requires c.phase.Answering? && c.need == 0 && c.more == [] && Agrees(c, t)
    ensures Agrees(c.(phase := Quiet), t)
  {
  }

  /** The handler takes bytes, or ends a reply, of a port that is being answered. */
  lemma ReadsAnswer(s: Sys)
    requires Inv(s) && s.handler.Reading?
    ensures s.chans[s.handler.port].need == 0 || s.chans[s.handler.port].buf != [] ==>
              s.chans[s.handler.port].phase.Answering?
  {
    assert PortAt(s, s.handler.port);
  }

  /** The handler reads its port. */
  lemma ReaderAgrees(s: Sys, a: Action, p: nat, t: Tally)
    requires WellFormed(s) && IsPort(p) && s.handler == Reading(p) && Step(s, a).To? && Agrees(s.chans[p], t)
    requires a.Consume? || a.NextRound? || a.Finish?
    requires s.chans[p].need == 0 || s.chans[p].buf != [] ==> s.chans[p].phase.Answering?
    ensures Agrees(Step(s, a).next.chans[p], Count(t, a, s.handler, p))
  {
    match a
    case Consume(n) => ConsumeAgrees(s.chans[p], n, t);
    case NextRound(message) => NextRoundAgrees(s.chans[p], message, t);
    case Finish => FinishAgrees(s.chans[p], t);
    case _ =>
  }

  /** The handler does something else, or reads another port. */
  lemma HandlerKeeps(s: Sys, a: Action, p: nat)
    requires WellFormed(s) && IsPort(p) && !OnPort(a) && !a.AgentRecv? && Step(s, a).To?
    requires s.handler != Reading(p) || a.Peek? || a.Fill?
    ensures SameStreams(s.chans[p], Step(s, a).next.chans[p])
  {
  }

  lemma HandlerAgrees(s: Sys, a: Action, p: nat, t: Tally)
    requires Inv(s) && IsPort(p) && !OnPort(a) && !a.AgentRecv? && Step(s, a).To? && Agrees(s.chans[p], t)
    ensures Agrees(Step(s, a).next.chans[p], Count(t, a, s.handler, p))
  {
    if s.handler == Reading(p) && !a.Peek? && !a.Fill? {
      ReadsAnswer(s);
      ReaderAgrees(s, a, p, t);
    } else {
      HandlerKeeps(s, a, p);
      SameAgrees(s.chans[p], Step(s, a).next.chans[p], t);
    }
  }

  lemma StepAgrees(s: Sys, a: Action, p: nat, t: Tally)
    requires Inv(s) && IsPort(p) && Step(s, a).To? && Agrees(s.chans[p], t)
    ensures Agrees(Step(s, a).next.chans[p], Count(t, a, s.handler, p))
  {
    if OnPort(a) {
      if a.p == p {
        OwesNothing(s, p);
        PortStepAgrees(s, a, p, t);
      }
    } else {
      match a
      case AgentRecv =>
        if s.up[0] == Exec(p) { ExecIsDormant(s, p); }
        AgentRecvKeeps(s, p);
        SameAgrees(s.chans[p], Step(s, a).next.chans[p], t);
      case _ => HandlerAgrees(s, a, p, t);
    }
  }

  lemma {:induction false} RunAgrees(s: Sys, actions: seq<Action>, p: nat, t: Tally)
    requires Inv(s) && IsPort(p) && Run(s, actions).To? && Agrees(s.chans[p], t)
    ensures |Run(s, actions).next.chans| == |s.chans| && Agrees(Run(s, actions).next.chans[p], Counted(s, actions, p, t))
    decreases |actions|
  {
    if actions != [] {
      StepSafe(s, actions[0]);
      StepAgrees(s, actions[0], p, t);
      RunAgrees(Step(s, actions[0]).next, actions[1..], p, Count(t, actions[0], s.handler, p));
    }
  }

  /** Main result: after any run the bytes sent for a port, followed by those not yet flushed, are the
      requests and messages handed over for it, in order; what its rex has sent, followed by what it
      owes, are its replies; each side has received a beginning of it.  A port without a request has
      received all of it, and every reply has the length that was waited for. */
  lemma HandedIsReceived(actions: seq<Action>, s: Sys, p: nat)
    requires LeadsTo(actions, s) && IsPort(p)
    ensures WellFormed(s)
    ensures var c, t := s.chans[p], Counted(Start(), actions, p, NOTHING);
            && c.sentUp + c.toSend == t.handed && c.sentDown + Owed(c) == Flat(t.replies)
            && c.gotUp <= t.handed && c.gotDown <= Flat(t.replies)
            && (c.phase.Quiet? ==> c.gotUp == t.handed && c.gotDown == Flat(t.replies) && LengthsOf(t.replies) == t.lens)
  {
    ReachedAgrees(actions, s, p);
    assert Reachable(s);
    StreamsPreserved(s, p);
    QuietHasNone(s, p);
    Nil(s.chans[p].sentUp);
    Nil(s.chans[p].sentDown);
  }

  lemma ReachedAgrees(actions: seq<Action>, s: Sys, p: nat)
    requires LeadsTo(actions, s) && IsPort(p)
    ensures Inv(s) && Agrees(s.chans[p], Counted(Start(), actions, p, NOTHING))
  {
    StartOk();
    RunSafe(Start(), actions);
    RunAgrees(Start(), actions, p, NOTHING);
  }

  lemma QuietHasNone(s: Sys, p: nat)
    requires Inv(s) && IsPort(p)
    ensures s.chans[p].phase.Quiet? ==> s.chans[p].toSend == [] && Owed(s.chans[p]) == []
    ensures s.chans[p].sentUp <= s.chans[p].sentUp + s.chans[p].toSend
  {
    OwesNothing(s, p);
  }

  /** When nothing is left to do, every rex has read what was handed over for it, and every request has
      its replies. */
  lemma HandedIsServed(actions: seq<Action>, s: Sys, p: nat)
    requires LeadsTo(actions, s) && WellFormed(s) && MxioProgress.Exhausted(s) && IsPort(p)
    ensures var c, t := s.chans[p], Counted(Start(), actions, p, NOTHING);
            c.gotUp == t.handed && c.gotDown == Flat(t.replies) && LengthsOf(t.replies) == t.lens
  {
    HandedIsReceived(actions, s, p);
    assert Reachable(s);
    MxioProgress.EveryRequestCompletes(s, p);
  }
}
