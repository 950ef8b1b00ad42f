/** What every reachable state of the multiplexed connection satisfies: no fault, and both byte
streams of every port in order. */
module MxioSafety {
  import opened Wrappers
  import opened Mxio

  // ----- What every reachable state satisfies -----

  function UpPort(x: Up): nat { if x.ReadDone? then 0 else x.port }

  function DownPort(x: Down): nat { if x.Ack? then 0 else x.port }

  /** The packets for port `p`, in order. */
  ghost function UpFor(q: seq<Up>, p: nat): seq<Up> {
    if q == [] then []
    else if UpPort(q[0]) == p then [q[0]] + UpFor(q[1..], p)
    else UpFor(q[1..], p)
  }

  ghost function UpBytes(q: seq<Up>): Bytes {
    if q == [] then []
    else if q[0].Data? then q[0].bytes + UpBytes(q[1..])
    else UpBytes(q[1..])
  }

  ghost function DownFor(q: seq<Down>, p: nat): Bytes {
    if q == [] then []
    else if q[0].Reply? && q[0].port == p then q[0].bytes + DownFor(q[1..], p)
    else DownFor(q[1..], p)
  }

  ghost function Acks(q: seq<Down>): nat {
    if q == [] then 0 else (if q[0].Ack? then 1 else 0) + Acks(q[1..])
  }

  ghost function Execs(q: seq<Up>): nat {
    if q == [] then 0 else (if q[0].Exec? then 1 else 0) + Execs(q[1..])
  }

  ghost function Dones(q: seq<Up>): nat {
    if q == [] then 0 else (if q[0].ReadDone? then 1 else 0) + Dones(q[1..])
  }

  /** The packets in front of the first READ_DONE. */
  ghost function BeforeDone(q: seq<Up>): seq<Up> {
    if q == [] || q[0].ReadDone? then [] else [q[0]] + BeforeDone(q[1..])
  }

  ghost predicate NoReply(q: seq<Down>) {
    forall i | 0 <= i < |q| :: q[i].Ack?
  }

  /** Every reply packet is for port `p`, and none is empty. */
  ghost predicate OnlyRepliesTo(q: seq<Down>, p: nat) {
    forall i | 0 <= i < |q| :: q[i].Reply? ==> q[i].port == p && q[i].bytes != []
  }

  ghost predicate AllData(q: seq<Up>) {
    forall i | 0 <= i < |q| :: q[i].Data? && q[i].bytes != []
  }

  ghost predicate Silent(r: Rex) { r.inbox == [] && r.owed == [] && r.outbox == [] }

  ghost predicate Alive(r: Option<Rex>) { r.Some? && !r.value.doomed && !r.value.dead }

  ghost predicate NoLogs(c: Chan) {
    c.sentUp == [] && c.gotUp == [] && c.sentDown == [] && c.gotDown == []
  }

  /** A port without a running rex of its own: closed, or opened and not yet spawned.  A
      killed predecessor may still be around. */
  ghost predicate DormantOk(p: nat, c: Chan, up: seq<Up>, down: Bytes, hasLock: bool) {
    && !c.spawned
    && down == [] && c.buf == [] && c.toSend == [] && c.reqLeft == 0 && NoLogs(c)
    && (c.rex.Some? ==> Silent(c.rex.value) && (c.rex.value.dead ==> c.rex.value.doomed))
    && (if c.open
        then c.phase.Asking? && !c.invoke.Acked? && c.need > 0 && hasLock == c.invoke.AwaitAck?
        else c.phase.Quiet? && !hasLock)
    && (var exec := if c.open && c.invoke.AwaitAck? then [Exec(p)] else [];
        if Alive(c.rex) then up == [Kill(p)] + exec else up == exec)
  }

  /** A port with a running rex. */
  ghost predicate LiveOk(c: Chan, up: seq<Up>, down: Bytes, hasLock: bool) {
    && c.open && Alive(c.rex)
    && !c.invoke.NeedLock? && hasLock == c.invoke.AwaitAck?
    && AllData(up)
    && c.sentUp == c.gotUp + c.rex.value.inbox + UpBytes(up)
    && c.sentDown == c.gotDown + c.buf + down + c.rex.value.outbox
    && match c.phase
       case Quiet =>
         up == [] && down == [] && c.buf == [] && c.toSend == [] && Silent(c.rex.value)
       case Asking =>
         && down == [] && c.buf == [] && c.rex.value.owed == [] && c.rex.value.outbox == []
         && c.need > 0
         && c.reqLeft == |c.toSend| + |UpBytes(up)| + |c.rex.value.inbox|
       case Answering =>
         && up == [] && c.toSend == [] && c.rex.value.inbox == [] && c.reqLeft == 0
         && c.need == |c.buf| + |down| + |c.rex.value.outbox| + |c.rex.value.owed|
  }

  ghost predicate PortOk(p: nat, c: Chan, up: seq<Up>, down: Bytes, hasLock: bool, read: bool) {
    && (c.buf != [] ==> read)
    && (c.phase.Answering? && c.need == 0 ==> read)
    && (forall i | 0 <= i < |c.more| :: c.more[i] > 0)
    && (if c.spawned then LiveOk(c, up, down, hasLock) else DormantOk(p, c, up, down, hasLock))
  }

  ghost predicate PortAt(s: Sys, p: nat)
    requires WellFormed(s) && IsPort(p)
  {
    PortOk(p, s.chans[p], UpFor(s.up, p), DownFor(s.down, p), s.lock == Some(p), s.handler == Reading(p))
  }

  ghost predicate PortsOk(s: Sys)
    requires WellFormed(s)
  {
    forall p: nat {:trigger PortAt(s, p)} | IsPort(p) :: PortAt(s, p)
  }

  /** At most one EXEC is outstanding, and its acknowledgement is in one place. */
  ghost predicate AckOk(s: Sys) {
    Acks(s.down) + Execs(s.up) + (if s.hp0Peeked then 1 else 0) == (if s.lock.Some? then 1 else 0)
  }

  /** The narrow session: from the first packet of a reply to its READ_DONE, the agent reads
      one rex only and the handler reads one handle only.  `c` is the port of that rex. */
  ghost predicate NarrowOk(p: nat, c: Chan, h: Handler, up: seq<Up>, down: seq<Down>) {
    if Dones(up) == 0 then
      && OnlyRepliesTo(down, p)
      && c.spawned && !c.phase.Quiet?
      && (h == Reading(p) || (h.Idle? && !NoReply(down)))
    else
      && Dones(up) == 1
      && h.Idle? && NoReply(down)
      && Alive(c.rex) && Silent(c.rex.value)
      && (c.spawned ==> c.phase.Quiet? || (c.phase.Asking? && c.reqLeft > 0))
      && UpFor(BeforeDone(up), p) == []
  }

  ghost predicate SessionOk(s: Sys)
    requires WellFormed(s)
  {
    if s.narrow then NarrowOk(s.narrowPort, s.chans[s.narrowPort], s.handler, s.up, s.down)
    else Dones(s.up) == 0 && s.handler.Idle? && NoReply(s.down)
  }

  ghost predicate Inv(s: Sys) {
    WellFormed(s) && PortsOk(s) && AckOk(s) && SessionOk(s)
  }

  // ----- How the projections change when a packet is queued -----

  lemma {:induction false} UpForPush(q: seq<Up>, x: Up, p: nat)
    ensures UpFor(q + [x], p) == if UpPort(x) == p then UpFor(q, p) + [x] else UpFor(q, p)
  {
    if q == [] {
      assert q + [x] == [x];
    } else {
      assert (q + [x])[1..] == q[1..] + [x];
      UpForPush(q[1..], x, p);
    }
  }

  lemma {:induction false} UpCountsPush(q: seq<Up>, x: Up)
    ensures Execs(q + [x]) == Execs(q) + if x.Exec? then 1 else 0
    ensures Dones(q + [x]) == Dones(q) + if x.ReadDone? then 1 else 0
  {
    if q == [] {
      assert q + [x] == [x];
    } else {
      assert (q + [x])[1..] == q[1..] + [x];
      UpCountsPush(q[1..], x);
    }
  }

  lemma {:induction false} UpBytesPush(q: seq<Up>, x: Up)
    ensures UpBytes(q + [x]) == if x.Data? then UpBytes(q) + x.bytes else UpBytes(q)
  {
    if q == [] {
      assert q + [x] == [x];
    } else {
      assert (q + [x])[1..] == q[1..] + [x];
      UpBytesPush(q[1..], x);
    }
  }

  lemma {:induction false} BeforeDonePush(q: seq<Up>, x: Up)
    ensures BeforeDone(q + [x]) == if Dones(q) > 0 then BeforeDone(q)
                                   else if x.ReadDone? then q else q + [x]
  {
    if q == [] {
      assert q + [x] == [x];
    } else {
      assert (q + [x])[1..] == q[1..] + [x];
      BeforeDonePush(q[1..], x);
    }
  }

  lemma {:induction false} ExecsForPort(q: seq<Up>, p: nat)
    ensures Execs(UpFor(q, p)) <= Execs(q)
  {
    if q != [] {
      ExecsForPort(q[1..], p);
      if UpPort(q[0]) == p {
        assert UpFor(q, p)[1..] == UpFor(q[1..], p);
      }
    }
  }

  lemma {:induction false} DownPush(q: seq<Down>, x: Down, p: nat)
    ensures DownFor(q + [x], p) == if x.Reply? && x.port == p then DownFor(q, p) + x.bytes else DownFor(q, p)
    ensures Acks(q + [x]) == Acks(q) + if x.Ack? then 1 else 0
  {
    if q == [] {
      assert q + [x] == [x];
    } else {
      assert (q + [x])[1..] == q[1..] + [x];
      DownPush(q[1..], x, p);
    }
  }

  // ----- Every action keeps the invariant and raises no fault -----

  ghost predicate Safe(o: Outcome) {
    !o.Fatal? && (o.To? ==> Inv(o.next))
  }

  /** At most one packet joins or leaves a queue, for port `p` or port 0. */
  ghost predicate UpMoves(q: seq<Up>, r: seq<Up>, p: nat) {
    || r == q
    || (q != [] && r == q[1..] && UpPort(q[0]) in {0, p})
    || exists x: Up :: r == q + [x] && UpPort(x) in {0, p}
  }

  ghost predicate DownMoves(q: seq<Down>, r: seq<Down>, p: nat) {
    || r == q
    || (q != [] && r == q[1..] && DownPort(q[0]) in {0, p})
    || exists x: Down :: r == q + [x] && DownPort(x) in {0, p}
  }

  /** The lock and the handler are unchanged for everyone but port `p`. */
  predicate SameOwners(s: Sys, t: Sys, p: nat) {
    && (t.lock == s.lock || (s.lock in {None, Some(p)} && t.lock in {None, Some(p)}))
    && (t.handler == s.handler || (s.handler in {Idle, Reading(p)} && t.handler in {Idle, Reading(p)}))
  }

  /** One port at a time: the ports an action does not touch keep their invariant. */
  lemma OtherPorts(s: Sys, t: Sys, p: nat)
    requires WellFormed(s) && PortsOk(s) && WellFormed(t) && IsPort(p)
    requires t.chans == s.chans[p := t.chans[p]] && SameOwners(s, t, p)
    requires UpMoves(s.up, t.up, p) && DownMoves(s.down, t.down, p)
    requires PortAt(t, p)
    ensures PortsOk(t)
  {
    forall q: nat | IsPort(q)
      ensures PortAt(t, q)
    {
      if q != p {
        assert PortAt(s, q);
        SameUpFor(s.up, t.up, p, q);
        SameDownFor(s.down, t.down, p, q);
      }
    }
  }

  lemma SameUpFor(q: seq<Up>, r: seq<Up>, p: nat, other: nat)
    requires other != p && other != 0 && UpMoves(q, r, p)
    ensures UpFor(r, other) == UpFor(q, other)
  {
    if x: Up :| r == q + [x] && UpPort(x) in {0, p} { UpForPush(q, x, other); }
  }

  lemma SameDownFor(q: seq<Down>, r: seq<Down>, p: nat, other: nat)
    requires other != p && other != 0 && DownMoves(q, r, p)
    ensures DownFor(r, other) == DownFor(q, other)
  {
    if x: Down :| r == q + [x] && DownPort(x) in {0, p} { DownPush(q, x, other); }
  }

  /** A packet other than READ_DONE joins the queue, and the port's thread only spends bytes
      or closes an idle handle. */
  lemma PushKeepsSession(s: Sys, t: Sys, p: nat, x: Up)
    requires Inv(s) && WellFormed(t) && IsPort(p) && !x.ReadDone?
    requires t.chans == s.chans[p := t.chans[p]] && t.up == s.up + [x]
    requires t.down == s.down && t.narrow == s.narrow && t.narrowPort == s.narrowPort
             && t.handler == s.handler
    requires var c, d := s.chans[p], t.chans[p];
             || d.(toSend := c.toSend, sentUp := c.sentUp, invoke := c.invoke) == c
             || (c.spawned && c.phase.Quiet? && !d.spawned && d.rex == c.rex && d.buf == [])
    ensures SessionOk(t)
  {
    UpCountsPush(s.up, x);
    BeforeDonePush(s.up, x);
  }

  // Client threads.

  lemma OpenPortSafe(s: Sys, p: nat, lens: seq<nat>)
    requires Inv(s) && IsPort(p)
    ensures Safe(DoOpenPort(s, p, lens))
  {
    var o := DoOpenPort(s, p, lens);
    if o.To? {
      assert PortAt(s, p);
      OtherPorts(s, o.next, p);
    }
  }

  lemma ExecPort(p: nat, c: Chan, up: seq<Up>, down: Bytes, read: bool)
    requires PortOk(p, c, up, down, false, read) && c.open && c.invoke.NeedLock?
    ensures PortOk(p, c.(invoke := AwaitAck), up + [Exec(p)], down, true, read)
  {}

  lemma LockAndExecSafe(s: Sys, p: nat)
    requires Inv(s) && IsPort(p)
    ensures Safe(DoLockAndExec(s, p))
  {
    var o := DoLockAndExec(s, p);
    if o.To? {
      assert PortsOk(o.next) by {
        assert PortAt(s, p);
        UpForPush(s.up, Exec(p), p);
        ExecPort(p, s.chans[p], UpFor(s.up, p), DownFor(s.down, p), s.handler == Reading(p));
        OtherPorts(s, o.next, p);
      }
      UpCountsPush(s.up, Exec(p));
      PushKeepsSession(s, o.next, p, Exec(p));
    }
  }

  lemma TakeAckSafe(s: Sys, p: nat)
    requires Inv(s) && IsPort(p)
    ensures Safe(DoTakeAck(s, p))
  {
    var o := DoTakeAck(s, p);
    if o.To? {
      assert PortsOk(o.next) by {
        assert PortAt(s, p);
        ExecsForPort(s.up, p);
        OtherPorts(s, o.next, p);
      }
    }
  }

  lemma AskSafe(s: Sys, p: nat, request: Bytes, lens: seq<nat>)
    requires Inv(s) && IsPort(p)
    ensures Safe(DoAsk(s, p, request, lens))
  {
    var o := DoAsk(s, p, request, lens);
    if o.To? {
      assert PortsOk(o.next) by {
        assert PortAt(s, p);
        OtherPorts(s, o.next, p);
      }
    }
  }

  /** The client sends `x` to a rex that is still receiving its request. */
  lemma SendPort(p: nat, c: Chan, d: Chan, up: seq<Up>, down: Bytes, hasLock: bool, read: bool, bytes: Bytes)
    requires c.spawned && LiveOk(c, up, down, hasLock)
    requires forall i | 0 <= i < |c.more| :: c.more[i] > 0
    requires down == [] && c.buf == [] && c.rex.value.owed == [] && c.rex.value.outbox == []
    requires d == c.(phase := Asking, need := d.need, more := d.more, toSend := d.toSend,
                     reqLeft := d.reqLeft, sentUp := c.sentUp + bytes)
    requires forall i | 0 <= i < |d.more| :: d.more[i] > 0
    requires bytes != [] && d.need > 0
    requires d.reqLeft == |d.toSend| + |bytes| + |UpBytes(up)| + |c.rex.value.inbox|
    ensures PortOk(p, d, up + [Data(p, bytes)], down, hasLock, read)
  {
    UpBytesPush(up, Data(p, bytes));
    Associate(c.gotUp + c.rex.value.inbox, UpBytes(up), bytes);
    Associate(c.gotUp, c.rex.value.inbox, UpBytes(up));
  }

  lemma FlushSafe(s: Sys, p: nat, n: nat)
    requires Inv(s) && IsPort(p)
    ensures Safe(DoFlush(s, p, n))
  {
    var o := DoFlush(s, p, n);
    if o.To? {
      var x := Data(p, s.chans[p].toSend[..n]);
      assert PortsOk(o.next) by {
        assert PortAt(s, p);
        UpForPush(s.up, x, p);
        SendPort(p, s.chans[p], o.next.chans[p], UpFor(s.up, p), DownFor(s.down, p), s.lock == Some(p),
                 s.handler == Reading(p), x.bytes);
        OtherPorts(s, o.next, p);
      }
      UpCountsPush(s.up, x);
      PushKeepsSession(s, o.next, p, x);
    }
  }

  lemma KillRexSafe(s: Sys, p: nat)
    requires Inv(s) && IsPort(p)
    ensures Safe(DoKillRex(s, p))
  {
    var o := DoKillRex(s, p);
    if o.To? {
      assert PortAt(s, p);
      assert PortsOk(o.next) by {
        UpForPush(s.up, Kill(p), p);
        OtherPorts(s, o.next, p);
      }
      UpCountsPush(s.up, Kill(p));
      PushKeepsSession(s, o.next, p, Kill(p));
    }
  }

  // The handler thread.

  /** The first packet on its way to the client, whoever reads it: a reply is for the port
      of the narrow session, and that port waits for it. */
  lemma FirstDown(s: Sys)
    requires Inv(s) && s.down != []
    ensures s.down[0].Ack? ==> !s.hp0Peeked
    ensures s.down[0].Reply? ==>
              && s.narrow && s.down[0].port == s.narrowPort && Dones(s.up) == 0
              && s.chans[s.narrowPort].open && s.chans[s.narrowPort].phase.Answering?
  {
    if s.down[0].Reply? {
      assert PortAt(s, s.narrowPort);
    }
  }

  /** The handler takes a packet of port `p` into its empty buffer. */
  lemma TakePort(p: nat, c: Chan, up: seq<Up>, bytes: Bytes, down: Bytes, hasLock: bool, read: bool)
    requires PortOk(p, c, up, bytes + down, hasLock, read) && c.buf == [] && bytes != []
    ensures PortOk(p, c.(buf := bytes), up, down, hasLock, true)
  {
    assert c.spawned ==>
        c.gotDown + bytes + down + c.rex.value.outbox ==
        c.gotDown + c.buf + (bytes + down) + c.rex.value.outbox;
  }

  lemma TakeAckPacket(s: Sys)
    requires Inv(s) && s.down != [] && s.down[0].Ack?
    ensures !s.hp0Peeked && Inv(s.(hp0Peeked := true, down := s.down[1..]))
  {
    FirstDown(s);
    var t := s.(hp0Peeked := true, down := s.down[1..]);
    assert PortsOk(t) by {
      assert PortAt(s, 1);
      OtherPorts(s, t, 1);
    }
  }

  lemma TakeReplyPacket(s: Sys, p: nat)
    requires Inv(s) && s.down != [] && s.down[0].Reply? && s.down[0].port == p && s.chans[p].buf == []
    ensures s.chans[p].open && !s.chans[p].phase.Quiet?
    ensures Inv(Put(s, p, s.chans[p].(buf := s.down[0].bytes)).(handler := Reading(p), down := s.down[1..]))
  {
    FirstDown(s);
    var t := Put(s, p, s.chans[p].(buf := s.down[0].bytes)).(handler := Reading(p), down := s.down[1..]);
    assert PortsOk(t) by {
      assert PortAt(s, p);
      TakePort(p, s.chans[p], UpFor(s.up, p), s.down[0].bytes, DownFor(s.down[1..], p),
               s.lock == Some(p), s.handler == Reading(p));
      OtherPorts(s, t, p);
    }
  }

  lemma PeekSafe(s: Sys)
    requires Inv(s)
    ensures Safe(DoPeek(s))
  {
    if s.handler.Idle? && s.down != [] {
      if s.down[0].Ack? {
        TakeAckPacket(s);
      } else {
        var p := s.down[0].port;
        assert PortAt(s, p);
        TakeReplyPacket(s, p);
      }
    }
  }

  lemma ConsumePort(p: nat, c: Chan, up: seq<Up>, down: Bytes, hasLock: bool, read: bool, n: nat)
    requires PortOk(p, c, up, down, hasLock, read) && 0 < n <= |c.buf| && n <= c.need
    ensures PortOk(p, c.(buf := c.buf[n..], need := c.need - n, gotDown := c.gotDown + c.buf[..n]),
                   up, down, hasLock, read)
  {
    assert c.gotDown + c.buf + down + c.rex.value.outbox ==
           (c.gotDown + c.buf[..n]) + c.buf[n..] + down + c.rex.value.outbox;
  }

  lemma ConsumeSafe(s: Sys, n: nat)
    requires Inv(s)
    ensures Safe(DoConsume(s, n))
  {
    var o := DoConsume(s, n);
    if o.To? {
      var p := s.handler.port;
      assert PortsOk(o.next) by {
        assert PortAt(s, p);
        ConsumePort(p, s.chans[p], UpFor(s.up, p), DownFor(s.down, p), s.lock == Some(p), s.handler == Reading(p), n);
        OtherPorts(s, o.next, p);
      }
    }
  }

  lemma FillSafe(s: Sys)
    requires Inv(s)
    ensures Safe(DoFill(s))
  {
    if s.handler.Reading? && s.down != [] {
      var p := s.handler.port;
      if s.down[0].Ack? {
        TakeAckPacket(s);
      } else if s.chans[p].buf == [] {
        FirstDown(s);
        TakeReplyPacket(s, p);
      }
    }
  }

  /** The handler has read its reply to the end: nothing of it is left anywhere. */
  lemma RoundDone(s: Sys)
    requires Inv(s) && s.handler.Reading? && s.chans[s.handler.port].need == 0
    ensures var p := s.handler.port; var c := s.chans[p];
            && s.narrow && s.narrowPort == p && Dones(s.up) == 0
            && c.spawned && c.phase.Answering? && c.buf == [] && c.toSend == [] && Alive(c.rex) && Silent(c.rex.value)
            && UpFor(s.up, p) == [] && DownFor(s.down, p) == [] && NoReply(s.down)
  {
    var p := s.handler.port;
    assert PortAt(s, p);
    NoBytesNoReply(s.down, p);
  }

  lemma {:induction false} NoBytesNoReply(q: seq<Down>, p: nat)
    requires OnlyRepliesTo(q, p) && DownFor(q, p) == []
    ensures NoReply(q)
  {
    if q != [] {
      assert q[0].Ack?;
      NoBytesNoReply(q[1..], p);
      assert forall i | 0 < i < |q| :: q[i] == q[1..][i - 1];
    }
  }

  lemma NextRoundSafe(s: Sys, message: Bytes)
    requires Inv(s)
    ensures Safe(DoNextRound(s, message))
  {
    var o := DoNextRound(s, message);
    if s.handler.Reading? && s.chans[s.handler.port].need == 0 {
      RoundDone(s);
      if o.To? {
        var p := s.handler.port;
        var x := Data(p, message);
        assert PortsOk(o.next) by {
          assert PortAt(s, p);
          UpForPush(s.up, x, p);
          SendPort(p, s.chans[p], o.next.chans[p], UpFor(s.up, p), DownFor(s.down, p), s.lock == Some(p),
                   s.handler == Reading(p), message);
          OtherPorts(s, o.next, p);
        }
        UpCountsPush(s.up, x);
      }
    }
  }

  lemma FinishSafe(s: Sys)
    requires Inv(s)
    ensures Safe(DoFinish(s))
  {
    var o := DoFinish(s);
    if s.handler.Reading? && s.chans[s.handler.port].need == 0 {
      RoundDone(s);
      if o.To? {
        var p := s.handler.port;
        assert PortsOk(o.next) by {
          assert PortAt(s, p);
          UpForPush(s.up, ReadDone, p);
          OtherPorts(s, o.next, p);
        }
        UpCountsPush(s.up, ReadDone);
        BeforeDonePush(s.up, ReadDone);
      }
    }
  }

  // The agent.

  lemma {:induction false} UpForTail(q: seq<Up>, p: nat)
    requires q != []
    ensures UpFor(q, p) == if UpPort(q[0]) == p then [q[0]] + UpFor(q[1..], p) else UpFor(q[1..], p)
    ensures Dones(q) == Dones(q[1..]) + if q[0].ReadDone? then 1 else 0
    ensures Execs(q) == Execs(q[1..]) + if q[0].Exec? then 1 else 0
    ensures !q[0].ReadDone? ==> BeforeDone(q) == [q[0]] + BeforeDone(q[1..])
  {}

  /** A packet that leaves the queue in a session whose READ_DONE is queued is not for the
      port of that session. */
  lemma HeadNotForSession(s: Sys)
    requires Inv(s) && s.up != [] && s.narrow && Dones(s.up) == 1 && !s.up[0].ReadDone?
    ensures UpPort(s.up[0]) != s.narrowPort
    ensures UpFor(BeforeDone(s.up[1..]), s.narrowPort) == []
  {
    UpForTail(s.up, s.narrowPort);
    var rest := BeforeDone(s.up[1..]);
    assert ([s.up[0]] + rest)[1..] == rest;
    UpForTail([s.up[0]] + rest, s.narrowPort);
  }

  lemma ReadDoneSafe(s: Sys)
    requires Inv(s) && s.up != [] && s.up[0].ReadDone?
    ensures Inv(s.(up := s.up[1..], narrow := false))
  {
    var t := s.(up := s.up[1..], narrow := false);
    assert PortAt(s, 1);
    OtherPorts(s, t, 1);
  }

  lemma SpawnPort(p: nat, c: Chan, up: seq<Up>, down: Bytes, hasLock: bool, read: bool)
    requires PortOk(p, c, [Exec(p)] + up, down, hasLock, read)
    ensures PortOk(p, c.(spawned := true, rex := Some(Rex([], [], [], false, false))), up, down, hasLock, read)
  {
    assert ([Exec(p)] + up)[0].Exec?;
    assert !c.spawned;
    assert up == [] by { assert |[Exec(p)] + up| == 1 + |up|; }
  }

  /** A packet leaves the queue; its port keeps its phase. */
  lemma PopKeepsSession(s: Sys, t: Sys, p: nat)
    requires Inv(s) && WellFormed(t) && s.up != [] && !s.up[0].ReadDone? && UpPort(s.up[0]) == p
    requires t.chans == s.chans[p := t.chans[p]] && t.up == s.up[1..]
    requires t.down == s.down || t.down == s.down + [Ack]
    requires t.narrow == s.narrow && t.narrowPort == s.narrowPort && t.handler == s.handler
    requires t.chans[p].phase == s.chans[p].phase && (s.chans[p].spawned ==> t.chans[p].spawned)
    ensures SessionOk(t)
  {
    UpForTail(s.up, p);
    if s.narrow && Dones(s.up) == 1 { HeadNotForSession(s); }
    if t.down == s.down + [Ack] {
      assert forall i | 0 <= i < |s.down| :: t.down[i] == s.down[i];
    }
  }

  lemma SpawnSafe(s: Sys)
    requires Inv(s) && s.up != [] && s.up[0].Exec?
    ensures Safe(DoAgentRecv(s))
  {
    var p := s.up[0].port;
    var o := DoAgentRecv(s);
    UpForTail(s.up, p);
    DownPush(s.down, Ack, p);
    PopKeepsSession(s, o.next, p);
    assert PortAt(s, p);
    SpawnPort(p, s.chans[p], UpFor(s.up[1..], p), DownFor(s.down, p), s.lock == Some(p), s.handler == Reading(p));
    assert PortsOk(o.next) by {
      OtherPorts(s, o.next, p);
    }
  }

  lemma ForwardPort(p: nat, c: Chan, x: Up, up: seq<Up>, down: Bytes, hasLock: bool, read: bool)
    requires PortOk(p, c, [x] + up, down, hasLock, read) && x.Data?
    ensures c.spawned && c.rex.Some?
    ensures PortOk(p, c.(rex := Some(c.rex.value.(inbox := c.rex.value.inbox + x.bytes))), up, down, hasLock, read)
  {
    var q := [x] + up;
    assert q[0] == x && q[1..] == up;
    assert c.spawned;
    assert forall i | 0 <= i < |up| :: up[i] == q[i + 1];
    assert UpBytes(q) == x.bytes + UpBytes(up);
    Associate(c.gotUp + c.rex.value.inbox, x.bytes, UpBytes(up));
    Associate(c.gotUp, c.rex.value.inbox, x.bytes);
  }

  lemma DoomPort(p: nat, c: Chan, up: seq<Up>, down: Bytes, hasLock: bool, read: bool)
    requires PortOk(p, c, [Kill(p)] + up, down, hasLock, read)
    ensures !c.spawned && c.rex.Some?
    ensures PortOk(p, c.(rex := Some(c.rex.value.(doomed := true))), up, down, hasLock, read)
  {
    var q := [Kill(p)] + up;
    assert q[0] == Kill(p) && q[1..] == up;
  }

  lemma ForwardSafe(s: Sys)
    requires Inv(s) && s.up != [] && s.up[0].Data?
    ensures Safe(DoAgentRecv(s))
  {
    var x := s.up[0];
    var p := x.port;
    UpForTail(s.up, p);
    assert PortAt(s, p);
    ForwardPort(p, s.chans[p], x, UpFor(s.up[1..], p), DownFor(s.down, p), s.lock == Some(p), s.handler == Reading(p));
    var o := DoAgentRecv(s);
    assert PortsOk(o.next) by { OtherPorts(s, o.next, p); }
    PopKeepsSession(s, o.next, p);
  }

  lemma DoomSafe(s: Sys)
    requires Inv(s) && s.up != [] && s.up[0].Kill?
    ensures Safe(DoAgentRecv(s))
  {
    var p := s.up[0].port;
    UpForTail(s.up, p);
    assert PortAt(s, p);
    DoomPort(p, s.chans[p], UpFor(s.up[1..], p), DownFor(s.down, p), s.lock == Some(p), s.handler == Reading(p));
    var o := DoAgentRecv(s);
    assert PortsOk(o.next) by { OtherPorts(s, o.next, p); }
    PopKeepsSession(s, o.next, p);
  }

  lemma AgentRecvSafe(s: Sys)
    requires Inv(s)
    ensures Safe(DoAgentRecv(s))
  {
    if s.up != [] {
      if s.up[0].ReadDone? { ReadDoneSafe(s); }
      else if s.up[0].Exec? { SpawnSafe(s); }
      else if s.up[0].Data? { ForwardSafe(s); }
      else { DoomSafe(s); }
    }
  }

  lemma ReadPort(p: nat, c: Chan, up: seq<Up>, down: Bytes, hasLock: bool, read: bool, n: nat)
    requires PortOk(p, c, up, down, hasLock, read) && c.rex.Some? && 0 < n <= |c.rex.value.outbox|
    ensures c.spawned && c.phase.Answering?
    ensures PortOk(p, c.(rex := Some(c.rex.value.(outbox := c.rex.value.outbox[n..]))),
                   up, down + c.rex.value.outbox[..n], hasLock, read)
  {
    var out := c.rex.value.outbox;
    assert out == out[..n] + out[n..];
    Associate(c.gotDown + c.buf + down, out[..n], out[n..]);
    Associate(c.gotDown + c.buf, down, out[..n]);
  }

  lemma AgentReadSafe(s: Sys, p: nat, n: nat)
    requires Inv(s) && IsPort(p)
    ensures Safe(DoAgentRead(s, p, n))
  {
    if s.narrow { assert PortAt(s, s.narrowPort); }
    var o := DoAgentRead(s, p, n);
    if o.To? {
      var c := s.chans[p];
      var x := Reply(p, c.rex.value.outbox[..n]);
      DownPush(s.down, x, p);
      assert PortAt(s, p);
      ReadPort(p, c, UpFor(s.up, p), DownFor(s.down, p), s.lock == Some(p), s.handler == Reading(p), n);
      assert PortsOk(o.next) by { OtherPorts(s, o.next, p); }
      assert (s.down + [x])[|s.down|] == x;
    }
  }

  lemma AgentEofSafe(s: Sys, p: nat)
    requires Inv(s) && IsPort(p)
    ensures Safe(DoAgentEof(s, p))
  {
    assert PortAt(s, p);
    var o := DoAgentEof(s, p);
    if o.To? {
      assert PortsOk(o.next) by { OtherPorts(s, o.next, p); }
    }
  }

  // The rexes.

  lemma RecvPort(p: nat, c: Chan, up: seq<Up>, down: Bytes, hasLock: bool, read: bool, n: nat)
    requires PortOk(p, c, up, down, hasLock, read) && c.rex.Some?
    requires 0 < n <= |c.rex.value.inbox| && n <= c.reqLeft
    ensures c.spawned && c.phase.Asking?
    ensures PortOk(p, c.(rex := Some(c.rex.value.(inbox := c.rex.value.inbox[n..])), reqLeft := c.reqLeft - n,
                         gotUp := c.gotUp + c.rex.value.inbox[..n]), up, down, hasLock, read)
  {
    var i := c.rex.value.inbox;
    assert i == i[..n] + i[n..];
    Associate(c.gotUp, i[..n], i[n..]);
  }

  lemma RexRecvSafe(s: Sys, p: nat, n: nat)
    requires Inv(s) && IsPort(p)
    ensures Safe(DoRexRecv(s, p, n))
  {
    var o := DoRexRecv(s, p, n);
    if o.To? {
      assert PortAt(s, p);
      RecvPort(p, s.chans[p], UpFor(s.up, p), DownFor(s.down, p), s.lock == Some(p), s.handler == Reading(p), n);
      assert PortsOk(o.next) by { OtherPorts(s, o.next, p); }
    }
  }

  lemma DataHasBytes(up: seq<Up>)
    requires AllData(up) && up != []
    ensures |UpBytes(up)| > 0
  {
    assert UpBytes(up) == up[0].bytes + UpBytes(up[1..]);
  }

  lemma NothingQueued(p: nat, c: Chan, up: seq<Up>, down: Bytes, hasLock: bool, read: bool)
    requires PortOk(p, c, up, down, hasLock, read) && c.spawned && c.phase.Asking? && c.reqLeft == 0
    ensures up == [] && c.toSend == [] && c.rex.value.inbox == []
  {
    if up != [] { DataHasBytes(up); }
  }

  lemma RexReplySafe(s: Sys, p: nat, reply: Bytes)
    requires Inv(s) && IsPort(p)
    ensures Safe(DoRexReply(s, p, reply))
  {
    var o := DoRexReply(s, p, reply);
    if o.To? {
      assert PortAt(s, p);
      NothingQueued(p, s.chans[p], UpFor(s.up, p), DownFor(s.down, p), s.lock == Some(p), s.handler == Reading(p));
      assert PortsOk(o.next) by { OtherPorts(s, o.next, p); }
    }
  }

  lemma WritePort(p: nat, c: Chan, up: seq<Up>, down: Bytes, hasLock: bool, read: bool, n: nat)
    requires PortOk(p, c, up, down, hasLock, read) && c.rex.Some? && 0 < n <= |c.rex.value.owed|
    ensures c.spawned && c.phase.Answering?
    ensures var r := c.rex.value;
            PortOk(p, c.(rex := Some(r.(owed := r.owed[n..], outbox := r.outbox + r.owed[..n])),
                         sentDown := c.sentDown + r.owed[..n]), up, down, hasLock, read)
  {
    var r := c.rex.value;
    Associate(c.gotDown + c.buf + down, r.outbox, r.owed[..n]);
  }

  lemma RexWriteSafe(s: Sys, p: nat, n: nat)
    requires Inv(s) && IsPort(p)
    ensures Safe(DoRexWrite(s, p, n))
  {
    var o := DoRexWrite(s, p, n);
    if o.To? {
      assert PortAt(s, p);
      WritePort(p, s.chans[p], UpFor(s.up, p), DownFor(s.down, p), s.lock == Some(p), s.handler == Reading(p), n);
      assert PortsOk(o.next) by { OtherPorts(s, o.next, p); }
    }
  }

  lemma RexDieSafe(s: Sys, p: nat)
    requires Inv(s) && IsPort(p)
    ensures Safe(DoRexDie(s, p))
  {
    var o := DoRexDie(s, p);
    if o.To? {
      assert PortAt(s, p);
      assert PortsOk(o.next) by { OtherPorts(s, o.next, p); }
    }
  }

  // ----- Whole runs -----

  lemma PortStepSafe(s: Sys, a: Action, p: nat)
    requires Inv(s) && IsPort(p) && OnPort(a)
    ensures Safe(PortStep(s, a, p))
  {
    match a
    case OpenPort(_, lens) => OpenPortSafe(s, p, lens);
    case LockAndExec(_) => LockAndExecSafe(s, p);
    case TakeAck(_) => TakeAckSafe(s, p);
    case Ask(_, request, lens) => AskSafe(s, p, request, lens);
    case Flush(_, n) => FlushSafe(s, p, n);
    case KillRex(_) => KillRexSafe(s, p);
    case AgentRead(_, n) => AgentReadSafe(s, p, n);
    case AgentEof(_) => AgentEofSafe(s, p);
    case RexRecv(_, n) => RexRecvSafe(s, p, n);
    case RexReply(_, reply) => RexReplySafe(s, p, reply);
    case RexWrite(_, n) => RexWriteSafe(s, p, n);
    case RexDie(_) => RexDieSafe(s, p);
  }

  lemma StepSafe(s: Sys, a: Action)
    requires Inv(s)
    ensures Safe(Step(s, a))
  {
    if OnPort(a) {
      if IsPort(a.p) { PortStepSafe(s, a, a.p); }
    } else {
      match a
      case Peek => PeekSafe(s);
      case Consume(n) => ConsumeSafe(s, n);
      case Fill => FillSafe(s);
      case NextRound(message) => NextRoundSafe(s, message);
      case Finish => FinishSafe(s);
      case AgentRecv => AgentRecvSafe(s);
    }
  }

  lemma StartOk()
    ensures Inv(Start())
  {
    forall p: nat | IsPort(p) ensures PortAt(Start(), p) {}
  }

  lemma {:induction false} RunSafe(s: Sys, actions: seq<Action>)
    requires Inv(s)
    ensures Safe(Run(s, actions))
    decreases |actions|
  {
    if actions != [] {
      StepSafe(s, actions[0]);
      if Step(s, actions[0]).To? { RunSafe(Step(s, actions[0]).next, actions[1..]); }
    }
  }

  /** No run, under any interleaving and any fragmentation, reaches one of the faults. */
  lemma NoRunFaults(actions: seq<Action>)
    ensures !Run(Start(), actions).Fatal?
  {
    StartOk();
    RunSafe(Start(), actions);
  }

  lemma ReachableInv(s: Sys)
    requires Reachable(s)
    ensures Inv(s)
  {
    var actions: seq<Action> :| LeadsTo(actions, s);
    StartOk();
    RunSafe(Start(), actions);
  }

  /** While the handler reads port `p`, every packet on its way to the client is for `p` or
      an acknowledgement of port 0, and never more than one acknowledgement is unconsumed. */
  lemma HandlerMeetsItsPort(s: Sys)
    requires Reachable(s)
    ensures s.handler.Reading? ==>
              forall i | 0 <= i < |s.down| :: s.down[i].Reply? ==> s.down[i].port == s.handler.port
    ensures Acks(s.down) + (if s.hp0Peeked then 1 else 0) <= 1
  {
    ReachableInv(s);
  }

  /** Both byte streams of a port arrive in order and without loss: what was received is a
      prefix of what was sent, and all of it once no request is outstanding. */
  lemma StreamsPreserved(s: Sys, p: nat)
    requires Reachable(s) && IsPort(p)
    ensures WellFormed(s)
    ensures var c := s.chans[p];
            && c.gotUp <= c.sentUp && c.gotDown <= c.sentDown
            && (c.phase.Quiet? ==> c.gotUp == c.sentUp && c.gotDown == c.sentDown)
  {
    ReachableInv(s);
    assert PortAt(s, p);
  }
}
