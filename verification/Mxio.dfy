/** The multiplexed connection between a client and its agent.

One socket carries the packets of up to 127 remote executables ("rexes") and of the agent
itself (port 0).  Client threads flush packets, one handler thread reads every packet that
comes back, the agent forwards packets and switches between a wide mode, where it listens
to all rexes, and a narrow mode, where it listens to one.  The module models them as a
state machine whose actions are the places where the C code touches the socket, a lock or
a rex, and keeps the `omrpc_fatal` branches as outcomes of their own. */
module Mxio {
  import opened Wrappers

  const MAX_HANDLE_PER_PORT: nat := 128

  type Bytes = seq<byte>

  /** Packets from the client to the agent.  `Exec` and `ReadDone` travel on port 0;
      `Kill` is the data packet that holds the request OMRPC_REQ_KILL. */
  datatype Up = Exec(port: nat) | Data(port: nat, bytes: Bytes) | Kill(port: nat) | ReadDone

  /** Packets from the agent to the client.  `Ack` travels on port 0. */
  datatype Down = Ack | Reply(port: nat, bytes: Bytes)

  /** A remote executable with its two socket directions. */
  datatype Rex = Rex(inbox: Bytes, owed: Bytes, outbox: Bytes, doomed: bool, dead: bool)

  /** Where the current request of a port stands: none, travelling to the rex, or being
      answered. */
  datatype Phase = Quiet | Asking | Answering

  /** How far the thread that invokes a rex has come: waiting for the agent lock, waiting
      for the agent's acknowledgement, done. */
  datatype Invoke = NeedLock | AwaitAck | Acked

  /** Everything that belongs to one port.
      `need` is what the handler still reads of the current reply and `more` the lengths of
      the replies that follow inside the same request (the byte-order handshake makes the
      startup message two replies).  The last four fields log the two byte streams. */
  datatype Chan = Chan(
    open: bool,
    invoke: Invoke,
    phase: Phase,
    spawned: bool,
    toSend: Bytes,
    reqLeft: nat,
    need: nat,
    more: seq<nat>,
    buf: Bytes,
    rex: Option<Rex>,
    sentUp: Bytes,
    gotUp: Bytes,
    sentDown: Bytes,
    gotDown: Bytes)

  datatype Handler = Idle | Reading(port: nat)

  datatype Sys = Sys(
    chans: seq<Chan>,
    lock: Option<nat>,
    hp0Peeked: bool,
    handler: Handler,
    narrow: bool,
    narrowPort: nat,
    up: seq<Up>,
    down: seq<Down>)

  datatype Action =
    | OpenPort(p: nat, lens: seq<nat>)
    | LockAndExec(p: nat)
    | TakeAck(p: nat)
    | Ask(p: nat, request: Bytes, lens: seq<nat>)
    | Flush(p: nat, n: nat)
    | KillRex(p: nat)
    | Peek
    | Consume(n: nat)
    | Fill
    | NextRound(message: Bytes)
    | Finish
    | AgentRecv
    | AgentRead(p: nat, n: nat)
    | AgentEof(p: nat)
    | RexRecv(p: nat, n: nat)
    | RexReply(p: nat, reply: Bytes)
    | RexWrite(p: nat, n: nat)
    | RexDie(p: nat)

  /** The places where the program gives up or would lose a byte without noticing. */
  datatype Fault =
    | PeekedPortAlreadyFilled    // omrpc_io.c:232
    | InvalidPortInFill          // omrpc_io.c:242
    | PeekWithoutHandle          // omrpc_io_event.c:318
    | PeekIntoFullBuffer         // omrpc_io_event.c:320
    | PeekWithoutRequest         // omrpc_io_event.c:189, the packet is dropped
    | AckOverwritten             // omrpc_io_event.c:325 on port 0
    | CommandBeforeDone          // omrpc_io_rw.c:91
    | BytesDiscarded             // omrpc_io.c:335 and 344 with bytes left in the buffer, received or unsent
    | PacketToNoProc             // omrpc_agent_mxio.c:156
    | NoProcInNarrowMode         // omrpc_agent_mxio.c:190

  datatype Outcome = Disabled | To(next: Sys) | Fatal(fault: Fault)

  predicate IsPort(p: nat) { 1 <= p < MAX_HANDLE_PER_PORT }

  predicate WellFormed(s: Sys) {
    && |s.chans| == MAX_HANDLE_PER_PORT
    && (s.handler.Reading? ==> IsPort(s.handler.port))
    && (s.lock.Some? ==> IsPort(s.lock.value))
    && (s.narrow ==> IsPort(s.narrowPort))
    && (forall i | 0 <= i < |s.up| :: s.up[i].ReadDone? || IsPort(s.up[i].port))
    && (forall i | 0 <= i < |s.down| :: s.down[i].Ack? || IsPort(s.down[i].port))
  }

  predicate Lengths(lens: seq<nat>) {
    |lens| > 0 && forall i | 0 <= i < |lens| :: lens[i] > 0
  }

  const CLOSED_CHAN: Chan :=
    Chan(false, Acked, Quiet, false, [], 0, 0, [], [], None, [], [], [], [])

  function Start(): Sys {
    Sys(seq(MAX_HANDLE_PER_PORT, i => CLOSED_CHAN), None, false, Idle, false, 0, [], [])
  }

  function Put(s: Sys, p: nat, c: Chan): Sys
    requires p < |s.chans|
  {
    s.(chans := s.chans[p := c])
  }

  // ----- Client threads -----

  /** omrpc_exec_module: a free slot becomes a handle and an INVOKE request is attached. */
  function DoOpenPort(s: Sys, p: nat, lens: seq<nat>): (o: Outcome)
    requires WellFormed(s) && IsPort(p)
    ensures o.To? ==> WellFormed(o.next)
  {
    var c := s.chans[p];
    if c.open || !Lengths(lens) then Disabled
    else
      To(Put(s, p, Chan(true, NeedLock, Asking, false, [], 0, lens[0], lens[1..], [], c.rex, [], [], [], [])))
  }

  /** AGENT_LOCK, then omrpc_agent_invoke up to its flush. */
  function DoLockAndExec(s: Sys, p: nat): (o: Outcome)
    requires WellFormed(s) && IsPort(p)
    ensures o.To? ==> WellFormed(o.next)
  {
    var c := s.chans[p];
    if !c.open || !c.invoke.NeedLock? || s.lock.Some? then Disabled
    else if s.hp0Peeked then Fatal(CommandBeforeDone)
    else To(Put(s, p, c.(invoke := AwaitAck)).(lock := Some(p), up := s.up + [Exec(p)]))
  }

  /** The rest of omrpc_agent_invoke: take the acknowledgement from handle 0, AGENT_UNLOCK. */
  function DoTakeAck(s: Sys, p: nat): (o: Outcome)
    requires WellFormed(s) && IsPort(p)
    ensures o.To? ==> WellFormed(o.next)
  {
    var c := s.chans[p];
    if !c.open || !c.invoke.AwaitAck? || !s.hp0Peeked then Disabled
    else To(Put(s, p, c.(invoke := Acked)).(lock := None, hp0Peeked := false))
  }

  /** A thread binds a request to an idle rex; its bytes are flushed by later actions. */
  function DoAsk(s: Sys, p: nat, request: Bytes, lens: seq<nat>): (o: Outcome)
    requires WellFormed(s) && IsPort(p)
    ensures o.To? ==> WellFormed(o.next)
  {
    var c := s.chans[p];
    if !c.open || !c.invoke.Acked? || !c.phase.Quiet? || request == [] || !Lengths(lens) then Disabled
    else
      To(Put(s, p, c.(phase := Asking, toSend := request, reqLeft := |request|,
                      need := lens[0], more := lens[1..])))
  }

  /** omrpc_io_handle_flush of one buffer, under the I/O lock. */
  function DoFlush(s: Sys, p: nat, n: nat): (o: Outcome)
    requires WellFormed(s) && IsPort(p)
    ensures o.To? ==> WellFormed(o.next)
  {
    var c := s.chans[p];
    if n == 0 || n > OMRPC_IO_BUF_SIZE || n > |c.toSend| then Disabled
    else
      To(Put(s, p, c.(toSend := c.toSend[n..], sentUp := c.sentUp + c.toSend[..n]))
         .(up := s.up + [Data(p, c.toSend[..n])]))
  }

  /** omrpc_kill_rpc: send KILL, close the handle, free its slot. */
  function DoKillRex(s: Sys, p: nat): (o: Outcome)
    requires WellFormed(s) && IsPort(p)
    ensures o.To? ==> WellFormed(o.next)
  {
    var c := s.chans[p];
    if !c.open || !c.invoke.Acked? || !c.phase.Quiet? then Disabled
    else To(Put(s, p, CLOSED_CHAN.(rex := c.rex)).(up := s.up + [Kill(p)]))
  }

  // ----- The handler thread -----

  /** omrpc_get_input_handle on a multiplexed port. */
  function DoPeek(s: Sys): (o: Outcome)
    requires WellFormed(s)
    ensures o.To? ==> WellFormed(o.next)
  {
    if !s.handler.Idle? || s.down == [] then Disabled
    else
      match s.down[0]
      case Ack =>
        if s.hp0Peeked then Fatal(AckOverwritten)
        else To(s.(hp0Peeked := true, down := s.down[1..]))
      case Reply(p, bytes) =>
        var c := s.chans[p];
        if !c.open then Fatal(PeekWithoutHandle)
        else if c.buf != [] || c.toSend != [] then Fatal(PeekIntoFullBuffer)
        else if c.phase.Quiet? then Fatal(PeekWithoutRequest)
        else To(Put(s, p, c.(buf := bytes)).(handler := Reading(p), down := s.down[1..]))
  }

  /** omrpc_io_recv copying from the buffer. */
  function DoConsume(s: Sys, n: nat): (o: Outcome)
    requires WellFormed(s)
    ensures o.To? ==> WellFormed(o.next)
  {
    if !s.handler.Reading? then Disabled
    else
      var p := s.handler.port;
      var c := s.chans[p];
      if n == 0 || n > |c.buf| || n > c.need then Disabled
      else To(Put(s, p, c.(buf := c.buf[n..], need := c.need - n, gotDown := c.gotDown + c.buf[..n])))
  }

  /** omrpc_io_handle_fill on a multiplexed port, one header at a time. */
  function DoFill(s: Sys): (o: Outcome)
    requires WellFormed(s)
    ensures o.To? ==> WellFormed(o.next)
  {
    if !s.handler.Reading? || s.down == [] then Disabled
    else
      var p := s.handler.port;
      var c := s.chans[p];
      if c.buf != [] || c.need == 0 then Disabled
      else
        match s.down[0]
        case Ack =>
          if s.hp0Peeked then Fatal(PeekedPortAlreadyFilled)
          else To(s.(hp0Peeked := true, down := s.down[1..]))
        case Reply(q, bytes) =>
          if q != p then Fatal(InvalidPortInFill)
          else To(Put(s, p, c.(buf := bytes)).(down := s.down[1..]))
  }

  /** The client half of the byte-order handshake: omrpc_recv_done0, then a message that
      asks for the next reply of the same request.  No READ_DONE is sent. */
  function DoNextRound(s: Sys, message: Bytes): (o: Outcome)
    requires WellFormed(s)
    ensures o.To? ==> WellFormed(o.next)
  {
    if !s.handler.Reading? then Disabled
    else
      var p := s.handler.port;
      var c := s.chans[p];
      if c.need != 0 || c.more == [] || message == [] || |message| > OMRPC_IO_BUF_SIZE then Disabled
      else if c.buf != [] || c.toSend != [] then Fatal(BytesDiscarded)
      else
        To(Put(s, p, c.(phase := Asking, reqLeft := |message|, need := c.more[0], more := c.more[1..],
                        sentUp := c.sentUp + message))
           .(up := s.up + [Data(p, message)]))
  }

  /** omrpc_recv_done: forget the buffer, send READ_DONE, release the request. */
  function DoFinish(s: Sys): (o: Outcome)
    requires WellFormed(s)
    ensures o.To? ==> WellFormed(o.next)
  {
    if !s.handler.Reading? then Disabled
    else
      var p := s.handler.port;
      var c := s.chans[p];
      if c.need != 0 || c.more != [] then Disabled
      else if c.buf != [] || c.toSend != [] then Fatal(BytesDiscarded)
      else To(Put(s, p, c.(phase := Quiet)).(handler := Idle, up := s.up + [ReadDone]))
  }

  // ----- The agent -----

  /** The client half of omrpc_agent_mxio_recv_check and the command loop of the agent. */
  function DoAgentRecv(s: Sys): (o: Outcome)
    requires WellFormed(s)
    ensures o.To? ==> WellFormed(o.next)
  {
    if s.up == [] then Disabled
    else
      var rest := s.(up := s.up[1..]);
      match s.up[0]
      case ReadDone => To(rest.(narrow := false))
      case Exec(p) =>
        To(Put(rest, p, s.chans[p].(spawned := true, rex := Some(Rex([], [], [], false, false))))
           .(down := s.down + [Ack]))
      case Data(p, bytes) =>
        var c := s.chans[p];
        if c.rex.None? then Fatal(PacketToNoProc)
        else To(Put(rest, p, c.(rex := Some(c.rex.value.(inbox := c.rex.value.inbox + bytes)))))
      case Kill(p) =>
        var c := s.chans[p];
        if c.rex.None? then Fatal(PacketToNoProc)
        else To(Put(rest, p, c.(rex := Some(c.rex.value.(doomed := true)))))
  }

  /** The rex half of omrpc_agent_mxio_recv_check: one read of a rex becomes one packet, and
      the mode is narrow from then on. */
  function DoAgentRead(s: Sys, p: nat, n: nat): (o: Outcome)
    requires WellFormed(s) && IsPort(p)
    ensures o.To? ==> WellFormed(o.next)
  {
    if s.narrow && s.chans[s.narrowPort].rex.None? then Fatal(NoProcInNarrowMode)
    else if s.narrow && p != s.narrowPort then Disabled
    else
      var c := s.chans[p];
      if c.rex.None? || n == 0 || n > OMRPC_IO_BUF_SIZE || n > |c.rex.value.outbox| then Disabled
      else
        var r := c.rex.value;
        To(Put(s, p, c.(rex := Some(r.(outbox := r.outbox[n..]))))
           .(narrow := true, narrowPort := p, down := s.down + [Reply(p, r.outbox[..n])]))
  }

  /** End of file on a rex the agent listens to. */
  function DoAgentEof(s: Sys, p: nat): (o: Outcome)
    requires WellFormed(s) && IsPort(p)
    ensures o.To? ==> WellFormed(o.next)
  {
    var c := s.chans[p];
    if s.narrow && p != s.narrowPort then Disabled
    else if c.rex.None? || !c.rex.value.dead || c.rex.value.outbox != [] then Disabled
    else To(Put(s, p, c.(rex := None)).(narrow := false))
  }

  // ----- A rex: it speaks only when its request has fully arrived -----

  function DoRexRecv(s: Sys, p: nat, n: nat): (o: Outcome)
    requires WellFormed(s) && IsPort(p)
    ensures o.To? ==> WellFormed(o.next)
  {
    var c := s.chans[p];
    if c.rex.None? || n == 0 || n > |c.rex.value.inbox| || n > c.reqLeft then Disabled
    else
      var r := c.rex.value;
      To(Put(s, p, c.(rex := Some(r.(inbox := r.inbox[n..])), reqLeft := c.reqLeft - n,
                      gotUp := c.gotUp + r.inbox[..n])))
  }

  function DoRexReply(s: Sys, p: nat, reply: Bytes): (o: Outcome)
    requires WellFormed(s) && IsPort(p)
    ensures o.To? ==> WellFormed(o.next)
  {
    var c := s.chans[p];
    if c.rex.None? || !c.spawned || !c.phase.Asking? || c.reqLeft != 0 || |reply| != c.need then Disabled
    else To(Put(s, p, c.(phase := Answering, rex := Some(c.rex.value.(owed := reply)))))
  }

  function DoRexWrite(s: Sys, p: nat, n: nat): (o: Outcome)
    requires WellFormed(s) && IsPort(p)
    ensures o.To? ==> WellFormed(o.next)
  {
    var c := s.chans[p];
    if c.rex.None? || n == 0 || n > |c.rex.value.owed| then Disabled
    else
      var r := c.rex.value;
      To(Put(s, p, c.(rex := Some(r.(owed := r.owed[n..], outbox := r.outbox + r.owed[..n])),
                      sentDown := c.sentDown + r.owed[..n])))
  }

  function DoRexDie(s: Sys, p: nat): (o: Outcome)
    requires WellFormed(s) && IsPort(p)
    ensures o.To? ==> WellFormed(o.next)
  {
    var c := s.chans[p];
    if c.rex.None? || !c.rex.value.doomed || c.rex.value.dead then Disabled
    else To(Put(s, p, c.(rex := Some(c.rex.value.(dead := true)))))
  }

  predicate OnPort(a: Action) {
    !a.Peek? && !a.Consume? && !a.Fill? && !a.NextRound? && !a.Finish? && !a.AgentRecv?
  }

  function PortStep(s: Sys, a: Action, p: nat): (o: Outcome)
    requires WellFormed(s) && IsPort(p) && OnPort(a)
    ensures o.To? ==> WellFormed(o.next)
  {
    match a
    case OpenPort(_, lens) => DoOpenPort(s, p, lens)
    case LockAndExec(_) => DoLockAndExec(s, p)
    case TakeAck(_) => DoTakeAck(s, p)
    case Ask(_, request, lens) => DoAsk(s, p, request, lens)
    case Flush(_, n) => DoFlush(s, p, n)
    case KillRex(_) => DoKillRex(s, p)
    case AgentRead(_, n) => DoAgentRead(s, p, n)
    case AgentEof(_) => DoAgentEof(s, p)
    case RexRecv(_, n) => DoRexRecv(s, p, n)
    case RexReply(_, reply) => DoRexReply(s, p, reply)
    case RexWrite(_, n) => DoRexWrite(s, p, n)
    case RexDie(_) => DoRexDie(s, p)
  }

  function Step(s: Sys, a: Action): (o: Outcome)
    requires WellFormed(s)
    ensures o.To? ==> WellFormed(o.next)
  {
    if OnPort(a) then if IsPort(a.p) then PortStep(s, a, a.p) else Disabled
    else
      match a
      case Peek => DoPeek(s)
      case Consume(n) => DoConsume(s, n)
      case Fill => DoFill(s)
      case NextRound(message) => DoNextRound(s, message)
      case Finish => DoFinish(s)
      case AgentRecv => DoAgentRecv(s)
  }

  // ----- Whole runs -----

  /** The outcome of a sequence of actions; it stops at the first one that cannot happen. */
  function Run(s: Sys, actions: seq<Action>): Outcome
    requires WellFormed(s)
    decreases |actions|
  {
    if actions == [] then To(s)
    else
      match Step(s, actions[0])
      case To(t) => Run(t, actions[1..])
      case Disabled => Disabled
      case Fatal(fault) => Fatal(fault)
  }

  ghost predicate LeadsTo(actions: seq<Action>, s: Sys) { Run(Start(), actions) == To(s) }

  ghost predicate Reachable(s: Sys) {
    exists actions: seq<Action> :: LeadsTo(actions, s)
  }
}
