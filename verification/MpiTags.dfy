/** The MPI back end: client and stub each count the tags of their messages, and a message is
received only under the tag it was sent with. */
module MpiTags {
  import opened Wrappers
  import D = DimExpr
  import B = ByteOrder
  import S = StubInfo
  import opened Shapes

  const OMRPC_REQ_STUB_INFO: int := 2
  const OMRPC_REQ_CALL: int := 4
  const OMRPC_END_STUB_TAG: int := 32767
  const PARAM_DESC_TAG: int := 13

  // ----- Messages and matching -----

  datatype Data = Ints(vs: seq<int>) | Chars(s: seq<byte>) | One(arg: D.Arg) | Elements(es: seq<Elem>)

  datatype Msg = Msg(tag: int, data: Data)

  /** MPI_Recv takes the earliest message with its tag (section 3.5 of the MPI standard). */
  function Earliest(channel: seq<Msg>, tag: int): (i: nat)
    ensures i <= |channel|
    ensures i < |channel| ==> channel[i].tag == tag
    ensures forall k | 0 <= k < i :: channel[k].tag != tag
  {
    if channel == [] || channel[0].tag == tag then 0 else 1 + Earliest(channel[1..], tag)
  }

  /** What receives under the given tags take from a channel in which `schedule` says when the
      next message is sent (`true`) and when the next receive is tried (`false`); a receive
      without a matching message is tried again later. */
  function Receives(waiting: seq<Msg>, sends: seq<Msg>, tags: seq<int>, schedule: seq<bool>): seq<Msg>
    decreases |schedule|
  {
    if schedule == [] then []
    else if schedule[0] then
      if sends == [] then Receives(waiting, sends, tags, schedule[1..])
      else Receives(waiting + [sends[0]], sends[1..], tags, schedule[1..])
    else
      var i := if tags == [] then |waiting| else Earliest(waiting, tags[0]);
      if i == |waiting| then Receives(waiting, sends, tags, schedule[1..])
      else [waiting[i]] + Receives(waiting[..i] + waiting[i + 1..], sends, tags[1..], schedule[1..])
  }

  function TagsOf(ms: seq<Msg>): seq<int> {
    if ms == [] then [] else [ms[0].tag] + TagsOf(ms[1..])
  }

  lemma TagsSplit(waiting: seq<Msg>, sends: seq<Msg>)
    requires waiting != []
    ensures var tags := TagsOf(waiting + sends);
            tags != [] && tags[0] == waiting[0].tag && tags[1..] == TagsOf(waiting[1..] + sends)
  {
    assert (waiting + sends)[1..] == waiting[1..] + sends;
  }

  lemma PrefixCons(x: Msg, s: seq<Msg>, t: seq<Msg>)
    requires s <= t
    ensures [x] + s <= [x] + t
  {
  }

  lemma EarliestFirst(channel: seq<Msg>, tag: int)
    requires channel != [] && channel[0].tag == tag
    ensures Earliest(channel, tag) == 0
  {
  }

  lemma ReceiveFirst(waiting: seq<Msg>, sends: seq<Msg>, tags: seq<int>, schedule: seq<bool>)
    requires schedule != [] && !schedule[0] && tags != [] && waiting != []
    requires tags[0] == waiting[0].tag
    ensures Receives(waiting, sends, tags, schedule) ==
            [waiting[0]] + Receives(waiting[1..], sends, tags[1..], schedule[1..])
  {
    EarliestFirst(waiting, tags[0]);
    assert waiting[..0] + waiting[0 + 1..] == waiting[1..];
  }

  /** When both sides use the same tag sequence, the k-th receive gets the k-th message sent,
      whatever the schedule. */
  lemma {:induction false} KthGetsKth(waiting: seq<Msg>, sends: seq<Msg>, schedule: seq<bool>)
    ensures Receives(waiting, sends, TagsOf(waiting + sends), schedule) <= waiting + sends
    decreases |schedule|
  {
    var all := waiting + sends;
    var tags := TagsOf(all);
    if schedule != [] {
      if schedule[0] && sends != [] {
        assert (waiting + [sends[0]]) + sends[1..] == all;
        KthGetsKth(waiting + [sends[0]], sends[1..], schedule[1..]);
      } else if schedule[0] || waiting == [] {
        KthGetsKth(waiting, sends, schedule[1..]);
      } else {
        TagsSplit(waiting, sends);
        ReceiveFirst(waiting, sends, tags, schedule);
        KthGetsKth(waiting[1..], sends, schedule[1..]);
        PrefixCons(waiting[0], Receives(waiting[1..], sends, tags[1..], schedule[1..]), waiting[1..] + sends);
        assert all == [waiting[0]] + (waiting[1..] + sends);
      }
    }
  }

  /** What an endpoint has received: the messages and the tags it asked for, in order, and whether
      every receive took the first message of its channel.  If so, those are the tags of the
      messages, and the messages followed by the channel are all that was sent, in order. */
  datatype Receipts = Receipts(taken: seq<Msg>, asked: seq<int>, inStep: bool)

  type Past = p: Receipts | p.inStep ==> p.asked == TagsOf(p.taken) witness Receipts([], [], true)

  lemma {:induction false} TagsAppend(a: seq<Msg>, m: Msg)
    ensures TagsOf(a + [m]) == TagsOf(a) + [m.tag]
  {
    if a == [] {
      assert [] + [m] == [m] && [m][1..] == [];
    } else {
      assert (a + [m])[1..] == a[1..] + [m];
      TagsAppend(a[1..], m);
    }
  }

  /** One endpoint: omrpc_mpi_handle_t, and the messages on their way to it. */
  class Mp {
    var tag: int
    var inbox: seq<Msg>
    ghost var past: Past

    constructor ()
      ensures tag == 0 && inbox == [] && past == Receipts([], [], true)
    {
      tag, inbox, past := 0, [], Receipts([], [], true);
    }

    /** Every receive so far has taken the first message of the channel. */
    ghost predicate InStep()
      reads this`past
    {
      past.inStep
    }

    /** All messages sent to this endpoint: those received and those under way. */
    ghost function Sent(): seq<Msg>
      reads this`past, this`inbox
    {
      past.taken + inbox
    }

    /** MPI_Send. */
    method Send(to: Mp, tag: int, data: Data, ghost rest: seq<Msg>)
      modifies to`inbox
      ensures to.inbox + rest == old(to.inbox) + MOne(tag, data, rest)
      ensures to.Sent() == old(to.Sent()) + [Msg(tag, data)]
    {
      to.inbox := to.inbox + [Msg(tag, data)];
    }

    /** MPI_Recv; `None` when it would wait forever. */
    method Recv(tag: int) returns (r: Option<Data>)
      modifies this`inbox, this`past
      ensures r.None? <==> forall k | 0 <= k < |old(inbox)| :: old(inbox)[k].tag != tag
      ensures InStep() <==> old(InStep()) && old(inbox) != [] && old(inbox)[0].tag == tag
      ensures InStep() ==> Sent() == old(Sent()) && past.asked == old(past.asked) + [tag]
      ensures old(inbox) != [] && old(inbox)[0].tag == tag ==> r == Some(old(inbox)[0].data) && inbox == old(inbox)[1..]
    {
      var i := Earliest(inbox, tag);
      if i == |inbox| {
        past := past.(asked := past.asked + [tag], inStep := false);
        return None;
      }
      r := Some(inbox[i].data);
      TagsAppend(past.taken, inbox[i]);
      past := Receipts(past.taken + [inbox[i]], past.asked + [tag], past.inStep && i == 0);
      inbox := inbox[..i] + inbox[i + 1..];
    }

    /** A receive for which the channel holds its message first. */
    method Expect(tag: int, ghost data: Data, ghost rest: seq<Msg>) returns (r: Data)
      requires inbox == MOne(tag, data, rest)
      modifies this`inbox, this`past
      ensures r == data && inbox == rest && InStep() == old(InStep())
    {
      assert inbox[0] == Msg(tag, data) && inbox[1..] == rest;
      var got := Recv(tag);
      r := got.value;
    }
  }

  // ----- The messages of each step, followed by `rest` -----

  function MOne(tag: int, data: Data, rest: seq<Msg>): seq<Msg> {
    [Msg(tag, data)] + rest
  }

  /** omrpcm_send_str: the length under `tag`, the characters and a NUL under the next one. */
  function MStr(tag: int, s: seq<byte>, rest: seq<Msg>): seq<Msg> {
    MOne(tag, Ints([|s| + 1]), MOne(tag + 1, Chars(s + [0]), rest))
  }

  function ValueInts(x: S.Value): seq<int> {
    [x.t, x.v] + x.types + x.vals
  }

  function DimInts(d: S.Dim): seq<int> {
    ValueInts(d.size) + ValueInts(d.start) + ValueInts(d.end) + ValueInts(d.step)
  }

  function MDims(tag: int, dims: seq<S.Dim>, rest: seq<Msg>): seq<Msg>
    decreases |dims|
  {
    if dims == [] then rest else MOne(tag, Ints(DimInts(dims[0])), MDims(tag + 1, dims[1..], rest))
  }

  /** omrpcm_send_param_desc counts its own tags, from 13. */
  function MParams(ps: seq<S.Param>, rest: seq<Msg>): seq<Msg> {
    if ps == [] then rest
    else
      MOne(PARAM_DESC_TAG, Ints([ps[0].paramType, ps[0].inout, |ps[0].dims|]),
           MDims(PARAM_DESC_TAG + 1, ps[0].dims, MParams(ps[1..], rest)))
  }

  /** omrpcm_send_stub_info without its acknowledgement, from tag `t` to tag `t + 10`. */
  function MStub(t: int, sp: S.Stub, rest: seq<Msg>): seq<Msg> {
    MOne(t, Ints([sp.versionMajor]), MOne(t + 1, Ints([sp.versionMinor]), MOne(t + 2, Ints([sp.infoType]),
      MStr(t + 3, sp.moduleName, MStr(t + 5, sp.entryName, MStubEnd(t + 7, sp, rest))))))
  }

  /** Its second half, from the number of parameters on. */
  function MStubEnd(t: int, sp: S.Stub, rest: seq<Msg>): seq<Msg> {
    MOne(t, Ints([|sp.params|]), MOne(t + 1, Chars([sp.shrink]), MOne(t + 2, Chars([sp.backend]),
      MOne(t + 3, Ints([sp.index]), MParams(sp.params, rest)))))
  }

  /** Both back ends send a dimension as the same 168 integers: four values of a type, a constant and 20 slots
      of code each. */
  lemma {:induction false} SameDimension(o: B.Order, d: S.Dim, rest: seq<byte>)
    requires S.DimFits(d)
    ensures S.AreInts(DimInts(d)) && S.EncDim(o, d, rest) == S.EncInts(o, DimInts(d), rest)
  {
    var size, start, end, step := ValueInts(d.size), ValueInts(d.start), ValueInts(d.end), ValueInts(d.step);
    ValueAsInts(o, d.step, rest);
    ValueAsInts(o, d.end, S.EncInts(o, step, rest));
    IntsAppend(o, end, step, rest);
    ValueAsInts(o, d.start, S.EncInts(o, end + step, rest));
    IntsAppend(o, start, end + step, rest);
    ValueAsInts(o, d.size, S.EncInts(o, start + (end + step), rest));
    IntsAppend(o, size, start + (end + step), rest);
    Nested(size, start, end, step);
  }

  /** Where the four values are: size, start, end and step. */
  lemma DimPlaces(d: S.Dim)
    requires S.DimFits(d)
    ensures var vs := DimInts(d);
            |vs| == 168 && vs[0] == d.size.t && vs[42] == d.start.t && vs[84] == d.end.t && vs[126] == d.step.t
    ensures var vs := DimInts(d); vs[1] == d.size.v && vs[2..22] == d.size.types && vs[22..42] == d.size.vals
  {
  }

  lemma {:induction false} ValueAsInts(o: B.Order, x: S.Value, rest: seq<byte>)
    requires S.ValueFits(x)
    ensures S.AreInts(ValueInts(x)) && S.EncValue(o, x, rest) == S.EncInts(o, ValueInts(x), rest)
  {
    IntsAppend(o, x.types, x.vals, rest);
    TwoInts(o, x.t, x.v, x.types + x.vals, rest);
    Nested([x.t], [x.v], x.types, x.vals);
    assert [x.t, x.v] == [x.t] + [x.v];
  }

  lemma Nested(a: seq<int>, b: seq<int>, c: seq<int>, d: seq<int>)
    ensures a + b + c + d == a + (b + (c + d))
  {
  }

  lemma {:induction false} TwoInts(o: B.Order, a: int, b: int, more: seq<int>, rest: seq<byte>)
    requires S.IsInt(a) && S.IsInt(b) && S.AreInts(more)
    ensures S.AreInts([a] + ([b] + more))
    ensures S.EncInts(o, [a] + ([b] + more), rest) == S.EncInt(o, a, S.EncInt(o, b, S.EncInts(o, more, rest)))
  {
    assert ([a] + ([b] + more))[1..] == [b] + more && ([b] + more)[1..] == more;
  }

  lemma {:induction false} IntsAppend(o: B.Order, a: seq<int>, b: seq<int>, rest: seq<byte>)
    requires S.AreInts(a) && S.AreInts(b)
    ensures S.AreInts(a + b) && S.EncInts(o, a + b, rest) == S.EncInts(o, a, S.EncInts(o, b, rest))
  {
    if a == [] {
      assert a + b == b;
    } else {
      assert (a + b)[1..] == a[1..] + b;
      IntsAppend(o, a[1..], b, rest);
    }
  }

  /** The messages of a description of one parameter, in their order and with their tags. */
  lemma StubMessages(t: int, sp: S.Stub, p: S.Param)
    requires sp.params == [p] && |p.dims| == 1
    ensures MStub(t, sp, []) ==
            [Msg(t, Ints([sp.versionMajor])), Msg(t + 1, Ints([sp.versionMinor])), Msg(t + 2, Ints([sp.infoType])),
             Msg(t + 3, Ints([|sp.moduleName| + 1])), Msg(t + 4, Chars(sp.moduleName + [0])),
             Msg(t + 5, Ints([|sp.entryName| + 1])), Msg(t + 6, Chars(sp.entryName + [0])),
             Msg(t + 7, Ints([1])), Msg(t + 8, Chars([sp.shrink])), Msg(t + 9, Chars([sp.backend])),
             Msg(t + 10, Ints([sp.index])), Msg(13, Ints([p.paramType, p.inout, 1])), Msg(14, Ints(DimInts(p.dims[0])))]
  {
    assert MDims(14, p.dims, []) == [Msg(14, Ints(DimInts(p.dims[0])))] by { assert p.dims[1..] == []; }
    assert [p][1..] == [];
    assert MParams([p], []) == [Msg(13, Ints([p.paramType, p.inout, 1])), Msg(14, Ints(DimInts(p.dims[0])))];
  }

  // ----- Sending and receiving them -----

  method SendStr(me: Mp, to: Mp, tag: int, s: seq<byte>, ghost rest: seq<Msg>)
    requires me != to
    modifies to`inbox
    ensures to.inbox + rest == old(to.inbox) + MStr(tag, s, rest)
  {
    me.Send(to, tag, Ints([|s| + 1]), MOne(tag + 1, Chars(s + [0]), rest));
    me.Send(to, tag + 1, Chars(s + [0]), rest);
  }

  method RecvStr(me: Mp, tag: int, ghost s: seq<byte>, ghost rest: seq<Msg>) returns (r: seq<byte>)
    requires 0 !in s && me.inbox == MStr(tag, s, rest)
    modifies me`inbox, me`past
    ensures r == s && me.inbox == rest && me.InStep() == old(me.InStep())
  {
    var len := me.Expect(tag, Ints([|s| + 1]), MOne(tag + 1, Chars(s + [0]), rest));
    var d := me.Expect(tag + 1, Chars(s + [0]), rest);
    S.StringEnds(s);
    r := S.CString(d.s);
  }

  /** A message under `mp->tag++`. */
  method SendNext(me: Mp, to: Mp, data: Data, ghost rest: seq<Msg>)
    requires me != to
    modifies me`tag, to`inbox
    ensures to.inbox + rest == old(to.inbox) + MOne(old(me.tag), data, rest) && me.tag == old(me.tag) + 1
  {
    me.Send(to, me.tag, data, rest);
    me.tag := me.tag + 1;
  }

  method RecvNext(me: Mp, ghost data: Data, ghost rest: seq<Msg>) returns (r: Data)
    requires me.inbox == MOne(me.tag, data, rest)
    modifies me
    ensures r == data && me.inbox == rest && me.InStep() == old(me.InStep()) && me.tag == old(me.tag) + 1
  {
    r := me.Expect(me.tag, data, rest);
    me.tag := me.tag + 1;
  }

  method SendParamDesc(me: Mp, to: Mp, p: S.Param, ghost rest: seq<Msg>)
    requires me != to
    modifies to`inbox
    ensures to.inbox + rest == old(to.inbox) + MParams([p], rest)
  {
    var tag := PARAM_DESC_TAG;
    assert MParams([p], rest) == MOne(tag, Ints([p.paramType, p.inout, |p.dims|]), MDims(tag + 1, p.dims, rest)) by {
      assert [p][1..] == [] && MParams([], rest) == rest;
    }
    me.Send(to, tag, Ints([p.paramType, p.inout, |p.dims|]), MDims(tag + 1, p.dims, rest));
    tag := tag + 1;
    ghost var all, left := to.inbox + MDims(tag, p.dims, rest), p.dims;
    for i := 0 to |p.dims|
      invariant left == p.dims[i..] && to.inbox + MDims(tag, left, rest) == all
    {
      me.Send(to, tag, Ints(DimInts(p.dims[i])), MDims(tag + 1, left[1..], rest));
      tag := tag + 1;
      left := left[1..];
    }
  }

  function ParseValue(vs: seq<int>, at: nat): S.Value
    requires at + 42 <= |vs|
  {
    S.Value(vs[at], vs[at + 1], vs[at + 2..at + 22], vs[at + 22..at + 42])
  }

  function ParseDim(vs: seq<int>): S.Dim
    requires |vs| == 168
  {
    S.Dim(ParseValue(vs, 0), ParseValue(vs, 42), ParseValue(vs, 84), ParseValue(vs, 126))
  }

  lemma ParsePart(vs: seq<int>, at: nat, x: S.Value)
    requires S.ValueFits(x) && at + 42 <= |vs| && vs[at..at + 42] == ValueInts(x)
    ensures ParseValue(vs, at) == x
  {
    var part := vs[at..at + 42];
    ValueSlices([x.t, x.v], x.types, x.vals);
    assert vs[at] == part[0] && vs[at + 1] == part[1];
    SliceOfSlice(vs, at, 2, 22);
    SliceOfSlice(vs, at, 22, 42);
  }

  lemma SliceOfSlice(s: seq<int>, at: nat, i: nat, j: nat)
    requires i <= j <= 42 && at + 42 <= |s|
    ensures s[at..at + 42][i..j] == s[at + i..at + j]
  {
    var part, left, right := s[at..at + 42], s[at..at + 42][i..j], s[at + i..at + j];
    forall k | 0 <= k < j - i ensures left[k] == right[k] {
      assert left[k] == part[i + k] == s[at + (i + k)];
    }
    assert left == right;
  }

  lemma ValueSlices(a: seq<int>, b: seq<int>, c: seq<int>)
    requires |a| == 2 && |b| == |c| == 20
    ensures var v := a + b + c; |v| == 42 && v[0] == a[0] && v[1] == a[1] && v[2..22] == b && v[22..42] == c
  {
  }

  lemma FourParts(a: seq<int>, b: seq<int>, c: seq<int>, d: seq<int>)
    requires |a| == |b| == |c| == |d| == 42
    ensures var vs := a + b + c + d;
            vs[0..42] == a && vs[42..84] == b && vs[84..126] == c && vs[126..168] == d
  {
  }

  lemma DimRoundTrip(d: S.Dim)
    requires S.DimFits(d)
    ensures |DimInts(d)| == 168 && ParseDim(DimInts(d)) == d
  {
    var vs := DimInts(d);
    assert |ValueInts(d.size)| == |ValueInts(d.start)| == |ValueInts(d.end)| == |ValueInts(d.step)| == 42;
    FourParts(ValueInts(d.size), ValueInts(d.start), ValueInts(d.end), ValueInts(d.step));
    ParsePart(vs, 0, d.size);
    ParsePart(vs, 42, d.start);
    ParsePart(vs, 84, d.end);
    ParsePart(vs, 126, d.step);
  }

  /** omrpcm_recv_param_desc. */
  method RecvParamDesc(me: Mp, ghost p: S.Param, ghost rest: seq<Msg>) returns (r: S.Param)
    requires S.ParamFits(p) && me.inbox == MParams([p], rest)
    modifies me`inbox, me`past
    ensures r == p && me.inbox == rest && me.InStep() == old(me.InStep())
  {
    var tag := PARAM_DESC_TAG;
    assert me.inbox == MOne(tag, Ints([p.paramType, p.inout, |p.dims|]), MDims(tag + 1, p.dims, rest)) by {
      assert [p][1..] == [] && MParams([], rest) == rest;
    }
    var head := me.Expect(tag, Ints([p.paramType, p.inout, |p.dims|]), MDims(tag + 1, p.dims, rest));
    tag := tag + 1;
    var dims: seq<S.Dim> := [];
    ghost var left := p.dims;
    for i := 0 to head.vs[2]
      invariant |left| == |p.dims| - i && S.DimsFit(left) && dims + left == p.dims
      invariant me.inbox == MDims(tag, left, rest) && me.InStep() == old(me.InStep())
    {
      DimRoundTrip(left[0]);
      var d := me.Expect(tag, Ints(DimInts(left[0])), MDims(tag + 1, left[1..], rest));
      Shift(dims, left);
      dims := dims + [ParseDim(d.vs)];
      tag := tag + 1;
      left := left[1..];
    }
    Finished(dims, left);
    r := S.Param(head.vs[0], head.vs[1], dims);
  }

  lemma FirstParam(ps: seq<S.Param>, rest: seq<Msg>)
    requires ps != []
    ensures MParams(ps, rest) == MParams([ps[0]], MParams(ps[1..], rest))
  {
    assert [ps[0]][1..] == [];
  }

  /** omrpcm_send_stub_info after its acknowledgement. */
  method SendStubBody(me: Mp, to: Mp, sp: S.Stub, ghost rest: seq<Msg>)
    requires me != to
    modifies me`tag, to`inbox
    ensures to.inbox + rest == old(to.inbox) + MStub(old(me.tag), sp, rest) && me.tag == old(me.tag) + 11
  {
    ghost var t := me.tag;
    ghost var end := MStubEnd(t + 7, sp, rest);
    ghost var r1 := MStr(t + 5, sp.entryName, end);
    ghost var r2 := MOne(t + 2, Ints([sp.infoType]), MStr(t + 3, sp.moduleName, r1));
    SendNext(me, to, Ints([sp.versionMajor]), MOne(t + 1, Ints([sp.versionMinor]), r2));
    SendNext(me, to, Ints([sp.versionMinor]), r2);
    SendNext(me, to, Ints([sp.infoType]), MStr(t + 3, sp.moduleName, r1));
    SendStr(me, to, me.tag, sp.moduleName, r1);
    me.tag := me.tag + 2;
    SendStr(me, to, me.tag, sp.entryName, end);
    me.tag := me.tag + 2;
    SendStubEnd(me, to, sp, rest);
  }

  method SendStubEnd(me: Mp, to: Mp, sp: S.Stub, ghost rest: seq<Msg>)
    requires me != to
    modifies me`tag, to`inbox
    ensures to.inbox + rest == old(to.inbox) + MStubEnd(old(me.tag), sp, rest) && me.tag == old(me.tag) + 4
  {
    ghost var t := me.tag;
    ghost var r1 := MOne(t + 3, Ints([sp.index]), MParams(sp.params, rest));
    SendNext(me, to, Ints([|sp.params|]), MOne(t + 1, Chars([sp.shrink]), MOne(t + 2, Chars([sp.backend]), r1)));
    SendNext(me, to, Chars([sp.shrink]), MOne(t + 2, Chars([sp.backend]), r1));
    SendNext(me, to, Chars([sp.backend]), r1);
    SendNext(me, to, Ints([sp.index]), MParams(sp.params, rest));
    SendParams(me, to, sp.params, rest);
  }

  method SendParams(me: Mp, to: Mp, ps: seq<S.Param>, ghost rest: seq<Msg>)
    requires me != to
    modifies to`inbox
    ensures to.inbox + rest == old(to.inbox) + MParams(ps, rest)
  {
    ghost var all, left := to.inbox + MParams(ps, rest), ps;
    for i := 0 to |ps|
      invariant left == ps[i..] && to.inbox + MParams(left, rest) == all
    {
      FirstParam(left, rest);
      SendParamDesc(me, to, ps[i], MParams(left[1..], rest));
      left := left[1..];
    }
  }

  /** omrpcm_recv_stub_info after its acknowledgement. */
  method RecvStubBody(me: Mp, ghost sp: S.Stub, ghost rest: seq<Msg>) returns (r: S.Stub)
    requires S.StubFits(sp) && me.inbox == MStub(me.tag, sp, rest)
    modifies me
    ensures r == sp && me.inbox == rest && me.InStep() == old(me.InStep()) && me.tag == old(me.tag) + 11
  {
    ghost var t := me.tag;
    ghost var end := MStubEnd(t + 7, sp, rest);
    ghost var r1 := MStr(t + 5, sp.entryName, end);
    ghost var r2 := MOne(t + 2, Ints([sp.infoType]), MStr(t + 3, sp.moduleName, r1));
    var versionMajor := RecvNext(me, Ints([sp.versionMajor]), MOne(t + 1, Ints([sp.versionMinor]), r2));
    var versionMinor := RecvNext(me, Ints([sp.versionMinor]), r2);
    var infoType := RecvNext(me, Ints([sp.infoType]), MStr(t + 3, sp.moduleName, r1));
    var moduleName := RecvStr(me, me.tag, sp.moduleName, r1);
    me.tag := me.tag + 2;
    var entryName := RecvStr(me, me.tag, sp.entryName, end);
    me.tag := me.tag + 2;
    var shrink, backend, index, params := RecvStubEnd(me, sp, rest);
    r := S.Stub(versionMajor.vs[0], versionMinor.vs[0], infoType.vs[0], moduleName, entryName,
                shrink, backend, index, params);
  }

  method RecvStubEnd(me: Mp, ghost sp: S.Stub, ghost rest: seq<Msg>)
    returns (shrink: byte, backend: byte, index: int, params: seq<S.Param>)
    requires S.StubFits(sp) && me.inbox == MStubEnd(me.tag, sp, rest)
    modifies me
    ensures shrink == sp.shrink && backend == sp.backend && index == sp.index && params == sp.params
    ensures me.inbox == rest && me.InStep() == old(me.InStep()) && me.tag == old(me.tag) + 4
  {
    ghost var t := me.tag;
    ghost var r1 := MOne(t + 3, Ints([sp.index]), MParams(sp.params, rest));
    var nparam := RecvNext(me, Ints([|sp.params|]), MOne(t + 1, Chars([sp.shrink]), MOne(t + 2, Chars([sp.backend]), r1)));
    var s := RecvNext(me, Chars([sp.shrink]), MOne(t + 2, Chars([sp.backend]), r1));
    var b := RecvNext(me, Chars([sp.backend]), r1);
    var i := RecvNext(me, Ints([sp.index]), MParams(sp.params, rest));
    shrink, backend, index := s.s[0], b.s[0], i.vs[0];
    params := RecvParams(me, nparam.vs[0], sp.params, rest);
  }

  method RecvParams(me: Mp, nparam: int, ghost ps: seq<S.Param>, ghost rest: seq<Msg>) returns (r: seq<S.Param>)
    requires S.ParamsFit(ps) && nparam == |ps| && me.inbox == MParams(ps, rest)
    modifies me`inbox, me`past
    ensures r == ps && me.inbox == rest && me.InStep() == old(me.InStep())
  {
    r := [];
    ghost var left := ps;
    for i := 0 to nparam
      invariant |left| == |ps| - i && S.ParamsFit(left) && r + left == ps
      invariant me.inbox == MParams(left, rest) && me.InStep() == old(me.InStep())
    {
      FirstParam(left, rest);
      var p := RecvParamDesc(me, left[0], MParams(left[1..], rest));
      Shift(r, left);
      r := r + [p];
      left := left[1..];
    }
    Finished(r, left);
  }

  // ----- The exchange that asks for an interface -----

  /** omrpcm_req_stub_info: the name goes out under the tag and the next one, and only one of
      them is counted. */
  method ReqStubInfo(me: Mp, to: Mp, name: seq<byte>, ghost rest: seq<Msg>)
    requires me != to
    modifies me`tag, to`inbox
    ensures to.inbox + rest ==
            old(to.inbox) + MOne(old(me.tag), Ints([OMRPC_REQ_STUB_INFO]), MStr(old(me.tag) + 1, name, rest))
    ensures me.tag == old(me.tag) + 2
  {
    SendNext(me, to, Ints([OMRPC_REQ_STUB_INFO]), MStr(me.tag + 1, name, rest));
    SendStr(me, to, me.tag, name, rest);
    me.tag := me.tag + 1;
  }
}
