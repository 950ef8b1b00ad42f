/** The interface description of a remote function: how the server marshals it and the client
reads it back, across byte orders. */
module StubInfo {
  import opened Wrappers
  import opened ByteOrder

  const MAX_NAME_LEN: nat := 100
  const MAX_DIM: nat := 10
  const OMRPC_ACK_OK: byte := 0
  const OMRPC_ACK_NG: byte := 1

  /** A dimension value: its type, its constant and its expression code. */
  datatype Value = Value(t: int, v: int, types: seq<int>, vals: seq<int>)

  datatype Dim = Dim(size: Value, start: Value, end: Value, step: Value)

  datatype Param = Param(paramType: int, inout: int, dims: seq<Dim>)

  /** The transmitted fields of NINF_STUB_INFO; names are without their final NUL. */
  datatype Stub = Stub(
    versionMajor: int,
    versionMinor: int,
    infoType: int,
    moduleName: seq<byte>,
    entryName: seq<byte>,
    shrink: byte,
    backend: byte,
    index: int,
    params: seq<Param>)

  // ----- What the C types can hold -----

  predicate IsInt(v: int) { -0x8000_0000 <= v < 0x8000_0000 }

  predicate IsShort(v: int) { -0x8000 <= v < 0x8000 }

  predicate AreInts(vs: seq<int>) {
    forall k | 0 <= k < |vs| :: IsInt(vs[k])
  }

  predicate IsCode(vs: seq<int>) {
    |vs| == NINF_EXPRESSION_LENGTH && AreInts(vs)
  }

  predicate ValueFits(x: Value) {
    IsInt(x.t) && IsInt(x.v) && IsCode(x.types) && IsCode(x.vals)
  }

  predicate DimFits(d: Dim) {
    ValueFits(d.size) && ValueFits(d.start) && ValueFits(d.end) && ValueFits(d.step)
  }

  predicate DimsFit(ds: seq<Dim>) {
    ds == [] || (DimFits(ds[0]) && DimsFit(ds[1..]))
  }

  predicate ParamFits(p: Param) {
    IsInt(p.paramType) && IsInt(p.inout) && |p.dims| <= MAX_DIM && DimsFit(p.dims)
  }

  predicate ParamsFit(ps: seq<Param>) {
    ps == [] || (ParamFits(ps[0]) && ParamsFit(ps[1..]))
  }

  lemma {:induction false} DimFitsAt(ds: seq<Dim>, k: nat)
    requires DimsFit(ds) && k < |ds|
    ensures DimFits(ds[k])
  {
    if k > 0 {
      DimFitsAt(ds[1..], k - 1);
    }
  }

  lemma {:induction false} ParamFitsAt(ps: seq<Param>, k: nat)
    requires ParamsFit(ps) && k < |ps|
    ensures ParamFits(ps[k])
  {
    if k > 0 {
      ParamFitsAt(ps[1..], k - 1);
    }
  }

  predicate NameFits(name: seq<byte>) {
    |name| < MAX_NAME_LEN && forall k | 0 <= k < |name| :: name[k] != 0
  }

  predicate StubFits(sp: Stub) {
    && IsInt(sp.versionMajor) && IsInt(sp.versionMinor) && IsInt(sp.infoType)
    && NameFits(sp.moduleName) && NameFits(sp.entryName)
    && IsShort(sp.index) && IsInt(|sp.params|) && ParamsFit(sp.params)
  }

  lemma IntRange(v: int)
    ensures IsInt(v) <==> Fits(v, 4)
    ensures IsShort(v) <==> Fits(v, 2)
  {
    assert Range(1) == 256 && Range(2) == 65536 && Range(3) == 0x100_0000 && Range(4) == 0x1_0000_0000;
  }

  lemma {:induction false} AllParamsFit(ps: seq<Param>)
    requires forall k | 0 <= k < |ps| :: ParamFits(ps[k])
    ensures ParamsFit(ps)
  {
    if ps != [] {
      AllParamsFit(ps[1..]);
    }
  }

  lemma {:induction false} AllDimsFit(ds: seq<Dim>)
    requires forall k | 0 <= k < |ds| :: DimFits(ds[k])
    ensures DimsFit(ds)
  {
    if ds != [] {
      AllDimsFit(ds[1..]);
    }
  }

  // ----- The layout, each part followed by `rest` -----

  function EncShort(o: Order, v: int, rest: seq<byte>): seq<byte>
    requires IsShort(v)
  {
    IntRange(v);
    Stored(o, v, 2) + rest
  }

  function EncInt(o: Order, v: int, rest: seq<byte>): seq<byte>
    requires IsInt(v)
  {
    IntRange(v);
    Stored(o, v, 4) + rest
  }

  function EncInts(o: Order, vs: seq<int>, rest: seq<byte>): seq<byte>
    requires AreInts(vs)
  {
    if vs == [] then rest else EncInt(o, vs[0], EncInts(o, vs[1..], rest))
  }

  /** The length with the final NUL, the characters, the NUL. */
  function EncString(o: Order, name: seq<byte>, rest: seq<byte>): seq<byte>
    requires NameFits(name)
  {
    EncInt(o, |name| + 1, name + [0] + rest)
  }

  function EncValue(o: Order, x: Value, rest: seq<byte>): seq<byte>
    requires ValueFits(x)
  {
    EncInt(o, x.t, EncInt(o, x.v, EncInts(o, x.types, EncInts(o, x.vals, rest))))
  }

  function EncDim(o: Order, d: Dim, rest: seq<byte>): seq<byte>
    requires DimFits(d)
  {
    EncValue(o, d.size, EncValue(o, d.start, EncValue(o, d.end, EncValue(o, d.step, rest))))
  }

  function EncDims(o: Order, ds: seq<Dim>, rest: seq<byte>): seq<byte>
    requires DimsFit(ds)
  {
    if ds == [] then rest else EncDim(o, ds[0], EncDims(o, ds[1..], rest))
  }

  function EncParam(o: Order, p: Param, rest: seq<byte>): seq<byte>
    requires ParamFits(p)
  {
    EncInt(o, p.paramType, EncInt(o, p.inout, EncInt(o, |p.dims|, EncDims(o, p.dims, rest))))
  }

  function EncParams(o: Order, ps: seq<Param>, rest: seq<byte>): seq<byte>
    requires ParamsFit(ps)
  {
    if ps == [] then rest else EncParam(o, ps[0], EncParams(o, ps[1..], rest))
  }

  function EncStub(o: Order, sp: Stub, rest: seq<byte>): seq<byte>
    requires StubFits(sp)
  {
    [OMRPC_ACK_OK] +
    EncInt(o, sp.versionMajor, EncInt(o, sp.versionMinor, EncInt(o, sp.infoType,
      EncString(o, sp.moduleName, EncString(o, sp.entryName, EncInt(o, |sp.params|,
        [sp.shrink] + ([sp.backend] + EncShort(o, sp.index, EncParams(o, sp.params, rest)))))))))
  }

  // ----- An example, byte by byte -----

  lemma SmallBytes(v: int, rest: seq<byte>)
    requires 0 <= v < 256
    ensures IsInt(v) && EncInt(Big, v, rest) == [0, 0, 0, v] + rest
    ensures IsShort(v) && EncShort(Big, v, rest) == [0, v] + rest
  {
    IntRange(v);
    assert Digits(0, 1) == [0] && Digits(0, 2) == [0, 0] && Digits(0, 3) == [0, 0, 0];
    assert Digits(v, 4) == [v, 0, 0, 0] && Digits(v, 2) == [v, 0];
  }

  lemma NameBytes(name: seq<byte>, rest: seq<byte>)
    requires NameFits(name)
    ensures EncString(Big, name, rest) == [0, 0, 0, |name| + 1] + (name + [0] + rest)
  {
    SmallBytes(|name| + 1, name + [0] + rest);
  }

  lemma ParamBytes(p: Param)
    requires 0 <= p.paramType < 256 && 0 <= p.inout < 256 && p.dims == []
    ensures ParamsFit([p]) && EncParams(Big, [p], []) == [0, 0, 0, p.paramType, 0, 0, 0, p.inout, 0, 0, 0, 0]
  {
    assert [p][1..] == [];
    SmallBytes(p.paramType, EncInt(Big, p.inout, EncInt(Big, 0, [])));
    SmallBytes(p.inout, EncInt(Big, 0, []));
    SmallBytes(0, []);
  }

  /** A description of small numbers and one parameter without dimensions, byte by byte, as a big-endian server
      sends it. */
  lemma StubBytes(sp: Stub, p: Param)
    requires StubFits(sp) && sp.params == [p] && p.dims == []
    requires 0 <= sp.versionMajor < 256 && 0 <= sp.versionMinor < 256 && 0 <= sp.infoType < 256 && 0 <= sp.index < 256
    requires 0 <= p.paramType < 256 && 0 <= p.inout < 256
    ensures EncStub(Big, sp, []) ==
            [0] + ([0, 0, 0, sp.versionMajor] + ([0, 0, 0, sp.versionMinor] + ([0, 0, 0, sp.infoType] +
              ([0, 0, 0, |sp.moduleName| + 1] + (sp.moduleName + [0] +
              ([0, 0, 0, |sp.entryName| + 1] + (sp.entryName + [0] +
              ([0, 0, 0, 1] + ([sp.shrink] + ([sp.backend] + ([0, sp.index] +
              [0, 0, 0, p.paramType, 0, 0, 0, p.inout, 0, 0, 0, 0])))))))))))
  {
    ParamBytes(p);
    var params := EncParams(Big, [p], []);
    SmallBytes(sp.index, params);
    var tail := [sp.shrink] + ([sp.backend] + EncShort(Big, sp.index, params));
    SmallBytes(1, tail);
    var entry := EncInt(Big, 1, tail);
    NameBytes(sp.entryName, entry);
    var names := EncString(Big, sp.entryName, entry);
    NameBytes(sp.moduleName, names);
    var numbered := EncString(Big, sp.moduleName, names);
    SmallBytes(sp.infoType, numbered);
    SmallBytes(sp.versionMinor, EncInt(Big, sp.infoType, numbered));
    SmallBytes(sp.versionMajor, EncInt(Big, sp.versionMinor, EncInt(Big, sp.infoType, numbered)));
  }

  // ----- Sending -----

  method SendBytes(to: Peer, data: seq<byte>, ghost rest: seq<byte>)
    modifies to`inbox
    ensures to.inbox + rest == old(to.inbox) + (data + rest)
  {
    to.inbox := to.inbox + data;
  }

  method SendShort(o: Order, to: Peer, v: int, ghost rest: seq<byte>)
    requires IsShort(v)
    modifies to`inbox
    ensures to.inbox + rest == old(to.inbox) + EncShort(o, v, rest)
  {
    IntRange(v);
    SendBytes(to, Stored(o, v, 2), rest);
  }

  method SendInt(o: Order, to: Peer, v: int, ghost rest: seq<byte>)
    requires IsInt(v)
    modifies to`inbox
    ensures to.inbox + rest == old(to.inbox) + EncInt(o, v, rest)
  {
    IntRange(v);
    SendBytes(to, Stored(o, v, 4), rest);
  }

  method SendInts(o: Order, to: Peer, vs: seq<int>, ghost rest: seq<byte>)
    requires AreInts(vs)
    modifies to`inbox
    ensures to.inbox + rest == old(to.inbox) + EncInts(o, vs, rest)
  {
    ghost var all, left := to.inbox + EncInts(o, vs, rest), vs;
    for i := 0 to |vs|
      invariant left == vs[i..] && to.inbox + EncInts(o, left, rest) == all
    {
      SendInt(o, to, vs[i], EncInts(o, left[1..], rest));
      left := left[1..];
    }
  }

  /** omrpc_send_string. */
  method SendString(o: Order, to: Peer, name: seq<byte>, ghost rest: seq<byte>)
    requires NameFits(name)
    modifies to`inbox
    ensures to.inbox + rest == old(to.inbox) + EncString(o, name, rest)
  {
    SendInt(o, to, |name| + 1, name + [0] + rest);
    SendBytes(to, name + [0], rest);
  }

  method SendValue(o: Order, to: Peer, x: Value, ghost rest: seq<byte>)
    requires ValueFits(x)
    modifies to`inbox
    ensures to.inbox + rest == old(to.inbox) + EncValue(o, x, rest)
  {
    ghost var codes := EncInts(o, x.types, EncInts(o, x.vals, rest));
    SendInt(o, to, x.t, EncInt(o, x.v, codes));
    SendInt(o, to, x.v, codes);
    SendInts(o, to, x.types, EncInts(o, x.vals, rest));
    SendInts(o, to, x.vals, rest);
  }

  method SendDim(o: Order, to: Peer, d: Dim, ghost rest: seq<byte>)
    requires DimFits(d)
    modifies to`inbox
    ensures to.inbox + rest == old(to.inbox) + EncDim(o, d, rest)
  {
    ghost var r1 := EncValue(o, d.step, rest);
    ghost var r2 := EncValue(o, d.end, r1);
    SendValue(o, to, d.size, EncValue(o, d.start, r2));
    SendValue(o, to, d.start, r2);
    SendValue(o, to, d.end, r1);
    SendValue(o, to, d.step, rest);
  }

  method SendDims(o: Order, to: Peer, ds: seq<Dim>, ghost rest: seq<byte>)
    requires DimsFit(ds)
    modifies to`inbox
    ensures to.inbox + rest == old(to.inbox) + EncDims(o, ds, rest)
  {
    ghost var all, left := to.inbox + EncDims(o, ds, rest), ds;
    for i := 0 to |ds|
      invariant left == ds[i..] && DimsFit(left) && to.inbox + EncDims(o, left, rest) == all
    {
      SendDim(o, to, ds[i], EncDims(o, left[1..], rest));
      left := left[1..];
    }
  }

  /** omrpc_send_param_desc. */
  method SendParamDesc(o: Order, to: Peer, p: Param, ghost rest: seq<byte>)
    requires ParamFits(p)
    modifies to`inbox
    ensures to.inbox + rest == old(to.inbox) + EncParam(o, p, rest)
  {
    ghost var dims := EncDims(o, p.dims, rest);
    SendInt(o, to, p.paramType, EncInt(o, p.inout, EncInt(o, |p.dims|, dims)));
    SendInt(o, to, p.inout, EncInt(o, |p.dims|, dims));
    SendInt(o, to, |p.dims|, dims);
    SendDims(o, to, p.dims, rest);
  }

  method SendParams(o: Order, to: Peer, ps: seq<Param>, ghost rest: seq<byte>)
    requires ParamsFit(ps)
    modifies to`inbox
    ensures to.inbox + rest == old(to.inbox) + EncParams(o, ps, rest)
  {
    ghost var all, left := to.inbox + EncParams(o, ps, rest), ps;
    for i := 0 to |ps|
      invariant left == ps[i..] && ParamsFit(left) && to.inbox + EncParams(o, left, rest) == all
    {
      SendParamDesc(o, to, ps[i], EncParams(o, left[1..], rest));
      left := left[1..];
    }
  }

  /** omrpc_send_stub_info. */
  method SendStubInfo(o: Order, to: Peer, sp: Stub, ghost rest: seq<byte>)
    requires StubFits(sp)
    modifies to`inbox
    ensures to.inbox + rest == old(to.inbox) + EncStub(o, sp, rest)
  {
    ghost var r1 := EncShort(o, sp.index, EncParams(o, sp.params, rest));
    ghost var r2 := [sp.shrink] + ([sp.backend] + r1);
    ghost var r3 := EncInt(o, |sp.params|, r2);
    ghost var r4 := EncString(o, sp.moduleName, EncString(o, sp.entryName, r3));
    ghost var r5 := EncInt(o, sp.versionMinor, EncInt(o, sp.infoType, r4));
    SendBytes(to, [OMRPC_ACK_OK], EncInt(o, sp.versionMajor, r5));
    SendInt(o, to, sp.versionMajor, r5);
    SendInt(o, to, sp.versionMinor, EncInt(o, sp.infoType, r4));
    SendInt(o, to, sp.infoType, r4);
    SendString(o, to, sp.moduleName, EncString(o, sp.entryName, r3));
    SendString(o, to, sp.entryName, r3);
    SendInt(o, to, |sp.params|, r2);
    SendBytes(to, [sp.shrink], [sp.backend] + r1);
    SendBytes(to, [sp.backend], r1);
    SendShort(o, to, sp.index, EncParams(o, sp.params, rest));
    SendParams(o, to, sp.params, rest);
  }

  // ----- Receiving; `None` is the fatal "unexpected EOF" -----

  method RecvBytes(p: Peer, n: nat, ghost data: seq<byte>, ghost rest: seq<byte>) returns (r: Option<seq<byte>>)
    modifies p`inbox
    ensures r.None? <==> |old(p.inbox)| < n
    ensures r.Some? ==> |r.value| == n
    ensures |data| == n && old(p.inbox) == data + rest ==> r == Some(data) && p.inbox == rest
  {
    if |p.inbox| < n {
      return None;
    }
    r := Some(p.inbox[..n]);
    p.inbox := p.inbox[n..];
  }

  /** omrpc_recv_int and omrpc_recv_short. */
  method RecvNumber(p: Peer, width: nat, ghost sender: Order, ghost v: int, ghost rest: seq<byte>)
    returns (r: Option<int>)
    requires width in {2, 4} && p.swapFlag == (p.order != sender)
    modifies p`inbox
    ensures r.None? <==> |old(p.inbox)| < width
    ensures Fits(v, width) && old(p.inbox) == Stored(sender, v, width) + rest ==> r == Some(v) && p.inbox == rest
  {
    if Fits(v, width) {
      LoadedStored(p.order, v, width);
      if p.order != sender {
        OrdersAreReversed(p.order, sender, v, width);
      }
    }
    var b :- RecvBytes(p, width, if Fits(v, width) then Stored(sender, v, width) else [], rest);
    r := Some(Loaded(p.order, if p.swapFlag then Reverse(b) else b));
  }

  method RecvShort(p: Peer, ghost sender: Order, ghost v: int, ghost rest: seq<byte>) returns (r: Option<int>)
    requires p.swapFlag == (p.order != sender)
    modifies p`inbox
    ensures r.None? <==> |old(p.inbox)| < 2
    ensures IsShort(v) && old(p.inbox) == EncShort(sender, v, rest) ==> r == Some(v) && p.inbox == rest
  {
    IntRange(v);
    r := RecvNumber(p, 2, sender, v, rest);
  }

  method RecvInt(p: Peer, ghost sender: Order, ghost v: int, ghost rest: seq<byte>) returns (r: Option<int>)
    requires p.swapFlag == (p.order != sender)
    modifies p`inbox
    ensures r.None? <==> |old(p.inbox)| < 4
    ensures IsInt(v) && old(p.inbox) == EncInt(sender, v, rest) ==> r == Some(v) && p.inbox == rest
  {
    IntRange(v);
    r := RecvNumber(p, 4, sender, v, rest);
  }

  method RecvInts(p: Peer, count: nat, ghost sender: Order, ghost vs: seq<int>, ghost rest: seq<byte>)
    returns (r: Option<seq<int>>)
    requires p.swapFlag == (p.order != sender)
    modifies p`inbox
    ensures AreInts(vs) && |vs| == count && old(p.inbox) == EncInts(sender, vs, rest) ==> r == Some(vs) && p.inbox == rest
  {
    var out: seq<int> := [];
    ghost var good := AreInts(vs) && |vs| == count && p.inbox == EncInts(sender, vs, rest);
    ghost var left := vs;
    for i := 0 to count
      invariant good ==> |left| == count - i && out + left == vs && AreInts(left)
      invariant good ==> p.inbox == EncInts(sender, left, rest)
    {
      var v :- RecvInt(p, sender, if good then left[0] else 0, if good then EncInts(sender, left[1..], rest) else []);
      if good {
        Shift(out, left);
        left := left[1..];
      }
      out := out + [v];
    }
    Finished(out, left);
    r := Some(out);
  }

  /** omrpc_recv_string, up to the final NUL. */
  method RecvString(p: Peer, ghost sender: Order, ghost name: seq<byte>, ghost rest: seq<byte>)
    returns (r: Option<seq<byte>>)
    requires p.swapFlag == (p.order != sender)
    modifies p`inbox
    ensures NameFits(name) && old(p.inbox) == EncString(sender, name, rest) ==> r == Some(name) && p.inbox == rest
  {
    var len :- RecvInt(p, sender, |name| + 1, name + [0] + rest);
    if len <= 0 {
      return Some([]);
    }
    var cp :- RecvBytes(p, len, name + [0], rest);
    r := Some(CString(cp));
    assert (name + [0])[..|name|] == name;
    if NameFits(name) {
      StringEnds(name);
    }
  }

  /** The characters before the first NUL. */
  function CString(b: seq<byte>): seq<byte> {
    if b == [] || b[0] == 0 then [] else [b[0]] + CString(b[1..])
  }

  lemma {:induction false} StringEnds(name: seq<byte>)
    requires forall k | 0 <= k < |name| :: name[k] != 0
    ensures CString(name + [0]) == name
  {
    if name != [] {
      StringEnds(name[1..]);
      assert (name + [0])[1..] == name[1..] + [0];
    }
  }

  method RecvValue(p: Peer, ghost sender: Order, ghost x: Value, ghost rest: seq<byte>) returns (r: Option<Value>)
    requires p.swapFlag == (p.order != sender)
    modifies p`inbox
    ensures ValueFits(x) && old(p.inbox) == EncValue(sender, x, rest) ==> r == Some(x) && p.inbox == rest
  {
    ghost var good := ValueFits(x) && p.inbox == EncValue(sender, x, rest);
    ghost var r1 := if good then EncInts(sender, x.vals, rest) else [];
    ghost var r2 := if good then EncInts(sender, x.types, r1) else [];
    var t :- RecvInt(p, sender, x.t, if good then EncInt(sender, x.v, r2) else []);
    var v :- RecvInt(p, sender, x.v, r2);
    var types :- RecvInts(p, NINF_EXPRESSION_LENGTH, sender, x.types, r1);
    var vals :- RecvInts(p, NINF_EXPRESSION_LENGTH, sender, x.vals, rest);
    r := Some(Value(t, v, types, vals));
  }

  method RecvDim(p: Peer, ghost sender: Order, ghost d: Dim, ghost rest: seq<byte>) returns (r: Option<Dim>)
    requires p.swapFlag == (p.order != sender)
    modifies p`inbox
    ensures DimFits(d) && old(p.inbox) == EncDim(sender, d, rest) ==> r == Some(d) && p.inbox == rest
  {
    ghost var good := DimFits(d) && p.inbox == EncDim(sender, d, rest);
    ghost var r1 := if good then EncValue(sender, d.step, rest) else [];
    ghost var r2 := if good then EncValue(sender, d.end, r1) else [];
    var size :- RecvValue(p, sender, d.size, if good then EncValue(sender, d.start, r2) else []);
    var start :- RecvValue(p, sender, d.start, r2);
    var end :- RecvValue(p, sender, d.end, r1);
    var step :- RecvValue(p, sender, d.step, rest);
    r := Some(Dim(size, start, end, step));
  }

  method RecvDims(p: Peer, ndim: int, ghost sender: Order, ghost ds: seq<Dim>, ghost rest: seq<byte>)
    returns (r: Option<seq<Dim>>)
    requires p.swapFlag == (p.order != sender)
    modifies p`inbox
    ensures DimsFit(ds) && |ds| == ndim && old(p.inbox) == EncDims(sender, ds, rest) ==>
              r == Some(ds) && p.inbox == rest
  {
    var out: seq<Dim> := [];
    ghost var good := DimsFit(ds) && |ds| == ndim && p.inbox == EncDims(sender, ds, rest);
    ghost var left := ds;
    var i := 0;
    while i < ndim
      invariant good ==> i <= ndim && |left| == ndim - i && out + left == ds
      invariant good ==> DimsFit(left) && p.inbox == EncDims(sender, left, rest)
    {
      var d := RecvNextDim(p, sender, good, left, rest);
      if d.None? {
        return None;
      }
      if good {
        Shift(out, left);
        left := left[1..];
      }
      out := out + [d.value];
      i := i + 1;
    }
    Finished(out, left);
    r := Some(out);
  }

  /** One turn of the loop over the dimensions; `good` says that `left` is on its way. */
  method RecvNextDim(p: Peer, ghost sender: Order, ghost good: bool, ghost left: seq<Dim>, ghost rest: seq<byte>)
    returns (r: Option<Dim>)
    requires p.swapFlag == (p.order != sender)
    requires good ==> left != [] && DimsFit(left) && p.inbox == EncDims(sender, left, rest)
    modifies p`inbox
    ensures good ==> r == Some(left[0]) && DimsFit(left[1..]) && p.inbox == EncDims(sender, left[1..], rest)
  {
    ghost var here := if good then left[0] else NoDim();
    ghost var after := if good then EncDims(sender, left[1..], rest) else [];
    r := RecvDim(p, sender, here, after);
  }

  ghost function NoDim(): Dim {
    var none := Value(0, 0, [], []);
    Dim(none, none, none, none)
  }

  /** omrpc_recv_param_desc. */
  method RecvParamDesc(p: Peer, ghost sender: Order, ghost x: Param, ghost rest: seq<byte>) returns (r: Option<Param>)
    requires p.swapFlag == (p.order != sender)
    modifies p`inbox
    ensures ParamFits(x) && old(p.inbox) == EncParam(sender, x, rest) ==> r == Some(x) && p.inbox == rest
  {
    ghost var good := ParamFits(x) && p.inbox == EncParam(sender, x, rest);
    ghost var r1 := if good then EncDims(sender, x.dims, rest) else [];
    ghost var r2 := if good then EncInt(sender, |x.dims|, r1) else [];
    var paramType :- RecvInt(p, sender, x.paramType, if good then EncInt(sender, x.inout, r2) else []);
    var inout :- RecvInt(p, sender, x.inout, r2);
    var ndim :- RecvInt(p, sender, |x.dims|, r1);
    var dims :- RecvDims(p, ndim, sender, x.dims, rest);
    r := Some(Param(paramType, inout, dims));
  }

  method RecvParams(p: Peer, nparam: int, ghost sender: Order, ghost ps: seq<Param>, ghost rest: seq<byte>)
    returns (r: Option<seq<Param>>)
    requires p.swapFlag == (p.order != sender)
    modifies p`inbox
    ensures ParamsFit(ps) && |ps| == nparam && old(p.inbox) == EncParams(sender, ps, rest) ==>
              r == Some(ps) && p.inbox == rest
  {
    var out: seq<Param> := [];
    ghost var good := ParamsFit(ps) && |ps| == nparam && p.inbox == EncParams(sender, ps, rest);
    ghost var left := ps;
    var i := 0;
    while i < nparam
      invariant good ==> i <= nparam && |left| == nparam - i && out + left == ps && ParamsFit(left)
      invariant good ==> p.inbox == EncParams(sender, left, rest)
    {
      ghost var here := if good then left[0] else Param(0, 0, []);
      ghost var after := if good then EncParams(sender, left[1..], rest) else [];
      var x :- RecvParamDesc(p, sender, here, after);
      if good {
        Shift(out, left);
        left := left[1..];
      }
      out := out + [x];
      i := i + 1;
    }
    Finished(out, left);
    r := Some(out);
  }

  /** The result of omrpc_recv_stub_info: the fatal end of the stream, OMRPC_ERROR, or the
      description. */
  datatype Received = UnexpectedEof | Error | Info(sp: Stub)

  /** The part of omrpc_recv_stub_info before the parameters. */
  method RecvHead(p: Peer, ghost sender: Order, ghost sp: Stub, ghost rest: seq<byte>)
    returns (r: Option<(Stub, int)>)
    requires p.swapFlag == (p.order != sender)
    modifies p`inbox
    ensures StubFits(sp) && [OMRPC_ACK_OK] + old(p.inbox) == EncStub(sender, sp, rest) ==>
              r == Some((sp.(params := []), |sp.params|)) && p.inbox == EncParams(sender, sp.params, rest)
  {
    ghost var good := StubFits(sp) && [OMRPC_ACK_OK] + p.inbox == EncStub(sender, sp, rest);
    ghost var tail := if good then EncParams(sender, sp.params, rest) else [];
    ghost var r1 := if good then EncShort(sender, sp.index, tail) else [];
    ghost var r2 := [sp.shrink] + ([sp.backend] + r1);
    ghost var r3 := if good then EncInt(sender, |sp.params|, r2) else [];
    ghost var r4 := if good then EncString(sender, sp.entryName, r3) else [];
    ghost var r5 := if good then EncString(sender, sp.moduleName, r4) else [];
    ghost var r6 := if good then EncInt(sender, sp.infoType, r5) else [];
    ghost var r7 := if good then EncInt(sender, sp.versionMinor, r6) else [];
    if good {
      assert p.inbox == ([OMRPC_ACK_OK] + p.inbox)[1..];
      assert p.inbox == EncInt(sender, sp.versionMajor, r7);
    }
    var versionMajor :- RecvInt(p, sender, sp.versionMajor, r7);
    var versionMinor :- RecvInt(p, sender, sp.versionMinor, r6);
    var infoType :- RecvInt(p, sender, sp.infoType, r5);
    var moduleName :- RecvString(p, sender, sp.moduleName, r4);
    var entryName :- RecvString(p, sender, sp.entryName, r3);
    var nparam :- RecvInt(p, sender, |sp.params|, r2);
    var shrink :- RecvBytes(p, 1, [sp.shrink], [sp.backend] + r1);
    var backend :- RecvBytes(p, 1, [sp.backend], r1);
    var index :- RecvShort(p, sender, sp.index, tail);
    r := Some((Stub(versionMajor, versionMinor, infoType, moduleName, entryName, shrink[0], backend[0], index, []),
               nparam));
  }

  /** omrpc_recv_stub_info up to its omrpc_recv_done. */
  method RecvStubInfo(p: Peer, ghost sender: Order, ghost sp: Stub, ghost rest: seq<byte>) returns (r: Received)
    requires p.swapFlag == (p.order != sender)
    modifies p`inbox
    ensures StubFits(sp) && old(p.inbox) == EncStub(sender, sp, rest) ==> r == Info(sp) && p.inbox == rest
    ensures old(p.inbox) == [] || old(p.inbox)[0] != OMRPC_ACK_OK ==> r == Error
  {
    // omrpc_recv_cmd: EOF at the end of the stream, which is no acknowledgement either
    if p.inbox == [] {
      return Error;
    }
    var ack := p.inbox[0];
    p.inbox := p.inbox[1..];
    if ack != OMRPC_ACK_OK {
      return Error;
    }
    assert [OMRPC_ACK_OK] + p.inbox == old(p.inbox);
    var head := RecvHead(p, sender, sp, rest);
    if head.None? {
      return UnexpectedEof;
    }
    var params := RecvParams(p, head.value.1, sender, sp.params, rest);
    if params.None? {
      return UnexpectedEof;
    }
    r := Info(head.value.0.(params := params.value));
  }

  /** A server and a client of any byte orders: after the handshake, every description arrives
      as it was sent. */
  method StubInfoArrives(server: Peer, client: Peer, sp: Stub) returns (r: Received)
    requires server != client && client.inbox == [] && server.inbox == []
    requires !client.swapFlag && !server.swapFlag && StubFits(sp)
    modifies server, client
    ensures r == Info(sp) && client.inbox == []
  {
    Handshake(client, server);
    SendStubInfo(server.order, client, sp, []);
    assert client.inbox == client.inbox + [];
    assert [] + EncStub(server.order, sp, []) == EncStub(server.order, sp, []);
    r := RecvStubInfo(client, server.order, sp, []);
  }
}
