/** Calls over a stream: scalar and array arguments to the stub, results back.  Each end computes the
shapes of the arrays from its own scalars. */
module StreamCall {
  import opened Wrappers
  import A = ArrayTransfer
  import D = DimExpr
  import S = StubInfo
  import opened Shapes

  /** data_type_size, on a machine with 64-bit long; 0 for what does not travel as bytes. */
  function TypeSize(ty: int): (size: nat)
    ensures size == 1 <==> ty in {2, 7}
    ensures size == 2 <==> ty in {3, 8}
    ensures size == 4 <==> ty in {4, 9, 12}
    ensures size == 8 <==> ty in {5, 6, 10, 11, 13, 15}
    ensures size == 16 <==> ty in {14, 16}
  {
    if ty == 2 || ty == 7 then 1
    else if ty == 3 || ty == 8 then 2
    else if ty == 4 || ty == 9 || ty == 12 then 4
    else if ty == 5 || ty == 6 || ty == 10 || ty == 11 || ty == 13 || ty == 15 then 8
    else if ty == 14 || ty == 16 then 16
    else 0
  }

  // ----- Scalars -----

  /** What one scalar puts on the stream. */
  datatype Item = One(value: D.Arg) | Chars(text: seq<byte>)

  function Scalars(ps: seq<S.Param>, args: seq<Arg>, i: nat): seq<Item>
    requires ScalarsFit(ps, args) && i <= |ps|
    decreases |ps| - i
  {
    if i == |ps| then []
    else if !IsScalar(ps[i]) then Scalars(ps, args, i + 1)
    else if !IsIn(ps[i]) then []
    else [if IsString(ps[i]) then Chars(args[i].text) else One(args[i].value)] + Scalars(ps, args, i + 1)
  }

  /** ninf_send_scalar_args. */
  method SendScalars(ps: seq<S.Param>, args: seq<Arg>) returns (items: seq<Item>)
    requires ScalarsFit(ps, args)
    ensures items == Scalars(ps, args, 0)
  {
    items := [];
    var i := 0;
    while i < |ps|
      invariant i <= |ps| && items + Scalars(ps, args, i) == Scalars(ps, args, 0)
    {
      if IsScalar(ps[i]) {
        if !IsIn(ps[i]) {
          break;
        }
        items := items + [if IsString(ps[i]) then Chars(args[i].text) else One(args[i].value)];
      }
      i := i + 1;
    }
  }

  /** ninf_recv_scalar_args: the sent scalars arrive, the others keep what the stub held. */
  method RecvScalars(ps: seq<S.Param>, stale: seq<Arg>, items: seq<Item>, ghost args: seq<Arg>) returns (got: seq<Arg>)
    requires ScalarsFit(ps, args) && Pointers(ps, stale) && items == Scalars(ps, args, 0)
    ensures got == Taken(ps, args, stale) && Pointers(ps, got)
  {
    got := stale;
    var left, i := items, 0;
    while i < |ps|
      invariant Open(ps, i) && ScalarsGot(ps, args, stale, got, i) && left == Scalars(ps, args, i)
    {
      SentHere(ps, i);
      if IsScalar(ps[i]) {
        if !IsIn(ps[i]) {
          forall j | i <= j < |ps| {
            StoppedHere(ps, i, j);
          }
          break;
        }
        got := got[i := if IsString(ps[i]) then Str(left[0].text) else Scalar(left[0].value)];
        left := left[1..];
      }
      i := i + 1;
    }
    ScalarsAreTaken(ps, args, stale, got);
  }

  // ----- One array -----

  /** ninf_set_array_shape for parameter `i`. */
  function ShapeAt(sp: S.Stub, plain: seq<D.Arg>, i: nat): (ap: A.Shape)
    requires S.StubFits(sp) && i < |sp.params| && RangesAt(sp, plain, i).Some?
    ensures var dims := DimsOf(RangesAt(sp, plain, i).value);
            |ap.dims| == |dims| && ap.totalCount == A.Total(dims, ap.shrink, |dims|)
            && forall d | 0 <= d < |dims| :: ap.dims[d] == A.ShapeOf(dims, ap.elemSize, d)
    ensures ap.elemSize == TypeSize(sp.params[i].paramType) && ap.shrink == (sp.shrink != 0)
  {
    Layout(RangesAt(sp, plain, i).value, sp.shrink != 0, TypeSize(sp.params[i].paramType))
  }

  /** An array of `room` bytes can be sent or received as parameter `i`. */
  predicate ArrayFits(sp: S.Stub, plain: seq<D.Arg>, i: nat, room: int)
    requires S.StubFits(sp) && i < |sp.params|
  {
    && RangesAt(sp, plain, i).Some?
    && A.Sendable(DimsOf(RangesAt(sp, plain, i).value), TypeSize(sp.params[i].paramType), sp.shrink != 0, room)
  }

  /** The elements that are moved, wherever there is room for the total count. */
  function Offsets(sp: S.Stub, plain: seq<D.Arg>, i: nat, room: nat): (offs: seq<int>)
    requires S.StubFits(sp) && i < |sp.params| && ArrayFits(sp, plain, i, room)
    ensures A.Inside(offs, TypeSize(sp.params[i].paramType), room)
    ensures var ap := ShapeAt(sp, plain, i); (ap.shrink || A.WellFormed(ap)) && offs == A.Moved(ap, 0)
  {
    var ap := ShapeAt(sp, plain, i);
    A.MovedInside(DimsOf(RangesAt(sp, plain, i).value), ap, room);
    A.Moved(ap, 0)
  }

  /** The bytes of the array `mem` as parameter `i`. */
  function Piece(sp: S.Stub, plain: seq<D.Arg>, i: nat, mem: seq<byte>): seq<byte>
    requires S.StubFits(sp) && i < |sp.params| && ArrayFits(sp, plain, i, |mem|)
  {
    A.Gather(mem, Offsets(sp, plain, i, |mem|), TypeSize(sp.params[i].paramType))
  }

  /** `got` is `was` with the moved elements of parameter `i` taken from `src`. */
  predicate Received(sp: S.Stub, plain: seq<D.Arg>, i: nat, src: seq<byte>, was: seq<byte>, got: seq<byte>)
    requires S.StubFits(sp) && i < |sp.params| && ArrayFits(sp, plain, i, |src|)
  {
    A.Overlay(Offsets(sp, plain, i, |src|), TypeSize(sp.params[i].paramType), src, was, got)
  }

  /** ninf_set_array_shape and ninf_send_array. */
  method SendArray(ch: A.Channel, sp: S.Stub, args: seq<Arg>, i: nat, mem: array<byte>)
    requires S.StubFits(sp) && i < |sp.params| && ArrayFits(sp, PlainArgs(args), i, mem.Length)
    modifies ch, mem
    ensures mem[..] == old(mem[..]) && ch.bytes == old(ch.bytes) + Piece(sp, PlainArgs(args), i, mem[..])
  {
    var ap := ShapeAt(sp, PlainArgs(args), i);
    ghost var offs := Offsets(sp, PlainArgs(args), i, mem.Length);
    A.SendGathers(offs, ap.elemSize, A.Io(ch.bytes, mem[..]));
    A.TransArray(ch, mem, 0, ap, false);
  }

  /** ninf_set_array_shape and ninf_recv_array. */
  method RecvArray(ch: A.Channel, sp: S.Stub, args: seq<Arg>, i: nat, mem: array<byte>,
                   ghost src: seq<byte>, ghost rest: seq<byte>)
    requires S.StubFits(sp) && i < |sp.params|
    requires ArrayFits(sp, PlainArgs(args), i, mem.Length) && ArrayFits(sp, PlainArgs(args), i, |src|)
    requires ch.bytes == Piece(sp, PlainArgs(args), i, src) + rest
    modifies ch, mem
    ensures ch.bytes == rest && Received(sp, PlainArgs(args), i, src, old(mem[..]), mem[..])
  {
    var ap := ShapeAt(sp, PlainArgs(args), i);
    ghost var offs := Offsets(sp, PlainArgs(args), i, mem.Length);
    assert offs == Offsets(sp, PlainArgs(args), i, |src|);
    A.CopyIsExact(offs, ap.elemSize, src, rest, mem[..]);
    A.TransArray(ch, mem, 0, ap, true);
  }

  // ----- All arrays of a call -----

  ghost function Contents(mem: seq<array<byte>>): (r: seq<seq<byte>>)
    reads mem
    ensures |r| == |mem| && forall i | 0 <= i < |mem| :: r[i] == mem[i][..]
  {
    seq(|mem|, i requires 0 <= i < |mem| reads mem => mem[i][..])
  }

  /** The arrays that travel have room for their total counts. */
  predicate ArraysFit(sp: S.Stub, plain: seq<D.Arg>, mem: seq<seq<byte>>, toStub: bool)
    requires S.StubFits(sp)
  {
    |mem| == |sp.params| &&
    forall i | 0 <= i < |mem| :: Travels(sp.params[i], toStub) ==> ArrayFits(sp, plain, i, |mem[i]|)
  }

  /** The bytes of the arrays from parameter `i` on. */
  function Bytes(sp: S.Stub, plain: seq<D.Arg>, mem: seq<seq<byte>>, toStub: bool, i: nat): seq<byte>
    requires S.StubFits(sp) && ArraysFit(sp, plain, mem, toStub) && i <= |mem|
    decreases |mem| - i
  {
    if i == |mem| then []
    else if !Travels(sp.params[i], toStub) then Bytes(sp, plain, mem, toStub, i + 1)
    else Piece(sp, plain, i, mem[i]) + Bytes(sp, plain, mem, toStub, i + 1)
  }

  /** The loop over the arrays of omrpc_call_send_args and omrpc_stub_END. */
  method SendArrays(ch: A.Channel, sp: S.Stub, args: seq<Arg>, mem: seq<array<byte>>, toStub: bool)
    requires S.StubFits(sp) && ArraysFit(sp, PlainArgs(args), Contents(mem), toStub)
    modifies ch, mem
    ensures Contents(mem) == old(Contents(mem))
    ensures ch.bytes == old(ch.bytes) + Bytes(sp, PlainArgs(args), Contents(mem), toStub, 0)
  {
    ghost var was, plain := Contents(mem), PlainArgs(args);
    ghost var goal := ch.bytes + Bytes(sp, plain, was, toStub, 0);
    for i := 0 to |mem|
      invariant Contents(mem) == was && ch.bytes + Bytes(sp, plain, was, toStub, i) == goal
    {
      if Travels(sp.params[i], toStub) {
        assert ArrayFits(sp, plain, i, |was[i]|);
        ghost var rest := Bytes(sp, plain, was, toStub, i + 1);
        Associate(ch.bytes, Piece(sp, plain, i, was[i]), rest);
        SendArray(ch, sp, args, i, mem[i]);
        assert Contents(mem) == was;
      }
    }
    Nil(ch.bytes);
  }

  /** No array that is filled is given twice. */
  predicate Apart(sp: S.Stub, mem: seq<array<byte>>, toStub: bool) {
    |mem| == |sp.params| &&
    forall i, j | 0 <= i < j < |mem| :: Travels(sp.params[i], toStub) && Travels(sp.params[j], toStub) ==> mem[i] != mem[j]
  }

  /** The array is none of those that are filled. */
  predicate Aside(sp: S.Stub, mem: seq<array<byte>>, toStub: bool, a: array<byte>) {
    |mem| == |sp.params| && forall j | 0 <= j < |mem| :: Travels(sp.params[j], toStub) ==> mem[j] != a
  }

  /** The arrays below `n` have been received. */
  predicate AllReceived(sp: S.Stub, plain: seq<D.Arg>, toStub: bool, n: nat,
                        src: seq<seq<byte>>, was: seq<seq<byte>>, got: seq<seq<byte>>)
    requires S.StubFits(sp) && ArraysFit(sp, plain, src, toStub)
  {
    && |was| == |got| == |src|
    && forall i | 0 <= i < |src| && Travels(sp.params[i], toStub) ::
         if i < n then Received(sp, plain, i, src[i], was[i], got[i]) else got[i] == was[i]
  }

  /** The loop over the arrays of omrpc_stub_REQ and omrpc_call_recv_args.  The shapes come from the
      receiver's own scalars; `plain` are the sender's. */
  method RecvArrays(ch: A.Channel, sp: S.Stub, args: seq<Arg>, mem: seq<array<byte>>, toStub: bool,
                    ghost plain: seq<D.Arg>, ghost src: seq<seq<byte>>)
    requires S.StubFits(sp) && Shared(sp, PlainArgs(args), plain) && Apart(sp, mem, toStub)
    requires ArraysFit(sp, plain, src, toStub) && ArraysFit(sp, PlainArgs(args), Contents(mem), toStub)
    requires ch.bytes == Bytes(sp, plain, src, toStub, 0)
    modifies ch, mem
    ensures ch.bytes == [] && AllReceived(sp, plain, toStub, |mem|, src, old(Contents(mem)), Contents(mem))
    ensures forall a: array<byte> | a in mem && Aside(sp, mem, toStub, a) :: a[..] == old(a[..])
  {
    ghost var was := Contents(mem);
    for i := 0 to |mem|
      invariant ch.bytes == Bytes(sp, plain, src, toStub, i)
      invariant forall a: array<byte> | a in mem && Aside(sp, mem, toStub, a) :: a[..] == old(a[..])
      invariant AllReceived(sp, plain, toStub, i, src, was, Contents(mem))
    {
      if Travels(sp.params[i], toStub) {
        ghost var before := Contents(mem);
        SameFit(sp, PlainArgs(args), plain, i, toStub, src, before);
        RecvArray(ch, sp, args, i, mem[i], src[i], Bytes(sp, plain, src, toStub, i + 1));
        ReceivedNext(sp, plain, toStub, i, src, was, before, Contents(mem));
      } else {
        ReceivedSkip(sp, plain, toStub, i, src, was, Contents(mem));
      }
    }
  }

  lemma ReceivedNext(sp: S.Stub, plain: seq<D.Arg>, toStub: bool, i: nat, src: seq<seq<byte>>, was: seq<seq<byte>>,
                     before: seq<seq<byte>>, after: seq<seq<byte>>)
    requires S.StubFits(sp) && ArraysFit(sp, plain, src, toStub) && AllReceived(sp, plain, toStub, i, src, was, before)
    requires |after| == |before| && i < |src| && Travels(sp.params[i], toStub)
    requires ArrayFits(sp, plain, i, |src[i]|) && Received(sp, plain, i, src[i], before[i], after[i])
    requires forall k | 0 <= k < |before| && k != i && Travels(sp.params[k], toStub) :: after[k] == before[k]
    ensures AllReceived(sp, plain, toStub, i + 1, src, was, after)
  {
  }

  lemma ReceivedSkip(sp: S.Stub, plain: seq<D.Arg>, toStub: bool, i: nat, src: seq<seq<byte>>, was: seq<seq<byte>>,
                     got: seq<seq<byte>>)
    requires S.StubFits(sp) && ArraysFit(sp, plain, src, toStub) && AllReceived(sp, plain, toStub, i, src, was, got)
    requires i < |src| && !Travels(sp.params[i], toStub)
    ensures AllReceived(sp, plain, toStub, i + 1, src, was, got)
  {
  }

  /** Both sides find the same array. */
  lemma SameFit(sp: S.Stub, mine: seq<D.Arg>, plain: seq<D.Arg>, i: nat, toStub: bool,
                src: seq<seq<byte>>, was: seq<seq<byte>>)
    requires S.StubFits(sp) && i < |sp.params| && Travels(sp.params[i], toStub) && Shared(sp, mine, plain)
    requires ArraysFit(sp, plain, src, toStub) && ArraysFit(sp, mine, was, toStub)
    ensures ArrayFits(sp, plain, i, |src[i]|) && ArrayFits(sp, mine, i, |src[i]|) && ArrayFits(sp, mine, i, |was[i]|)
    ensures Piece(sp, mine, i, src[i]) == Piece(sp, plain, i, src[i])
    ensures forall got: seq<byte> ::
              Received(sp, mine, i, src[i], was[i], got) <==> Received(sp, plain, i, src[i], was[i], got)
  {
    assert ArrayFits(sp, plain, i, |src[i]|) && ArrayFits(sp, mine, i, |was[i]|);
    assert RangesAt(sp, mine, i) == RangesAt(sp, plain, i) by {
      assert Transferred(sp.params[i]);
    }
  }

  // ----- A whole call -----

  /** The bytes the stub allocates for parameter `i`. */
  function Room(sp: S.Stub, plain: seq<D.Arg>, i: nat): int
    requires S.StubFits(sp) && i < |sp.params| && RangesAt(sp, plain, i).Some?
  {
    var ap := ShapeAt(sp, plain, i);
    ap.totalCount * ap.elemSize
  }

  /** The arrays of a call are arrays of their declared shapes, in both directions. */
  predicate CallFits(sp: S.Stub, args: seq<Arg>, mem: seq<seq<byte>>) {
    && S.StubFits(sp) && ScalarsFit(sp.params, args) && Pointers(sp.params, args)
    && ArraysFit(sp, PlainArgs(args), mem, true) && ArraysFit(sp, PlainArgs(args), mem, false)
  }

  /** What the stub allocates for parameter `i`, if it travels. */
  predicate Allocated(sp: S.Stub, plain: seq<D.Arg>, i: nat, length: int)
    requires S.StubFits(sp) && i < |sp.params|
  {
    Transferred(sp.params[i]) ==> ArrayFits(sp, plain, i, length) && length == Room(sp, plain, i)
  }

  method AllocateOne(sp: S.Stub, got: seq<Arg>, i: nat, ghost args: seq<Arg>, ghost mem: seq<seq<byte>>)
    returns (a: array<byte>)
    requires CallFits(sp, args, mem) && Shared(sp, PlainArgs(got), PlainArgs(args)) && i < |sp.params|
    ensures fresh(a) && Allocated(sp, PlainArgs(got), i, a.Length)
  {
    if Transferred(sp.params[i]) {
      RoomFits(sp, PlainArgs(got), args, mem, i);
      a := new byte[Room(sp, PlainArgs(got), i)];
    } else {
      a := new byte[0];
    }
  }

  /** The work arrays of omrpc_stub_REQ, as large as the stub's own scalars say. */
  method Allocate(sp: S.Stub, got: seq<Arg>, ghost args: seq<Arg>, ghost mem: seq<seq<byte>>) returns (work: seq<array<byte>>)
    requires CallFits(sp, args, mem) && Shared(sp, PlainArgs(got), PlainArgs(args))
    ensures |work| == |sp.params| && (forall i | 0 <= i < |work| :: fresh(work[i]))
    ensures forall j, k | 0 <= j < k < |work| :: work[j] != work[k]
    ensures forall toStub :: ArraysFit(sp, PlainArgs(got), Contents(work), toStub)
    ensures forall i | 0 <= i < |work| :: Allocated(sp, PlainArgs(got), i, work[i].Length)
  {
    work := [];
    for i := 0 to |sp.params|
      invariant |work| == i && (forall k | 0 <= k < i :: fresh(work[k]))
      invariant forall j, k | 0 <= j < k < i :: work[j] != work[k]
      invariant forall k | 0 <= k < i :: Allocated(sp, PlainArgs(got), k, work[k].Length)
    {
      var a := AllocateOne(sp, got, i, args, mem);
      work := work + [a];
    }
  }

  lemma RoomFits(sp: S.Stub, plain: seq<D.Arg>, args: seq<Arg>, mem: seq<seq<byte>>, i: nat)
    requires CallFits(sp, args, mem) && Shared(sp, plain, PlainArgs(args)) && i < |sp.params| && Transferred(sp.params[i])
    ensures RangesAt(sp, plain, i).Some? && Room(sp, plain, i) >= 0 && ArrayFits(sp, plain, i, Room(sp, plain, i))
  {
    assert ArrayFits(sp, PlainArgs(args), i, |mem[i]|);
  }

  /** `got` is `was` with the elements of parameter `i` that a transfer moves taken from `src`. */
  predicate Copied(sp: S.Stub, plain: seq<D.Arg>, i: nat, src: seq<byte>, was: seq<byte>, got: seq<byte>)
    requires S.StubFits(sp) && i < |sp.params|
  {
    ArrayFits(sp, plain, i, |src|) && Received(sp, plain, i, src, was, got)
  }

  /** The stub's array of parameter `i` by the mode of the parameter: IN (1) and INOUT (3) arrays have
      arrived, and an OUT (2) array is as it was allocated. */
  predicate Arrived(sp: S.Stub, plain: seq<D.Arg>, i: nat, src: seq<byte>, was: seq<byte>, got: seq<byte>)
    requires S.StubFits(sp) && i < |sp.params|
  {
    var p := sp.params[i];
    |p.dims| > 0 ==>
      && (p.inout == 1 || p.inout == 3 ==> Copied(sp, plain, i, src, was, got))
      && (p.inout == 2 ==> got == was)
  }

  lemma ModesArrive(sp: S.Stub, plain: seq<D.Arg>, i: nat, src: seq<seq<byte>>, was: seq<seq<byte>>, got: seq<seq<byte>>)
    requires S.StubFits(sp) && i < |sp.params| == |was| == |got| && ArraysFit(sp, plain, src, true)
    requires AllReceived(sp, plain, true, |src|, src, was, got)
    requires !Travels(sp.params[i], true) ==> got[i] == was[i]
    ensures Arrived(sp, plain, i, src[i], was[i], got[i])
  {
  }

  /** The stub's side of a call up to the worker: it has the sent scalars, what it held of the others,
      and the moved elements of every IN array in arrays of its own. */
  method StubRecvCall(ch: A.Channel, sp: S.Stub, stale: seq<Arg>, items: seq<Item>,
                      ghost args: seq<Arg>, ghost mem: seq<seq<byte>>)
    returns (got: seq<Arg>, work: seq<array<byte>>, ghost was: seq<seq<byte>>)
    requires CallFits(sp, args, mem) && StubShares(sp, args, stale)
    requires items == Scalars(sp.params, args, 0) && ch.bytes == Bytes(sp, PlainArgs(args), mem, true, 0)
    modifies ch
    ensures ch.bytes == [] && got == Taken(sp.params, args, stale)
    ensures |work| == |mem| && (forall i | 0 <= i < |work| :: fresh(work[i]))
    ensures forall i | 0 <= i < |work| :: Allocated(sp, PlainArgs(args), i, work[i].Length)
    ensures |was| == |work| && forall i | 0 <= i < |work| :: Arrived(sp, PlainArgs(args), i, mem[i], was[i], work[i][..])
    ensures ArraysFit(sp, PlainArgs(got), Contents(work), false)
  {
    got := RecvScalars(sp.params, stale, items, args);
    work := Allocate(sp, got, args, mem);
    was := Contents(work);
    RecvArrays(ch, sp, got, work, true, PlainArgs(args), mem);
    SameLengths(sp, PlainArgs(got), was, Contents(work));
    ghost var now := Contents(work);
    forall i | 0 <= i < |work| ensures Arrived(sp, PlainArgs(args), i, mem[i], was[i], now[i]) {
      assert !Travels(sp.params[i], true) ==> Aside(sp, work, true, work[i]);
      ModesArrive(sp, PlainArgs(args), i, mem, was, now);
    }
  }

  lemma SameLengths(sp: S.Stub, plain: seq<D.Arg>, a: seq<seq<byte>>, b: seq<seq<byte>>)
    requires S.StubFits(sp) && ArraysFit(sp, plain, a, false)
    requires |a| == |b| && forall i | 0 <= i < |a| :: |a[i]| == |b[i]|
    ensures ArraysFit(sp, plain, b, false)
  {
  }

  /** Both sides of it. */
  method Call(sp: S.Stub, args: seq<Arg>, stale: seq<Arg>, mem: seq<array<byte>>)
    returns (got: seq<Arg>, work: seq<array<byte>>, left: seq<byte>, ghost was: seq<seq<byte>>)
    requires CallFits(sp, args, Contents(mem)) && StubShares(sp, args, stale)
    modifies mem
    ensures Contents(mem) == old(Contents(mem)) && left == []
    ensures got == Taken(sp.params, args, stale) && ScalarsByMode(sp.params, args, stale, got) && |work| == |mem|
    ensures forall i | 0 <= i < |work| :: fresh(work[i])
    ensures forall i | 0 <= i < |work| :: Allocated(sp, PlainArgs(args), i, work[i].Length)
    ensures |was| == |work| && forall i | 0 <= i < |work| ::
              Arrived(sp, PlainArgs(args), i, old(Contents(mem))[i], was[i], work[i][..])
    ensures ArraysFit(sp, PlainArgs(got), Contents(work), false)
  {
    ghost var src := Contents(mem);
    var items := SendScalars(sp.params, args);
    var ch := new A.Channel();
    SendArrays(ch, sp, args, mem, true);
    Nil(Bytes(sp, PlainArgs(args), src, true, 0));
    got, work, was := StubRecvCall(ch, sp, stale, items, args, src);
    TakenByMode(sp.params, args, stale);
    left := ch.bytes;
    assert Contents(mem) == src;
  }

  /** The loops of omrpc_stub_END and omrpc_call_recv_args, one after the other. */
  method MoveResults(sp: S.Stub, args: seq<Arg>, got: seq<Arg>, mem: seq<array<byte>>, work: seq<array<byte>>)
    returns (left: seq<byte>)
    requires CallFits(sp, args, Contents(mem)) && Shared(sp, PlainArgs(got), PlainArgs(args)) && Apart(sp, mem, false)
    requires ArraysFit(sp, PlainArgs(got), Contents(work), false)
    requires forall i, j | 0 <= i < |mem| && 0 <= j < |work| :: mem[i] != work[j]
    modifies mem, work
    ensures Contents(work) == old(Contents(work)) && left == []
    ensures ArraysFit(sp, PlainArgs(got), Contents(work), false)
    ensures AllReceived(sp, PlainArgs(got), false, |mem|, Contents(work), old(Contents(mem)), Contents(mem))
    ensures forall a: array<byte> | a in mem && Aside(sp, mem, false, a) :: a[..] == old(a[..])
  {
    ghost var src := Contents(work);
    var ch := new A.Channel();
    SendArrays(ch, sp, got, work, false);
    Nil(Bytes(sp, PlainArgs(got), src, false, 0));
    RecvArrays(ch, sp, args, mem, false, PlainArgs(got), src);
    left := ch.bytes;
    assert Contents(work) == src;
  }

  /** The client's array of parameter `i` by the mode of the parameter: OUT (2) and INOUT (3) arrays have
      the worker's elements, and an IN (1) array that is none of these is as it was. */
  predicate Returned(sp: S.Stub, plain: seq<D.Arg>, i: nat, src: seq<byte>, was: seq<byte>, got: seq<byte>, filled: bool)
    requires S.StubFits(sp) && i < |sp.params|
  {
    var p := sp.params[i];
    |p.dims| > 0 ==>
      && (p.inout == 2 || p.inout == 3 ==> Copied(sp, plain, i, src, was, got))
      && (p.inout == 1 && !filled ==> got == was)
  }

  /** The results come back. */
  method Results(sp: S.Stub, args: seq<Arg>, got: seq<Arg>, mem: seq<array<byte>>, work: seq<array<byte>>)
    returns (left: seq<byte>)
    requires CallFits(sp, args, Contents(mem)) && Shared(sp, PlainArgs(got), PlainArgs(args)) && Apart(sp, mem, false)
    requires ArraysFit(sp, PlainArgs(got), Contents(work), false)
    requires forall i, j | 0 <= i < |mem| && 0 <= j < |work| :: mem[i] != work[j]
    modifies mem, work
    ensures Contents(work) == old(Contents(work)) && |work| == |mem| && left == []
    ensures forall i | 0 <= i < |mem| ::
              Returned(sp, PlainArgs(got), i, work[i][..], old(mem[i][..]), mem[i][..], Filled(sp, mem, i))
  {
    ghost var was := Contents(mem);
    left := MoveResults(sp, args, got, mem, work);
    ghost var src, now := Contents(work), Contents(mem);
    forall i | 0 <= i < |mem| ensures Returned(sp, PlainArgs(got), i, src[i], was[i], now[i], Filled(sp, mem, i)) {
      if sp.params[i].inout == 1 {
        FilledOrAside(sp, mem, i);
      }
      ModesReturn(sp, PlainArgs(got), i, src, was, now, Filled(sp, mem, i));
    }
  }

  /** The array of parameter `i` is also that of another one whose mode is not NONE (0), IN (1), WORK (4)
      or that of a function (5). */
  predicate Filled(sp: S.Stub, mem: seq<array<byte>>, i: nat)
    requires |mem| == |sp.params| && i < |mem|
  {
    exists j | 0 <= j < |mem| :: j != i && sp.params[j].inout !in {0, 1, 4, 5} && mem[j] == mem[i]
  }

  lemma FilledOrAside(sp: S.Stub, mem: seq<array<byte>>, i: nat)
    requires |mem| == |sp.params| && i < |mem| && sp.params[i].inout == 1
    ensures Filled(sp, mem, i) || Aside(sp, mem, false, mem[i])
  {
  }

  lemma ModesReturn(sp: S.Stub, plain: seq<D.Arg>, i: nat, src: seq<seq<byte>>, was: seq<seq<byte>>, got: seq<seq<byte>>,
                    filled: bool)
    requires S.StubFits(sp) && i < |sp.params| == |was| == |got| && ArraysFit(sp, plain, src, false)
    requires AllReceived(sp, plain, false, |src|, src, was, got)
    requires sp.params[i].inout == 1 && !filled ==> got[i] == was[i]
    ensures Returned(sp, plain, i, src[i], was[i], got[i], filled)
  {
  }

  // ----- Where the two ends part -----

  /** The interface of which a size uses a scalar that is not sent, over a stream: the client sends two
      elements and the stub waits for four, so it waits for ever. */
  lemma UnsentScalarStarves(sp: S.Stub, none: S.Value, two: S.Value, byArg: S.Value, args: seq<Arg>, stale: seq<Arg>,
                            src: seq<byte>, dst: seq<byte>)
    requires var codes := seq(20, i => 0); none == S.Value(0, 0, codes, codes)
    requires two == none.(t := 1, v := 2) && byArg == none.(t := 2, v := 1)
    requires sp == S.Stub(3, 1, 0, [], [], 0, 0, 0,
                          [S.Param(4, 0, []), S.Param(4, 1, []),
                           S.Param(4, 1, [S.Dim(two, none, none, none), S.Dim(byArg, none, none, none)])])
    requires Pointers(sp.params, args) && args[1] == Scalar(D.IntArg(1)) && |src| == 8
    requires Pointers(sp.params, stale) && stale[1] == Scalar(D.IntArg(2)) && |dst| == 16
    ensures S.StubFits(sp) && !StubShares(sp, args, stale)
    ensures var seen := PlainArgs(Taken(sp.params, args, stale));
            && ArrayFits(sp, PlainArgs(args), 2, 8) && ArrayFits(sp, seen, 2, 16)
            && !A.Ready(Offsets(sp, seen, 2, 16), 4, A.Io(Piece(sp, PlainArgs(args), 2, src), dst), true)
  {
    var mine, seen := PlainArgs(args), PlainArgs(Taken(sp.params, args, stale));
    assert !IsSent(sp.params, 1) by {
      assert |sp.params[0].dims| == 0 && !IsIn(sp.params[0]);
    }
    S.AllDimsFit(sp.params[2].dims);
    S.AllParamsFit(sp.params);
    TwoByN(sp, mine, 1);
    TwoByN(sp, seen, 2);
    assert Transferred(sp.params[2]);
    A.ReceiveIsExact(Offsets(sp, mine, 2, 8), Offsets(sp, seen, 2, 16), 4, src, dst);
  }

  lemma TwoByN(sp: S.Stub, plain: seq<D.Arg>, n: int)
    requires S.StubFits(sp) && sp.shrink == 0 && |sp.params| == 3 && sp.params[2].paramType == 4
    requires var dims := sp.params[2].dims;
             && |dims| == 2 && dims[0].size.t == 1 && dims[0].size.v == 2 && dims[1].size.t == 2 && dims[1].size.v == 1
             && forall k | 0 <= k < 2 :: dims[k].start.t == 0 && dims[k].end.t == 0 && dims[k].step.t == 0
    requires |plain| == 3 && plain[1] == D.IntArg(n) && 1 <= n <= 2
    ensures RangesAt(sp, plain, 2) == Some([Range(2, 0, 2, 1), Range(n, 0, n, 1)])
    ensures ArrayFits(sp, plain, 2, 8 * n) && |Offsets(sp, plain, 2, 8 * n)| == 2 * n
  {
    StubIsSized(sp, 2);
    RangesHere(sp.params[2].dims, plain, n);
    var dims, ap := DimsOf(RangesAt(sp, plain, 2).value), ShapeAt(sp, plain, 2);
    assert A.Total(dims, false, 2) == A.Total(dims, false, 1) * n == A.Total(dims, false, 0) * 2 * n;
    A.ProperShape(dims, ap);
    A.TouchedCount(ap, 1, 0);
    Counted(n);
    assert A.Picked(ap, 1) == |A.Selected(0, n, 1)| * A.Picked(ap, 0);
  }

  lemma Counted(n: int)
    requires 1 <= n <= 2
    ensures |A.Selected(0, n, 1)| == n && |A.Selected(0, 2, 1)| == 2
  {
    assert |A.Selected(1, 2, 1)| == 1 + |A.Selected(2, 2, 1)|;
  }
}
