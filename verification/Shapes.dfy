/** Array shapes from arguments: how each side of a call computes them from its own scalars, and when
both find the same ones.  This part is common to calls over streams and over MPI. */
module Shapes {
  import opened Wrappers
  import A = ArrayTransfer
  import D = DimExpr
  import S = StubInfo

  const DT_STRING_TYPE: int := 17

  datatype Elem = Num(v: int) | Text(s: seq<byte>)

  /** An argument; an array is given as the rows that the transfer visits, in order. */
  datatype Arg = Scalar(value: D.Arg) | Str(text: seq<byte>) | Array(rows: seq<seq<Elem>>)

  // ----- Array shapes from arguments -----

  predicate IsIn(p: S.Param) { p.inout % 2 == 1 }

  predicate IsOut(p: S.Param) { (p.inout / 2) % 2 == 1 }

  function Plain(a: Arg): D.Arg {
    match a
    case Scalar(v) => v
    case Str(_) => D.OtherArg
    case Array(_) => D.OtherArg
  }

  function PlainArgs(args: seq<Arg>): (r: seq<D.Arg>)
    ensures |r| == |args|
  {
    seq(|args|, i requires 0 <= i < |args| => Plain(args[i]))
  }

  function Code(x: S.Value): (code: seq<D.Item>)
    requires |x.types| == |x.vals|
    ensures |code| == |x.types|
  {
    seq(|x.types|, i requires 0 <= i < |x.types| => D.Item(x.types[i], x.vals[i]))
  }

  /** ninf_get_value. */
  function GetValue(x: S.Value, args: seq<D.Arg>, default: int): D.Outcome
    requires |x.types| == |x.vals|
  {
    if x.t == D.VALUE_BY_EXPR then D.Exec(Code(x), args) else D.PlainValue(x.t, x.v, args, default)
  }

  /** One dimension as ninf_set_array_shape evaluates it. */
  datatype Range = Range(size: int, start: int, end: int, step: int)

  /** The same dimension as the transfer takes it. */
  function DimOf(r: Range): A.Dim {
    A.Dim(Some(r.size), Some(r.start), Some(r.end), Some(r.step))
  }

  function DimsOf(ranges: seq<Range>): (dims: seq<A.Dim>)
    ensures |dims| == |ranges|
  {
    seq(|ranges|, d requires 0 <= d < |ranges| => DimOf(ranges[d]))
  }

  /** The array in memory that the ranges stand for. */
  function Layout(ranges: seq<Range>, shrink: bool, elemSize: int): A.Shape {
    var dims := DimsOf(ranges);
    A.Shape(seq(|ranges|, d requires 0 <= d < |ranges| => A.ShapeOf(dims, elemSize, d)),
            elemSize, shrink, A.Total(dims, shrink, |dims|))
  }

  predicate DimSized(d: S.Dim) {
    && |d.size.types| == |d.size.vals| && |d.start.types| == |d.start.vals|
    && |d.end.types| == |d.end.vals| && |d.step.types| == |d.step.vals|
  }

  /** The range of one dimension; `None` when a value is fatal. */
  function RangeOf(d: S.Dim, args: seq<D.Arg>): Option<Range>
    requires DimSized(d)
  {
    var size := GetValue(d.size, args, 0);
    var start := GetValue(d.start, args, 0);
    var end := GetValue(d.end, args, if size.Value? then size.v else 0);
    var step := GetValue(d.step, args, 1);
    if size.Value? && start.Value? && end.Value? && step.Value? then Some(Range(size.v, start.v, end.v, step.v))
    else None
  }

  /** Which value is which: constants, and what is missing. */
  lemma ConstantRange(d: S.Dim, args: seq<D.Arg>)
    requires DimSized(d) && d.size.t == D.VALUE_CONST && d.start.t in {D.VALUE_CONST, D.VALUE_NONE}
    requires d.end.t in {D.VALUE_CONST, D.VALUE_NONE} && d.step.t in {D.VALUE_CONST, D.VALUE_NONE}
    ensures var r := RangeOf(d, args);
            && r.Some? && r.value.size == d.size.v
            && r.value.start == (if d.start.t == D.VALUE_CONST then d.start.v else 0)
            && r.value.end == (if d.end.t == D.VALUE_CONST then d.end.v else d.size.v)
            && r.value.step == (if d.step.t == D.VALUE_CONST then d.step.v else 1)
  {
  }

  function RangesOf(dims: seq<S.Dim>, args: seq<D.Arg>): (r: Option<seq<Range>>)
    requires forall k | 0 <= k < |dims| :: DimSized(dims[k])
    ensures r.Some? ==> |r.value| == |dims|
  {
    if dims == [] then Some([])
    else
      var first :- RangeOf(dims[0], args);
      var others :- RangesOf(dims[1..], args);
      Some([first] + others)
  }

  // ----- Which arguments a shape depends on -----

  /** The scalar at `j` is sent: it is IN, and the loop over the scalars has not stopped at an
      earlier one that is not. */
  predicate IsSent(ps: seq<S.Param>, j: int) {
    && 0 <= j < |ps| && |ps[j].dims| == 0
    && forall i {:trigger ps[i]} | 0 <= i <= j :: |ps[i].dims| == 0 ==> IsIn(ps[i])
  }

  predicate ValueSettled(x: S.Value, ps: seq<S.Param>) {
    && (x.t == D.VALUE_IN_ARG ==> IsSent(ps, x.v))
    && (forall k | 0 <= k < |x.types| && k < |x.vals| :: x.types[k] == D.VALUE_IN_ARG ==> IsSent(ps, x.vals[k]))
  }

  predicate DimSettled(d: S.Dim, ps: seq<S.Param>) {
    ValueSettled(d.size, ps) && ValueSettled(d.start, ps) && ValueSettled(d.end, ps) && ValueSettled(d.step, ps)
  }

  /** Every dimension uses only scalars that are sent. */
  predicate Settled(ps: seq<S.Param>) {
    forall i | 0 <= i < |ps| :: forall k | 0 <= k < |ps[i].dims| :: DimSettled(ps[i].dims[k], ps)
  }

  /** The stub holds the client's value of every scalar that is sent. */
  predicate Agree(ps: seq<S.Param>, mine: seq<D.Arg>, other: seq<D.Arg>) {
    |mine| == |other| && forall j | 0 <= j < |mine| :: IsSent(ps, j) ==> mine[j] == other[j]
  }

  lemma {:induction false} RunAgrees(code: seq<D.Item>, stack: seq<int>, ps: seq<S.Param>,
                                     mine: seq<D.Arg>, other: seq<D.Arg>)
    requires Agree(ps, mine, other)
    requires forall k | 0 <= k < |code| :: code[k].t == D.VALUE_IN_ARG ==> IsSent(ps, code[k].v)
    ensures D.Run(code, stack, mine) == D.Run(code, stack, other)
    decreases |code|
  {
    if code != [] {
      assert code[0].t == D.VALUE_IN_ARG ==> IsSent(ps, code[0].v);
      var turn := D.Turn(code[0], stack, mine);
      assert turn == D.Turn(code[0], stack, other);
      if turn.Running? {
        RunAgrees(code[1..], turn.stack, ps, mine, other);
      }
    }
  }

  lemma ValueAgrees(x: S.Value, ps: seq<S.Param>, mine: seq<D.Arg>, other: seq<D.Arg>, default: int)
    requires |x.types| == |x.vals| && ValueSettled(x, ps) && Agree(ps, mine, other)
    ensures GetValue(x, mine, default) == GetValue(x, other, default)
  {
    if x.t == D.VALUE_BY_EXPR {
      RunAgrees(Code(x), [], ps, mine, other);
    }
  }

  /** Client and stub compute the same shape. */
  lemma {:induction false} ShapeAgrees(dims: seq<S.Dim>, ps: seq<S.Param>, mine: seq<D.Arg>, other: seq<D.Arg>)
    requires forall k | 0 <= k < |dims| :: DimSized(dims[k]) && DimSettled(dims[k], ps)
    requires Agree(ps, mine, other)
    ensures RangesOf(dims, mine) == RangesOf(dims, other)
    decreases |dims|
  {
    if dims != [] {
      var d := dims[0];
      ValueAgrees(d.size, ps, mine, other, 0);
      ValueAgrees(d.start, ps, mine, other, 0);
      var size := GetValue(d.size, mine, 0);
      ValueAgrees(d.end, ps, mine, other, if size.Value? then size.v else 0);
      ValueAgrees(d.step, ps, mine, other, 1);
      ShapeAgrees(dims[1..], ps, mine, other);
    }
  }

  // ----- The arrays of a call -----

  predicate IsScalar(p: S.Param) { |p.dims| == 0 }

  /** The ranges of parameter `i`. */
  function RangesAt(sp: S.Stub, plain: seq<D.Arg>, i: nat): Option<seq<Range>>
    requires S.StubFits(sp) && i < |sp.params|
  {
    StubIsSized(sp, i);
    RangesOf(sp.params[i].dims, plain)
  }

  lemma StubIsSized(sp: S.Stub, i: nat)
    requires S.StubFits(sp) && i < |sp.params|
    ensures forall k | 0 <= k < |sp.params[i].dims| :: DimSized(sp.params[i].dims[k])
  {
    S.ParamFitsAt(sp.params, i);
    forall k | 0 <= k < |sp.params[i].dims| ensures DimSized(sp.params[i].dims[k]) {
      S.DimFitsAt(sp.params[i].dims, k);
    }
  }

  /** The arrays that travel: to the stub (`toStub`) or back. */
  predicate Travels(p: S.Param, toStub: bool) {
    !IsScalar(p) && if toStub then IsIn(p) else IsOut(p)
  }

  predicate Transferred(p: S.Param) { Travels(p, true) || Travels(p, false) }

  /** Two lists of scalars give the same ranges to every array that travels. */
  predicate Shared(sp: S.Stub, mine: seq<D.Arg>, other: seq<D.Arg>)
    requires S.StubFits(sp)
  {
    forall i | 0 <= i < |sp.params| :: Transferred(sp.params[i]) ==> RangesAt(sp, mine, i) == RangesAt(sp, other, i)
  }

  /** Array arguments are given as arrays. */
  predicate Pointers(ps: seq<S.Param>, args: seq<Arg>) {
    |args| == |ps| && forall i | 0 <= i < |ps| :: !IsScalar(ps[i]) ==> args[i].Array?
  }

  /** The stub's arguments after the scalars: those sent, and elsewhere those of earlier calls. */
  function Taken(ps: seq<S.Param>, args: seq<Arg>, stale: seq<Arg>): (r: seq<Arg>)
    requires |args| == |stale|
    ensures |r| == |args|
  {
    seq(|args|, j requires 0 <= j < |args| => if IsSent(ps, j) then args[j] else stale[j])
  }

  /** Every scalar up to `j` has the mode IN (1), INOUT (3) or that of a callback function (5). */
  predicate InUpTo(ps: seq<S.Param>, j: nat)
    requires j < |ps|
  {
    forall k | 0 <= k <= j :: |ps[k].dims| == 0 ==> ps[k].inout in {1, 3, 5}
  }

  /** Some scalar up to `j` has the mode NONE (0), OUT (2) or WORK (4). */
  predicate StopsBy(ps: seq<S.Param>, j: nat)
    requires j < |ps|
  {
    exists k | 0 <= k <= j :: |ps[k].dims| == 0 && ps[k].inout in {0, 2, 4}
  }

  /** The stub's scalars by the modes of the parameters. */
  predicate ScalarsByMode(ps: seq<S.Param>, args: seq<Arg>, stale: seq<Arg>, got: seq<Arg>) {
    && |args| == |stale| == |got| == |ps|
    && forall j | 0 <= j < |ps| && |ps[j].dims| == 0 ::
         (InUpTo(ps, j) ==> got[j] == args[j]) && (StopsBy(ps, j) ==> got[j] == stale[j])
  }

  lemma SentByMode(ps: seq<S.Param>, j: nat)
    requires j < |ps| && |ps[j].dims| == 0
    ensures InUpTo(ps, j) ==> IsSent(ps, j)
    ensures StopsBy(ps, j) ==> !IsSent(ps, j)
  {
    if StopsBy(ps, j) {
      var k :| 0 <= k <= j && |ps[k].dims| == 0 && ps[k].inout in {0, 2, 4};
      assert !IsIn(ps[k]);
    }
  }

  lemma TakenByMode(ps: seq<S.Param>, args: seq<Arg>, stale: seq<Arg>)
    requires |args| == |stale| == |ps|
    ensures ScalarsByMode(ps, args, stale, Taken(ps, args, stale))
  {
    forall j: nat | j < |ps| && |ps[j].dims| == 0 {
      SentByMode(ps, j);
    }
  }

  /** The stub's scalars lead it to the client's shapes. */
  predicate StubShares(sp: S.Stub, args: seq<Arg>, stale: seq<Arg>)
    requires S.StubFits(sp)
  {
    && |args| == |stale| && Pointers(sp.params, stale)
    && Shared(sp, PlainArgs(Taken(sp.params, args, stale)), PlainArgs(args))
  }

  // ----- The scalars of a call -----

  predicate IsString(p: S.Param) { p.paramType == DT_STRING_TYPE }

  /** DT_CHAR to DT_STRING_TYPE. */
  predicate ScalarType(ty: int) { 2 <= ty <= 17 }

  predicate ScalarFits(p: S.Param, a: Arg) {
    ScalarType(p.paramType) && if IsString(p) then a.Str? && 0 !in a.text else a.Scalar?
  }

  predicate ScalarsFit(ps: seq<S.Param>, args: seq<Arg>) {
    |args| == |ps| && forall i | 0 <= i < |ps| :: IsScalar(ps[i]) && IsIn(ps[i]) ==> ScalarFits(ps[i], args[i])
  }

  /** `got` holds the sent scalars below `i`, and elsewhere what was there before. */
  predicate ScalarsGot(ps: seq<S.Param>, args: seq<Arg>, stale: seq<Arg>, got: seq<Arg>, i: nat) {
    && |got| == |stale| == |args| == |ps|
    && forall j | 0 <= j < |ps| :: got[j] == if j < i && IsSent(ps, j) then args[j] else stale[j]
  }

  /** The loop over the scalars has not stopped before `i`. */
  predicate Open(ps: seq<S.Param>, i: nat) {
    i <= |ps| && forall j | 0 <= j < i :: IsScalar(ps[j]) ==> IsIn(ps[j])
  }

  lemma SentHere(ps: seq<S.Param>, i: nat)
    requires i < |ps| && Open(ps, i)
    ensures IsSent(ps, i) <==> IsScalar(ps[i]) && IsIn(ps[i])
  {
  }

  lemma StoppedHere(ps: seq<S.Param>, i: nat, j: nat)
    requires i < |ps| && IsScalar(ps[i]) && !IsIn(ps[i]) && i <= j < |ps|
    ensures !IsSent(ps, j)
  {
    assert IsScalar(ps[i]) && !IsIn(ps[i]);
  }

  lemma ScalarsAreTaken(ps: seq<S.Param>, args: seq<Arg>, stale: seq<Arg>, got: seq<Arg>)
    requires ScalarsGot(ps, args, stale, got, |ps|) && Pointers(ps, stale)
    ensures got == Taken(ps, args, stale) && Pointers(ps, got)
  {
    assert got == Taken(ps, args, stale);
  }

  // ----- One scalar and the ranges that use it -----

  /** The value is taken from the argument at `j`. */
  predicate Takes(x: S.Value, j: int) { x.t == D.VALUE_IN_ARG && x.v == j }

  predicate RangeTakes(d: S.Dim, j: int) {
    Takes(d.size, j) || Takes(d.start, j) || Takes(d.end, j) || Takes(d.step, j)
  }

  /** No value of the dimension is an expression. */
  predicate Direct(d: S.Dim) {
    && d.size.t != D.VALUE_BY_EXPR && d.start.t != D.VALUE_BY_EXPR
    && d.end.t != D.VALUE_BY_EXPR && d.step.t != D.VALUE_BY_EXPR
  }

  predicate AllDirect(dims: seq<S.Dim>) {
    forall k | 0 <= k < |dims| :: DimSized(dims[k]) && Direct(dims[k])
  }

  /** Values of one C type. */
  predicate Alike(a: D.Arg, b: D.Arg) {
    a.IntArg? == b.IntArg? && a.FloatArg? == b.FloatArg?
  }

  predicate AllAlike(a: seq<D.Arg>, b: seq<D.Arg>) {
    |a| == |b| && forall j | 0 <= j < |a| :: Alike(a[j], b[j])
  }

  /** Another value of the same type, with another whole part. */
  function Another(a: D.Arg): (b: D.Arg)
    ensures Alike(a, b)
    ensures !a.OtherArg? ==> D.ArgValue([b], 0).Value? && D.ArgValue([b], 0) != D.ArgValue([a], 0)
  {
    match a
    case IntArg(i) => D.IntArg(if i > 0 then i - 1 else i + 1)
    case FloatArg(f) => D.FloatArg(if f >= 1.0 then f - 1.0 else 1.0)
    case OtherArg => D.OtherArg
  }

  lemma ValueMoves(x: S.Value, args: seq<D.Arg>, j: nat, default: int)
    requires |x.types| == |x.vals| && x.t != D.VALUE_BY_EXPR
    requires j < |args| && !args[j].OtherArg? && GetValue(x, args, default).Value?
    ensures var other := args[j := Another(args[j])];
            GetValue(x, other, default).Value? && (GetValue(x, other, default) == GetValue(x, args, default) <==> !Takes(x, j))
  {
    assert D.ArgValue([args[j]], 0) == D.ArgValue(args, j);
    assert D.ArgValue([Another(args[j])], 0) == D.ArgValue(args[j := Another(args[j])], j);
  }

  /** Changing one scalar changes a range exactly if the range takes it. */
  lemma RangeMoves(d: S.Dim, args: seq<D.Arg>, j: nat)
    requires DimSized(d) && Direct(d) && j < |args| && !args[j].OtherArg? && RangeOf(d, args).Some?
    ensures var other := args[j := Another(args[j])];
            RangeOf(d, other).Some? && (RangeOf(d, other) == RangeOf(d, args) <==> !RangeTakes(d, j))
  {
    ValueMoves(d.size, args, j, 0);
    ValueMoves(d.start, args, j, 0);
    ValueMoves(d.end, args, j, 0);
    ValueMoves(d.step, args, j, 1);
  }

  lemma {:induction false} RangesMove(dims: seq<S.Dim>, args: seq<D.Arg>, j: nat)
    requires AllDirect(dims) && j < |args| && !args[j].OtherArg? && RangesOf(dims, args).Some?
    ensures var other := args[j := Another(args[j])];
            && RangesOf(dims, other).Some?
            && (RangesOf(dims, other) == RangesOf(dims, args) <==> forall k | 0 <= k < |dims| :: !RangeTakes(dims[k], j))
    decreases |dims|
  {
    if dims != [] {
      var other := args[j := Another(args[j])];
      RangeMoves(dims[0], args, j);
      RangesMove(dims[1..], args, j);
      ConsEqual(RangeOf(dims[0], other).value, RangesOf(dims[1..], other).value,
                RangeOf(dims[0], args).value, RangesOf(dims[1..], args).value);
      assert (forall k | 0 <= k < |dims| :: !RangeTakes(dims[k], j)) <==>
             !RangeTakes(dims[0], j) && forall k | 0 <= k < |dims| - 1 :: !RangeTakes(dims[1..][k], j) by {
        forall k | 0 <= k < |dims| - 1 ensures dims[1..][k] == dims[k + 1] {
        }
        forall k | 1 <= k < |dims| ensures dims[k] == dims[1..][k - 1] {
        }
      }
    }
  }

  lemma ConsEqual<T>(a: T, s: seq<T>, b: T, t: seq<T>)
    ensures [a] + s == [b] + t <==> a == b && s == t
  {
    if [a] + s == [b] + t {
      assert ([a] + s)[0] == a && ([b] + t)[0] == b && ([a] + s)[1..] == s && ([b] + t)[1..] == t;
    }
  }

  // ----- The scalars that are not sent -----

  /** The value is taken from a scalar that the stub does not get. */
  predicate Unsent(x: S.Value, ps: seq<S.Param>) { x.t == D.VALUE_IN_ARG && !IsSent(ps, x.v) }

  predicate RangeUnsent(d: S.Dim, ps: seq<S.Param>) {
    Unsent(d.size, ps) || Unsent(d.start, ps) || Unsent(d.end, ps) || Unsent(d.step, ps)
  }

  lemma ValueStays(x: S.Value, ps: seq<S.Param>, mine: seq<D.Arg>, other: seq<D.Arg>, default: int)
    requires |x.types| == |x.vals| && x.t != D.VALUE_BY_EXPR && Agree(ps, other, mine) && AllAlike(other, mine)
    requires GetValue(x, mine, default).Value?
    ensures GetValue(x, other, default).Value?
    ensures !Unsent(x, ps) ==> GetValue(x, other, default) == GetValue(x, mine, default)
  {
  }

  lemma RangeStays(d: S.Dim, ps: seq<S.Param>, mine: seq<D.Arg>, other: seq<D.Arg>)
    requires DimSized(d) && Direct(d) && Agree(ps, other, mine) && AllAlike(other, mine)
    requires RangeOf(d, mine).Some? && !RangeUnsent(d, ps)
    ensures RangeOf(d, other) == RangeOf(d, mine)
  {
    ValueStays(d.size, ps, mine, other, 0);
    ValueStays(d.start, ps, mine, other, 0);
    ValueStays(d.end, ps, mine, other, 0);
    ValueStays(d.step, ps, mine, other, 1);
  }

  lemma {:induction false} RangesStay(dims: seq<S.Dim>, ps: seq<S.Param>, mine: seq<D.Arg>, other: seq<D.Arg>)
    requires AllDirect(dims) && Agree(ps, other, mine) && AllAlike(other, mine)
    requires RangesOf(dims, mine).Some? && forall k | 0 <= k < |dims| :: !RangeUnsent(dims[k], ps)
    ensures RangesOf(dims, other) == RangesOf(dims, mine)
    decreases |dims|
  {
    if dims != [] {
      RangeStays(dims[0], ps, mine, other);
      RangesStay(dims[1..], ps, mine, other);
    }
  }

  // ----- When client and stub agree -----

  /** No array that travels has an expression in its dimensions. */
  predicate WithoutExpressions(sp: S.Stub) {
    forall i | 0 <= i < |sp.params| :: Transferred(sp.params[i]) ==> AllDirect(sp.params[i].dims)
  }

  predicate OnlySent(p: S.Param, ps: seq<S.Param>) {
    forall k | 0 <= k < |p.dims| :: !RangeUnsent(p.dims[k], ps)
  }

  /** The ranges of the arrays that travel take no scalar that is not sent. */
  predicate RangesAreSent(sp: S.Stub) {
    forall i | 0 <= i < |sp.params| :: Transferred(sp.params[i]) ==> OnlySent(sp.params[i], sp.params)
  }

  /** Arguments of the same C types. */
  predicate AlikeArgs(a: seq<Arg>, b: seq<Arg>) {
    && |a| == |b|
    && forall j | 0 <= j < |a| ::
         && a[j].Scalar? == b[j].Scalar? && a[j].Array? == b[j].Array?
         && (a[j].Scalar? ==> Alike(a[j].value, b[j].value))
  }

  lemma TakenIsAlike(ps: seq<S.Param>, args: seq<Arg>, stale: seq<Arg>)
    requires AlikeArgs(stale, args) && |args| == |ps|
    ensures var seen := PlainArgs(Taken(ps, args, stale)); Agree(ps, seen, PlainArgs(args)) && AllAlike(seen, PlainArgs(args))
  {
  }

  /** One parameter: the stub finds the client's ranges whatever it happens to hold. */
  lemma ParamShares(sp: S.Stub, args: seq<Arg>, stale: seq<Arg>, i: nat)
    requires S.StubFits(sp) && i < |sp.params| == |args| && AlikeArgs(stale, args)
    requires AllDirect(sp.params[i].dims) && OnlySent(sp.params[i], sp.params)
    requires RangesAt(sp, PlainArgs(args), i).Some?
    ensures RangesAt(sp, PlainArgs(Taken(sp.params, args, stale)), i) == RangesAt(sp, PlainArgs(args), i)
  {
    TakenIsAlike(sp.params, args, stale);
    RangesStay(sp.params[i].dims, sp.params, PlainArgs(args), PlainArgs(Taken(sp.params, args, stale)));
  }

  /** One parameter that takes a scalar which is not sent: with another value of it the stub finds
      other ranges. */
  lemma ParamParts(sp: S.Stub, args: seq<Arg>, i: nat) returns (stale: seq<Arg>)
    requires S.StubFits(sp) && i < |sp.params| && Pointers(sp.params, args)
    requires AllDirect(sp.params[i].dims) && !OnlySent(sp.params[i], sp.params)
    requires RangesAt(sp, PlainArgs(args), i).Some?
    ensures AlikeArgs(stale, args)
    ensures RangesAt(sp, PlainArgs(Taken(sp.params, args, stale)), i).Some?
    ensures RangesAt(sp, PlainArgs(Taken(sp.params, args, stale)), i) != RangesAt(sp, PlainArgs(args), i)
  {
    var dims, plain := sp.params[i].dims, PlainArgs(args);
    var k :| 0 <= k < |dims| && RangeUnsent(dims[k], sp.params);
    var j := UnsentScalar(dims, sp.params, plain, k);
    stale := args[j := Scalar(Another(args[j].value))];
    RangesMove(dims, plain, j);
    TakenIsStale(sp.params, args, j, Another(plain[j]));
  }

  lemma TakenIsStale(ps: seq<S.Param>, args: seq<Arg>, j: nat, v: D.Arg)
    requires j < |args| == |ps| && !IsSent(ps, j) && args[j].Scalar? && Alike(v, args[j].value)
    ensures AlikeArgs(args[j := Scalar(v)], args)
    ensures PlainArgs(Taken(ps, args, args[j := Scalar(v)])) == PlainArgs(args)[j := v]
  {
  }

  lemma UnsentScalar(dims: seq<S.Dim>, ps: seq<S.Param>, plain: seq<D.Arg>, k: nat) returns (j: nat)
    requires AllDirect(dims) && k < |dims| && RangeUnsent(dims[k], ps) && RangesOf(dims, plain).Some?
    ensures j < |plain| && !plain[j].OtherArg? && !IsSent(ps, j) && RangeTakes(dims[k], j)
  {
    RangeAt(dims, plain, k);
    var d := dims[k];
    j := if Unsent(d.size, ps) then d.size.v else if Unsent(d.start, ps) then d.start.v
         else if Unsent(d.end, ps) then d.end.v else d.step.v;
  }

  lemma {:induction false} RangeAt(dims: seq<S.Dim>, plain: seq<D.Arg>, k: nat)
    requires (forall m | 0 <= m < |dims| :: DimSized(dims[m])) && k < |dims| && RangesOf(dims, plain).Some?
    ensures RangeOf(dims[k], plain) == Some(RangesOf(dims, plain).value[k])
    decreases k
  {
    var first, others := RangeOf(dims[0], plain).value, RangesOf(dims[1..], plain).value;
    assert RangesOf(dims, plain) == Some([first] + others);
    if k > 0 {
      assert dims[k] == dims[1..][k - 1];
      RangeAt(dims[1..], plain, k - 1);
    }
  }

  /** Main result for interfaces without expressions: the stub finds the client's shapes, whatever it
      holds from earlier calls, if and only if no range takes a scalar that is not sent. */
  lemma SharedIsExact(sp: S.Stub, args: seq<Arg>)
    requires S.StubFits(sp) && WithoutExpressions(sp) && Pointers(sp.params, args)
    requires forall i | 0 <= i < |sp.params| :: Transferred(sp.params[i]) ==> RangesAt(sp, PlainArgs(args), i).Some?
    ensures (forall stale | AlikeArgs(stale, args) :: StubShares(sp, args, stale)) <==> RangesAreSent(sp)
  {
    if RangesAreSent(sp) {
      forall stale | AlikeArgs(stale, args) ensures StubShares(sp, args, stale) {
        forall i | 0 <= i < |sp.params| && Transferred(sp.params[i])
          ensures RangesAt(sp, PlainArgs(Taken(sp.params, args, stale)), i) == RangesAt(sp, PlainArgs(args), i)
        {
          ParamShares(sp, args, stale, i);
        }
      }
    } else {
      var i :| 0 <= i < |sp.params| && Transferred(sp.params[i]) && !OnlySent(sp.params[i], sp.params);
      var stale := ParamParts(sp, args, i);
      assert !StubShares(sp, args, stale);
    }
  }

  /** With expressions the condition suffices. */
  lemma SettledShares(sp: S.Stub, args: seq<Arg>, stale: seq<Arg>)
    requires S.StubFits(sp) && Settled(sp.params) && Pointers(sp.params, args) && Pointers(sp.params, stale)
    ensures StubShares(sp, args, stale)
  {
    var seen, plain := PlainArgs(Taken(sp.params, args, stale)), PlainArgs(args);
    assert Agree(sp.params, seen, plain);
    forall i | 0 <= i < |sp.params| ensures RangesAt(sp, seen, i) == RangesAt(sp, plain, i) {
      StubIsSized(sp, i);
      ShapeAgrees(sp.params[i].dims, sp.params, seen, plain);
    }
  }

  /** Two dimensions given by their sizes, 2 and the argument at 1. */
  lemma {:induction false} RangesHere(dims: seq<S.Dim>, args: seq<D.Arg>, n: int)
    requires |dims| == 2 && DimSized(dims[0]) && DimSized(dims[1]) && |args| == 3 && args[1] == D.IntArg(n)
    requires dims[0].size.t == 1 && dims[0].size.v == 2 && dims[1].size.t == 2 && dims[1].size.v == 1
    requires dims[0].start.t == 0 && dims[0].end.t == 0 && dims[0].step.t == 0
    requires dims[1].start.t == 0 && dims[1].end.t == 0 && dims[1].step.t == 0
    ensures forall k | 0 <= k < |dims| :: DimSized(dims[k])
    ensures RangesOf(dims, args) == Some([Range(2, 0, 2, 1), Range(n, 0, n, 1)])
  {
    assert RangeOf(dims[0], args) == Some(Range(2, 0, 2, 1));
    assert RangeOf(dims[1], args) == Some(Range(n, 0, n, 1));
    var others := dims[1..];
    assert others[0] == dims[1] && others[1..] == [];
    var last: seq<Range> := [Range(n, 0, n, 1)];
    assert last + [] == last && [Range(2, 0, 2, 1)] + last == [Range(2, 0, 2, 1), Range(n, 0, n, 1)];
    assert RangesOf(others[1..], args) == Some([]);
    assert RangesOf(others, args) == Some(last);
  }
}
