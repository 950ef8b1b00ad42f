/** Calls over the MPI back end: scalar and array arguments to the stub, results back, and whole
sessions of requests. */
module MpiCall {
  import opened Wrappers
  import D = DimExpr
  import S = StubInfo
  import opened MpiTags
  import opened Shapes

  // ----- Shapes -----

  /** What ninf_set_array_shape hands to the transfer, innermost dimension first. */
  datatype Shape = Shape(shrink: bool, ranges: seq<Range>)
  {
    /** The ranges the transfer is meant for. */
    predicate Proper() {
      && |ranges| >= 1
      && (forall d | 0 <= d < |ranges| :: 0 <= ranges[d].start <= ranges[d].end && ranges[d].step >= 1)
      && (shrink ==> forall d | 0 <= d < |ranges| :: ranges[d].start < ranges[d].end)
    }

    /** Without `shrink` every range stays within its size. */
    predicate Holds() {
      shrink || forall d | 0 <= d < |ranges| :: ranges[d].end <= ranges[d].size
    }

    function Stride(): int
      requires |ranges| >= 1
    {
      if shrink then 1 else ranges[0].step
    }

    /** Elements of one innermost transfer. */
    function RowLen(): int
      requires Proper()
    {
      if shrink then Product(ranges, |ranges|) else Count(ranges[0])
    }

    /** Innermost transfers, each under a tag of its own. */
    function RowCount(): nat
      requires Proper()
    {
      if shrink then 1 else RowsBelow(ranges, |ranges| - 1)
    }
  }

  function Count(r: Range): int
    requires r.step >= 1
  {
    D.CDiv(r.end - r.start + r.step - 1, r.step)
  }

  function Product(ranges: seq<Range>, d: nat): int
    requires d <= |ranges| && forall k | 0 <= k < |ranges| :: ranges[k].step >= 1
  {
    if d == 0 then 1 else Product(ranges, d - 1) * Count(ranges[d - 1])
  }

  function RowsBelow(ranges: seq<Range>, dim: nat): nat
    requires dim < |ranges| && forall d | 0 <= d < |ranges| :: ranges[d].step >= 1
    decreases dim, 1, 0
  {
    if dim == 0 then 1 else RowsFrom(ranges, dim, ranges[dim].start)
  }

  function RowsFrom(ranges: seq<Range>, dim: nat, i: int): nat
    requires 0 < dim < |ranges| && forall d | 0 <= d < |ranges| :: ranges[d].step >= 1
    decreases dim, 0, ranges[dim].end - i
  {
    if i >= ranges[dim].end then 0
    else RowsBelow(ranges, dim - 1) + RowsFrom(ranges, dim, i + ranges[dim].step)
  }

  // ----- The messages of an array -----

  /** Elements that can be sent: strings of no NUL, or numbers. */
  predicate RowFits(isStr: bool, es: seq<Elem>) {
    forall k | 0 <= k < |es| :: if isStr then es[k].Text? && 0 !in es[k].s else es[k].Num?
  }

  predicate RowsFit(isStr: bool, len: int, rows: seq<seq<Elem>>) {
    forall k | 0 <= k < |rows| :: |rows[k]| == len && RowFits(isStr, rows[k])
  }

  function MTexts(tag: int, es: seq<Elem>, rest: seq<Msg>): seq<Msg>
    requires RowFits(true, es)
    decreases |es|
  {
    if es == [] then rest else MStr(tag, es[0].s, MTexts(tag, es[1..], rest))
  }

  function MSingles(tag: int, es: seq<Elem>, rest: seq<Msg>): seq<Msg>
    decreases |es|
  {
    if es == [] then rest else MOne(tag, Elements([es[0]]), MSingles(tag, es[1..], rest))
  }

  /** ninfm_recv_send_any: all under one tag. */
  function MRow(tag: int, isStr: bool, stride: int, es: seq<Elem>, rest: seq<Msg>): seq<Msg>
    requires RowFits(isStr, es)
  {
    if isStr then MTexts(tag, es, rest)
    else if stride == 0 || stride == 1 then MOne(tag, Elements(es), rest)
    else MSingles(tag, es, rest)
  }

  function MRows(tag: int, isStr: bool, len: int, stride: int, rows: seq<seq<Elem>>, rest: seq<Msg>): seq<Msg>
    requires RowsFit(isStr, len, rows)
    decreases |rows|
  {
    if rows == [] then rest
    else MRow(tag, isStr, stride, rows[0], MRows(tag + 1, isStr, len, stride, rows[1..], rest))
  }

  // ----- Rows, sent and received -----

  method SendRow(me: Mp, to: Mp, tag: int, isStr: bool, stride: int, es: seq<Elem>, ghost rest: seq<Msg>)
    requires me != to && RowFits(isStr, es)
    modifies to`inbox
    ensures to.inbox + rest == old(to.inbox) + MRow(tag, isStr, stride, es, rest)
  {
    ghost var all, left := to.inbox + MRow(tag, isStr, stride, es, rest), es;
    if isStr {
      for i := 0 to |es|
        invariant left == es[i..] && RowFits(true, left) && to.inbox + MTexts(tag, left, rest) == all
      {
        SendStr(me, to, tag, es[i].s, MTexts(tag, left[1..], rest));
        left := left[1..];
      }
    } else if stride == 0 || stride == 1 {
      me.Send(to, tag, Elements(es), rest);
    } else {
      for i := 0 to |es|
        invariant left == es[i..] && to.inbox + MSingles(tag, left, rest) == all
      {
        me.Send(to, tag, Elements([es[i]]), MSingles(tag, left[1..], rest));
        left := left[1..];
      }
    }
  }

  method RecvTexts(me: Mp, tag: int, count: int, ghost es: seq<Elem>, ghost rest: seq<Msg>) returns (r: seq<Elem>)
    requires RowFits(true, es) && |es| == count && me.inbox == MTexts(tag, es, rest)
    modifies me`inbox, me`past
    ensures r == es && me.inbox == rest && me.InStep() == old(me.InStep())
  {
    r := [];
    ghost var left := es;
    for i := 0 to count
      invariant |left| == count - i && RowFits(true, left) && r + left == es
      invariant me.inbox == MTexts(tag, left, rest) && me.InStep() == old(me.InStep())
    {
      var s := RecvStr(me, tag, left[0].s, MTexts(tag, left[1..], rest));
      Shift(r, left);
      r := r + [Text(s)];
      left := left[1..];
    }
    Finished(r, left);
  }

  method RecvSingles(me: Mp, tag: int, count: int, ghost es: seq<Elem>, ghost rest: seq<Msg>) returns (r: seq<Elem>)
    requires |es| == count && me.inbox == MSingles(tag, es, rest)
    modifies me`inbox, me`past
    ensures r == es && me.inbox == rest && me.InStep() == old(me.InStep())
  {
    r := [];
    ghost var left := es;
    for i := 0 to count
      invariant |left| == count - i && r + left == es
      invariant me.inbox == MSingles(tag, left, rest) && me.InStep() == old(me.InStep())
    {
      var d := me.Expect(tag, Elements([left[0]]), MSingles(tag, left[1..], rest));
      Shift(r, left);
      r := r + [d.es[0]];
      left := left[1..];
    }
    Finished(r, left);
  }

  method RecvRow(me: Mp, tag: int, isStr: bool, stride: int, count: int, ghost es: seq<Elem>, ghost rest: seq<Msg>)
    returns (r: seq<Elem>)
    requires RowFits(isStr, es) && |es| == count && me.inbox == MRow(tag, isStr, stride, es, rest)
    modifies me`inbox, me`past
    ensures r == es && me.inbox == rest && me.InStep() == old(me.InStep())
  {
    if isStr {
      r := RecvTexts(me, tag, count, es, rest);
    } else if stride == 0 || stride == 1 {
      var d := me.Expect(tag, Elements(es), rest);
      r := d.es;
    } else {
      r := RecvSingles(me, tag, count, es, rest);
    }
  }

  // ----- ninfm_trans_array_rec -----

  /** The sending direction; the rows from `at` on are those of the transfer still to come. */
  method SendRec(dim: nat, me: Mp, to: Mp, sh: Shape, isStr: bool, rows: seq<seq<Elem>>, at: nat,
                 ghost rest: seq<Msg>) returns (next: nat)
    requires me != to && sh.Proper() && !sh.shrink && dim < |sh.ranges|
    requires RowsFit(isStr, sh.RowLen(), rows) && at + RowsBelow(sh.ranges, dim) <= |rows|
    modifies me`tag, to`inbox
    ensures next == at + RowsBelow(sh.ranges, dim) && me.tag == old(me.tag) + (next - at)
    ensures to.inbox + MRows(me.tag, isStr, sh.RowLen(), sh.Stride(), rows[next..], rest) ==
            old(to.inbox) + MRows(old(me.tag), isStr, sh.RowLen(), sh.Stride(), rows[at..], rest)
    decreases dim
  {
    ghost var len, stride := sh.RowLen(), sh.Stride();
    if dim == 0 {
      assert rows[at..][1..] == rows[at + 1..];
      SendRow(me, to, me.tag, isStr, sh.ranges[0].step, rows[at],
              MRows(me.tag + 1, isStr, len, stride, rows[at + 1..], rest));
      me.tag := me.tag + 1;
      next := at + 1;
    } else {
      next := at;
      var i := sh.ranges[dim].start;
      while i < sh.ranges[dim].end
        invariant next >= at && next + RowsFrom(sh.ranges, dim, i) == at + RowsBelow(sh.ranges, dim)
        invariant me.tag == old(me.tag) + (next - at)
        invariant to.inbox + MRows(me.tag, isStr, len, stride, rows[next..], rest) ==
                  old(to.inbox) + MRows(old(me.tag), isStr, len, stride, rows[at..], rest)
      {
        next := SendRec(dim - 1, me, to, sh, isStr, rows, next, rest);
        i := i + sh.ranges[dim].step;
      }
    }
  }

  /** The receiving direction; `todo` are the rows on their way, `left` those not yet taken. */
  method RecvRec(dim: nat, me: Mp, sh: Shape, isStr: bool, ghost todo: seq<seq<Elem>>, ghost rest: seq<Msg>)
    returns (got: seq<seq<Elem>>, ghost left: seq<seq<Elem>>)
    requires sh.Proper() && !sh.shrink && dim < |sh.ranges|
    requires RowsFit(isStr, sh.RowLen(), todo) && RowsBelow(sh.ranges, dim) <= |todo|
    requires me.inbox == MRows(me.tag, isStr, sh.RowLen(), sh.Stride(), todo, rest)
    modifies me
    ensures |got| == RowsBelow(sh.ranges, dim) && got + left == todo && me.tag == old(me.tag) + |got|
    ensures RowsFit(isStr, sh.RowLen(), left)
    ensures me.inbox == MRows(me.tag, isStr, sh.RowLen(), sh.Stride(), left, rest)
    ensures me.InStep() == old(me.InStep())
    decreases dim
  {
    ghost var len, stride := sh.RowLen(), sh.Stride();
    if dim == 0 {
      var count := Count(sh.ranges[0]);
      left := todo[1..];
      var row := RecvRow(me, me.tag, isStr, sh.ranges[0].step, count, todo[0],
                         MRows(me.tag + 1, isStr, len, stride, left, rest));
      me.tag := me.tag + 1;
      got := [row];
    } else {
      got := [];
      left := todo;
      var i := sh.ranges[dim].start;
      while i < sh.ranges[dim].end
        invariant |got| + RowsFrom(sh.ranges, dim, i) == RowsBelow(sh.ranges, dim)
        invariant got + left == todo && me.tag == old(me.tag) + |got| && RowsFit(isStr, len, left)
        invariant me.inbox == MRows(me.tag, isStr, len, stride, left, rest) && me.InStep() == old(me.InStep())
      {
        ghost var here := left;
        var some;
        some, left := RecvRec(dim - 1, me, sh, isStr, here, rest);
        Regroup(got, some, left);
        got := got + some;
        i := i + sh.ranges[dim].step;
      }
    }
  }

  lemma Regroup<T>(got: seq<T>, some: seq<T>, left: seq<T>)
    ensures (got + some) + left == got + (some + left)
  {
  }

  /** ninfm_send_array. */
  method SendArray(me: Mp, to: Mp, sh: Shape, isStr: bool, rows: seq<seq<Elem>>, ghost rest: seq<Msg>)
    requires me != to && sh.Proper() && RowsFit(isStr, sh.RowLen(), rows) && |rows| == sh.RowCount()
    modifies me`tag, to`inbox
    ensures me.tag == old(me.tag) + |rows|
    ensures to.inbox + rest ==
            old(to.inbox) + MRows(old(me.tag), isStr, sh.RowLen(), sh.Stride(), rows, rest)
  {
    assert rows[0..] == rows && rows[|rows|..] == [];
    if sh.shrink {
      assert rows[1..] == [];
      SendRow(me, to, me.tag, isStr, 1, rows[0], rest);
      me.tag := me.tag + 1;
    } else {
      var _ := SendRec(|sh.ranges| - 1, me, to, sh, isStr, rows, 0, rest);
    }
  }

  /** ninfm_recv_array. */
  method RecvArray(me: Mp, sh: Shape, isStr: bool, ghost rows: seq<seq<Elem>>, ghost rest: seq<Msg>)
    returns (got: seq<seq<Elem>>)
    requires sh.Proper() && RowsFit(isStr, sh.RowLen(), rows) && |rows| == sh.RowCount()
    requires me.inbox == MRows(me.tag, isStr, sh.RowLen(), sh.Stride(), rows, rest)
    modifies me
    ensures got == rows && me.tag == old(me.tag) + |rows| && me.inbox == rest && me.InStep() == old(me.InStep())
  {
    if sh.shrink {
      assert rows[1..] == [] && [rows[0]] == rows;
      var count := Product(sh.ranges, |sh.ranges|);
      var row := RecvRow(me, me.tag, isStr, 1, count, rows[0], rest);
      me.tag := me.tag + 1;
      got := [row];
    } else {
      ghost var left;
      got, left := RecvRec(|sh.ranges| - 1, me, sh, isStr, rows, rest);
      Finished(got, left);
    }
  }

  // ----- Arguments that can be sent -----

  /** The types of arrays whose transfer the two sides agree on: neither unsigned char nor long
      double, and complex numbers and strings without a stride. */
  predicate ArrayType(ty: int, stride: int) {
    2 <= ty <= 17 && ty != 7 && ty != 14 && (ty >= 15 ==> stride <= 1)
  }

  predicate ShapeReady(sp: S.Stub, plain: seq<D.Arg>, i: nat)
    requires S.StubFits(sp) && i < |sp.params|
  {
    var ranges := RangesAt(sp, plain, i);
    ranges.Some? && Shape(sp.shrink != 0, ranges.value).Proper()
  }

  /** ninf_set_array_shape for parameter `i`. */
  function ShapeAt(sp: S.Stub, plain: seq<D.Arg>, i: nat): (sh: Shape)
    requires S.StubFits(sp) && i < |sp.params| && ShapeReady(sp, plain, i)
    ensures sh.Proper()
  {
    Shape(sp.shrink != 0, RangesAt(sp, plain, i).value)
  }

  predicate ArrayFits(sp: S.Stub, plain: seq<D.Arg>, i: nat, a: Arg)
    requires S.StubFits(sp) && i < |sp.params|
  {
    && a.Array? && ShapeReady(sp, plain, i)
    && var sh := ShapeAt(sp, plain, i);
    && sh.Holds() && ArrayType(sp.params[i].paramType, sh.Stride())
    && |a.rows| == sh.RowCount() && RowsFit(IsString(sp.params[i]), sh.RowLen(), a.rows)
  }

  predicate ArraysFit(sp: S.Stub, plain: seq<D.Arg>, args: seq<Arg>, toStub: bool)
    requires S.StubFits(sp)
  {
    |args| == |sp.params| &&
    forall i | 0 <= i < |args| :: Travels(sp.params[i], toStub) ==> ArrayFits(sp, plain, i, args[i])
  }

  // ----- Scalars: one tag for all, one more after each string -----

  function MScalars(ps: seq<S.Param>, args: seq<Arg>, i: nat, t: int, rest: seq<Msg>): seq<Msg>
    requires ScalarsFit(ps, args) && i <= |ps|
    decreases |ps| - i
  {
    if i == |ps| then rest
    else if !IsScalar(ps[i]) then MScalars(ps, args, i + 1, t, rest)
    else if !IsIn(ps[i]) then rest
    else if IsString(ps[i]) then MStr(t, args[i].text, MScalars(ps, args, i + 1, t + 1, rest))
    else MOne(t, One(args[i].value), MScalars(ps, args, i + 1, t, rest))
  }

  /** The tag at the end of the loop. */
  function ScalarTag(ps: seq<S.Param>, i: nat, t: int): int
    requires i <= |ps|
    decreases |ps| - i
  {
    if i == |ps| then t
    else if !IsScalar(ps[i]) then ScalarTag(ps, i + 1, t)
    else if !IsIn(ps[i]) then t
    else ScalarTag(ps, i + 1, if IsString(ps[i]) then t + 1 else t)
  }

  /** ninfm_send_scalar_args. */
  method SendScalars(me: Mp, to: Mp, ps: seq<S.Param>, args: seq<Arg>, ghost rest: seq<Msg>)
    requires me != to && ScalarsFit(ps, args)
    modifies me`tag, to`inbox
    ensures to.inbox + rest == old(to.inbox) + MScalars(ps, args, 0, old(me.tag), rest)
    ensures me.tag == ScalarTag(ps, 0, old(me.tag)) + 1
  {
    var tag, i := me.tag, 0;
    ghost var all := to.inbox + MScalars(ps, args, 0, tag, rest);
    while i < |ps|
      invariant i <= |ps| && ScalarTag(ps, i, tag) == ScalarTag(ps, 0, old(me.tag))
      invariant to.inbox + MScalars(ps, args, i, tag, rest) == all && me.tag == old(me.tag)
    {
      if IsScalar(ps[i]) {
        if !IsIn(ps[i]) {
          break;
        }
        if IsString(ps[i]) {
          SendStr(me, to, tag, args[i].text, MScalars(ps, args, i + 1, tag + 1, rest));
          tag := tag + 1;
        } else {
          me.Send(to, tag, One(args[i].value), MScalars(ps, args, i + 1, tag, rest));
        }
      }
      i := i + 1;
    }
    me.tag := tag + 1;
  }

  /** ninfm_recv_scalar_args. */
  method RecvScalars(me: Mp, ps: seq<S.Param>, stale: seq<Arg>, ghost args: seq<Arg>, ghost rest: seq<Msg>)
    returns (got: seq<Arg>)
    requires ScalarsFit(ps, args) && |stale| == |ps| && me.inbox == MScalars(ps, args, 0, me.tag, rest)
    modifies me
    ensures ScalarsGot(ps, args, stale, got, |ps|)
    ensures me.tag == ScalarTag(ps, 0, old(me.tag)) + 1 && me.inbox == rest && me.InStep() == old(me.InStep())
  {
    got := stale;
    var tag, i := me.tag, 0;
    while i < |ps|
      invariant Open(ps, i) && ScalarTag(ps, i, tag) == ScalarTag(ps, 0, old(me.tag))
      invariant ScalarsGot(ps, args, stale, got, i)
      invariant me.inbox == MScalars(ps, args, i, tag, rest) && me.InStep() == old(me.InStep()) && me.tag == old(me.tag)
    {
      SentHere(ps, i);
      if IsScalar(ps[i]) {
        if !IsIn(ps[i]) {
          forall j | i <= j < |ps| {
            StoppedHere(ps, i, j);
          }
          break;
        }
        if IsString(ps[i]) {
          var text := RecvStr(me, tag, args[i].text, MScalars(ps, args, i + 1, tag + 1, rest));
          got := got[i := Str(text)];
          tag := tag + 1;
        } else {
          var d := me.Expect(tag, One(args[i].value), MScalars(ps, args, i + 1, tag, rest));
          got := got[i := Scalar(d.arg)];
        }
      }
      i := i + 1;
    }
    me.tag := tag + 1;
  }

  // ----- Arrays: one tag for each row -----

  /** The transfer of one parameter: nothing, or rows. */
  datatype Piece = Nothing | Rows(isStr: bool, len: int, stride: int, rows: seq<seq<Elem>>)
  {
    predicate Fits() {
      Rows? ==> RowsFit(isStr, len, rows)
    }
  }

  function PieceOf(sp: S.Stub, plain: seq<D.Arg>, args: seq<Arg>, toStub: bool, i: nat): (p: Piece)
    requires S.StubFits(sp) && ArraysFit(sp, plain, args, toStub) && i < |args|
    ensures p.Fits()
  {
    if !Travels(sp.params[i], toStub) then Nothing
    else
      assert ArrayFits(sp, plain, i, args[i]);
      var sh := ShapeAt(sp, plain, i);
      Rows(IsString(sp.params[i]), sh.RowLen(), sh.Stride(), args[i].rows)
  }

  predicate PiecesFit(ps: seq<Piece>) {
    forall k | 0 <= k < |ps| :: ps[k].Fits()
  }

  function Pieces(sp: S.Stub, plain: seq<D.Arg>, args: seq<Arg>, toStub: bool): (ps: seq<Piece>)
    requires S.StubFits(sp) && ArraysFit(sp, plain, args, toStub)
    ensures |ps| == |args| && PiecesFit(ps)
    ensures forall i | 0 <= i < |ps| :: ps[i] == PieceOf(sp, plain, args, toStub, i)
  {
    seq(|args|, i requires 0 <= i < |args| => PieceOf(sp, plain, args, toStub, i))
  }

  function MPieces(t: int, ps: seq<Piece>, rest: seq<Msg>): seq<Msg>
    requires PiecesFit(ps)
    decreases |ps|
  {
    if ps == [] then rest
    else
      match ps[0]
      case Nothing => MPieces(t, ps[1..], rest)
      case Rows(isStr, len, stride, rows) => MRows(t, isStr, len, stride, rows, MPieces(t + |rows|, ps[1..], rest))
  }

  function PieceTag(t: int, ps: seq<Piece>): int
    decreases |ps|
  {
    if ps == [] then t
    else if ps[0].Nothing? then PieceTag(t, ps[1..])
    else PieceTag(t + |ps[0].rows|, ps[1..])
  }

  /** Both sides find the same piece, each from its own scalars. */
  lemma PieceAgrees(sp: S.Stub, plain: seq<D.Arg>, mine: seq<D.Arg>, args: seq<Arg>, toStub: bool, i: nat)
    requires S.StubFits(sp) && ArraysFit(sp, plain, args, toStub) && i < |args|
    requires Shared(sp, mine, plain)
    ensures Travels(sp.params[i], toStub) ==>
              && ShapeReady(sp, mine, i) && args[i].Array?
              && var sh, rows := ShapeAt(sp, mine, i), args[i].rows;
              && |rows| == sh.RowCount() && RowsFit(IsString(sp.params[i]), sh.RowLen(), rows)
              && PieceOf(sp, plain, args, toStub, i) == Rows(IsString(sp.params[i]), sh.RowLen(), sh.Stride(), rows)
  {
    if Travels(sp.params[i], toStub) {
      assert ArrayFits(sp, plain, i, args[i]);
      SameShape(sp, mine, plain, i);
    }
  }

  lemma ArrayKeepsPlain(got: seq<Arg>, i: nat, a: Arg)
    requires i < |got| && got[i].Array? && a.Array?
    ensures PlainArgs(got[i := a]) == PlainArgs(got)
  {
  }

  /** `ps` begins with the piece that this shape and these rows make. */
  predicate Begins(ps: seq<Piece>, sh: Shape, isStr: bool, rows: seq<seq<Elem>>) {
    && PiecesFit(ps) && ps != [] && sh.Proper()
    && ps[0] == Rows(isStr, sh.RowLen(), sh.Stride(), rows) && |rows| == sh.RowCount()
  }

  method SendPiece(me: Mp, to: Mp, sh: Shape, isStr: bool, rows: seq<seq<Elem>>,
                   ghost ps: seq<Piece>, ghost rest: seq<Msg>)
    requires me != to && Begins(ps, sh, isStr, rows)
    modifies me`tag, to`inbox
    ensures to.inbox + MPieces(me.tag, ps[1..], rest) == old(to.inbox) + MPieces(old(me.tag), ps, rest)
    ensures PieceTag(me.tag, ps[1..]) == PieceTag(old(me.tag), ps)
  {
    assert ps[0].Fits();
    SendArray(me, to, sh, isStr, rows, MPieces(me.tag + |rows|, ps[1..], rest));
  }

  method RecvPiece(me: Mp, sh: Shape, isStr: bool, ghost rows: seq<seq<Elem>>,
                   ghost ps: seq<Piece>, ghost rest: seq<Msg>) returns (got: seq<seq<Elem>>)
    requires Begins(ps, sh, isStr, rows) && me.inbox == MPieces(me.tag, ps, rest)
    modifies me
    ensures got == rows && me.inbox == MPieces(me.tag, ps[1..], rest) && me.InStep() == old(me.InStep())
    ensures PieceTag(me.tag, ps[1..]) == PieceTag(old(me.tag), ps)
  {
    assert ps[0].Fits();
    got := RecvArray(me, sh, isStr, rows, MPieces(me.tag + |rows|, ps[1..], rest));
  }

  lemma SkipPiece(t: int, ps: seq<Piece>, rest: seq<Msg>)
    requires PiecesFit(ps) && ps != [] && ps[0].Nothing?
    ensures PiecesFit(ps[1..]) && MPieces(t, ps, rest) == MPieces(t, ps[1..], rest)
    ensures PieceTag(t, ps) == PieceTag(t, ps[1..])
  {
  }

  lemma RestFits(ps: seq<Piece>)
    requires PiecesFit(ps) && ps != []
    ensures PiecesFit(ps[1..])
  {
  }

  /** The loop over the arrays of omrpcm_call_send_args and omrpc_stub_END. */
  method SendArrays(me: Mp, to: Mp, sp: S.Stub, args: seq<Arg>, toStub: bool,
                    ghost plain: seq<D.Arg>, ghost rest: seq<Msg>)
    requires me != to && S.StubFits(sp) && ArraysFit(sp, plain, args, toStub)
    requires Shared(sp, PlainArgs(args), plain)
    modifies me`tag, to`inbox
    ensures to.inbox + rest ==
            old(to.inbox) + MPieces(old(me.tag), Pieces(sp, plain, args, toStub), rest)
    ensures me.tag == PieceTag(old(me.tag), Pieces(sp, plain, args, toStub))
  {
    ghost var left := Pieces(sp, plain, args, toStub);
    ghost var all, last := to.inbox + MPieces(me.tag, left, rest), PieceTag(me.tag, left);
    for i := 0 to |args|
      invariant left == Pieces(sp, plain, args, toStub)[i..] && PiecesFit(left)
      invariant to.inbox + MPieces(me.tag, left, rest) == all && PieceTag(me.tag, left) == last
    {
      PieceAgrees(sp, plain, PlainArgs(args), args, toStub, i);
      assert left[0] == PieceOf(sp, plain, args, toStub, i);
      RestFits(left);
      if Travels(sp.params[i], toStub) {
        var sh := ShapeAt(sp, PlainArgs(args), i);
        SendPiece(me, to, sh, IsString(sp.params[i]), args[i].rows, left, rest);
      } else {
        SkipPiece(me.tag, left, rest);
      }
      left := left[1..];
    }
  }

  lemma SameShape(sp: S.Stub, mine: seq<D.Arg>, other: seq<D.Arg>, i: nat)
    requires S.StubFits(sp) && i < |sp.params| && ShapeReady(sp, other, i) && Transferred(sp.params[i])
    requires Shared(sp, mine, other)
    ensures ShapeReady(sp, mine, i) && ShapeAt(sp, mine, i) == ShapeAt(sp, other, i)
  {
  }

  /** `got` holds the arrays that travelled below `i`, and elsewhere what was there before. */
  predicate ArraysGot(sp: S.Stub, args: seq<Arg>, start: seq<Arg>, got: seq<Arg>, toStub: bool, i: nat) {
    && |got| == |start| == |args| == |sp.params|
    && forall j | 0 <= j < |got| :: got[j] == if j < i && Travels(sp.params[j], toStub) then args[j] else start[j]
  }

  lemma GotArray(sp: S.Stub, args: seq<Arg>, start: seq<Arg>, got: seq<Arg>, toStub: bool, i: nat)
    requires ArraysGot(sp, args, start, got, toStub, i) && i < |got| && Travels(sp.params[i], toStub)
    ensures ArraysGot(sp, args, start, got[i := args[i]], toStub, i + 1)
  {
  }

  lemma GotNothing(sp: S.Stub, args: seq<Arg>, start: seq<Arg>, got: seq<Arg>, toStub: bool, i: nat)
    requires ArraysGot(sp, args, start, got, toStub, i) && i < |got| && !Travels(sp.params[i], toStub)
    ensures ArraysGot(sp, args, start, got, toStub, i + 1)
  {
  }

  /** The loop over the arrays of omrpc_stub_REQ and omrpcm_call_recv_args.  The shapes come
      from the receiver's own scalars. */
  method RecvArrays(me: Mp, sp: S.Stub, start: seq<Arg>, toStub: bool,
                    ghost args: seq<Arg>, ghost plain: seq<D.Arg>, ghost rest: seq<Msg>) returns (got: seq<Arg>)
    requires S.StubFits(sp) && ArraysFit(sp, plain, args, toStub) 
    requires Shared(sp, PlainArgs(start), plain) && Pointers(sp.params, start)
    requires me.inbox == MPieces(me.tag, Pieces(sp, plain, args, toStub), rest)
    modifies me
    ensures ArraysGot(sp, args, start, got, toStub, |args|)
    ensures me.inbox == rest && me.InStep() == old(me.InStep())
    ensures me.tag == PieceTag(old(me.tag), Pieces(sp, plain, args, toStub))
  {
    got := start;
    ghost var left := Pieces(sp, plain, args, toStub);
    ghost var last := PieceTag(me.tag, left);
    for i := 0 to |start|
      invariant ArraysGot(sp, args, start, got, toStub, i) && PlainArgs(got) == PlainArgs(start)
      invariant left == Pieces(sp, plain, args, toStub)[i..] && PiecesFit(left) && PieceTag(me.tag, left) == last
      invariant me.inbox == MPieces(me.tag, left, rest) && me.InStep() == old(me.InStep())
    {
      PieceAgrees(sp, plain, PlainArgs(got), args, toStub, i);
      assert left[0] == PieceOf(sp, plain, args, toStub, i);
      RestFits(left);
      if !Travels(sp.params[i], toStub) {
        SkipPiece(me.tag, left, rest);
        GotNothing(sp, args, start, got, toStub, i);
      } else {
        var sh := ShapeAt(sp, PlainArgs(got), i);
        var rows := RecvPiece(me, sh, IsString(sp.params[i]), args[i].rows, left, rest);
        ArrayKeepsPlain(got, i, Array(rows));
        GotArray(sp, args, start, got, toStub, i);
        got := got[i := Array(rows)];
      }
      left := left[1..];
    }
  }

  // ----- Requests -----

  predicate IsTable(table: seq<S.Stub>) {
    forall k | 0 <= k < |table| :: S.StubFits(table[k]) && table[k].index == k
  }

  /** The first entry of that name, or the size of the table. */
  function Find(table: seq<S.Stub>, name: seq<byte>): (i: nat)
    ensures i <= |table|
    ensures i < |table| ==> table[i].entryName == name
  {
    if table == [] || table[0].entryName == name then 0 else 1 + Find(table[1..], name)
  }

  /** What a call needs: arguments of the declared kinds, arrays of the shapes that the client's
      scalars give. */
  predicate CallFits(sp: S.Stub, args: seq<Arg>) {
    && S.StubFits(sp) && ScalarsFit(sp.params, args) && Pointers(sp.params, args)
    && ArraysFit(sp, PlainArgs(args), args, true)
  }

  lemma TwoRows(tag: int, len: int, rows: seq<seq<Elem>>, rest: seq<Msg>)
    requires |rows| == 2 && RowsFit(false, len, rows)
    ensures MRows(tag, false, len, 1, rows, rest) == [Msg(tag, Elements(rows[0])), Msg(tag + 1, Elements(rows[1]))] + rest
  {
    assert rows[1..] == [rows[1]] && rows[1..][1..] == [];
    assert MRows(tag + 1, false, len, 1, rows[1..], rest) == [Msg(tag + 1, Elements(rows[1]))] + rest;
  }

  /** The messages of a call of an array and a number: the command's index, the number under the tag after it,
      then the rows of the array from the tag after that. */
  lemma CallMessages(t: int, sp: S.Stub, args: seq<Arg>, len: int, stride: int, rows: seq<seq<Elem>>)
    requires CallFits(sp, args) && |sp.params| == |args| == 2
    requires !IsScalar(sp.params[0]) && IsScalar(sp.params[1]) && IsIn(sp.params[1]) && !IsString(sp.params[1])
    requires Pieces(sp, PlainArgs(args), args, true)[0] == Rows(false, len, stride, rows)
    requires stride == 1 && |rows| == 2
    ensures MCall(t, sp, args) ==
            [Msg(t, Ints([sp.index])), Msg(t + 1, One(args[1].value)),
             Msg(t + 2, Elements(rows[0])), Msg(t + 3, Elements(rows[1]))]
  {
    var pieces := Pieces(sp, PlainArgs(args), args, true);
    assert pieces[1] == Nothing;
    assert pieces[1..] == [Nothing] && [Nothing][1..] == [];
    assert MPieces(t + 4, pieces[1..], []) == [];
    var all := MPieces(t + 2, pieces, []);
    assert MPieces(t + 4, [Nothing], []) == MPieces(t + 4, [], []);
    TwoRows(t + 2, len, rows, []);
    assert all == [Msg(t + 2, Elements(rows[0])), Msg(t + 3, Elements(rows[1]))];
    assert ScalarTag(sp.params, 1, t + 1) == ScalarTag(sp.params, 2, t + 1) == t + 1;
    assert MScalars(sp.params, args, 2, t + 1, all) == all;
    assert MScalars(sp.params, args, 1, t + 1, all) == [Msg(t + 1, One(args[1].value))] + all;
    assert MCall(t, sp, args) == MOne(t, Ints([sp.index]), MScalars(sp.params, args, 0, t + 1, all));
  }

  function MCall(t: int, sp: S.Stub, args: seq<Arg>): seq<Msg>
    requires CallFits(sp, args)
  {
    MOne(t, Ints([sp.index]),
      MScalars(sp.params, args, 0, t + 1,
        MPieces(ScalarTag(sp.params, 0, t + 1) + 1, Pieces(sp, PlainArgs(args), args, true), [])))
  }

  /** The stub's side of a call, from the command it has read to the return of omrpc_stub_REQ.
      `stale` are the arguments of earlier calls. */
  method StubRecvCall(stub: Mp, table: seq<S.Stub>, stale: seq<Arg>, ghost sp: S.Stub, ghost args: seq<Arg>)
    returns (index: int, got: seq<Arg>)
    requires IsTable(table) && 0 <= sp.index < |table| && sp == table[sp.index]
    requires CallFits(sp, args) && StubShares(sp, args, stale) && stub.inbox == MCall(stub.tag, sp, args)
    modifies stub
    ensures index == sp.index && stub.inbox == [] && stub.InStep() == old(stub.InStep())
    ensures stub.tag == CallTag(old(stub.tag), sp, args)
    ensures ArgsSeen(sp, args, stale, got)
  {
    ghost var plain := PlainArgs(args);
    ghost var t := stub.tag + 1;
    ghost var arrays := MPieces(ScalarTag(sp.params, 0, t) + 1, Pieces(sp, plain, args, true), []);
    var d := RecvNext(stub, Ints([sp.index]), MScalars(sp.params, args, 0, t, arrays));
    index := d.vs[0];
    var info := table[index];
    var scalars := RecvScalars(stub, info.params, stale, args, arrays);
    ScalarsAreTaken(info.params, args, stale, scalars);
    got := RecvArrays(stub, info, scalars, true, args, plain, []);
  }

  function CallTag(t: int, sp: S.Stub, args: seq<Arg>): int
    requires CallFits(sp, args)
  {
    PieceTag(ScalarTag(sp.params, 0, t + 1) + 1, Pieces(sp, PlainArgs(args), args, true))
  }

  /** The stub sees the client's sent scalars and IN arrays. */
  predicate ArgsSeen(sp: S.Stub, args: seq<Arg>, stale: seq<Arg>, got: seq<Arg>) {
    && |got| == |args| == |stale| == |sp.params|
    && forall j | 0 <= j < |got| ::
      got[j] == if IsSent(sp.params, j) || Travels(sp.params[j], true) then args[j] else stale[j]
  }

  // ----- A whole call -----

  /** Between exchanges: equal tags, nothing under way, every receive in step. */
  ghost predicate Synchronized(client: Mp, stub: Mp)
    reads client, stub
  {
    && client != stub && client.tag == stub.tag && client.inbox == [] && stub.inbox == []
    && client.InStep() && stub.InStep()
  }

  /** omrpcm_call_send_args. */
  method CallSendArgs(client: Mp, stub: Mp, sp: S.Stub, args: seq<Arg>)
    requires client != stub && stub.inbox == [] && CallFits(sp, args)
    modifies client`tag, stub`inbox
    ensures stub.inbox == MOne(old(client.tag), Ints([OMRPC_REQ_CALL]), MCall(old(client.tag) + 1, sp, args))
    ensures client.tag == CallTag(old(client.tag) + 1, sp, args)
  {
    ghost var plain := PlainArgs(args);
    ghost var t := client.tag + 1;
    ghost var arrays := MPieces(ScalarTag(sp.params, 0, t + 1) + 1, Pieces(sp, plain, args, true), []);
    SendNext(client, stub, Ints([OMRPC_REQ_CALL]), MCall(t, sp, args));
    SendNext(client, stub, Ints([sp.index]), MScalars(sp.params, args, 0, t + 1, arrays));
    SendScalars(client, stub, sp.params, args, arrays);
    SendArrays(client, stub, sp, args, true, plain, []);
    Nil(stub.inbox);
    Nil(MOne(t - 1, Ints([OMRPC_REQ_CALL]), MCall(t, sp, args)));
  }

  function MResults(t: int, sp: S.Stub, plain: seq<D.Arg>, results: seq<Arg>): seq<Msg>
    requires S.StubFits(sp) && ArraysFit(sp, plain, results, false)
  {
    MOne(OMRPC_END_STUB_TAG, Ints([S.OMRPC_ACK_OK]), MPieces(t, Pieces(sp, plain, results, false), []))
  }

  /** omrpc_stub_END: the acknowledgement has a tag of its own that is not counted. */
  method StubEnd(stub: Mp, client: Mp, sp: S.Stub, results: seq<Arg>, ghost plain: seq<D.Arg>)
    requires client != stub && client.inbox == [] && S.StubFits(sp) && ArraysFit(sp, plain, results, false)
    requires Shared(sp, PlainArgs(results), plain)
    modifies stub`tag, client`inbox
    ensures client.inbox == MResults(old(stub.tag), sp, plain, results)
    ensures stub.tag == PieceTag(old(stub.tag), Pieces(sp, plain, results, false))
  {
    ghost var t := stub.tag;
    stub.Send(client, OMRPC_END_STUB_TAG, Ints([S.OMRPC_ACK_OK]), MPieces(t, Pieces(sp, plain, results, false), []));
    SendArrays(stub, client, sp, results, false, plain, []);
    Nil(client.inbox);
    Nil(MResults(t, sp, plain, results));
  }

  /** omrpcm_call_recv_args. */
  method CallRecvArgs(client: Mp, sp: S.Stub, args: seq<Arg>, ghost results: seq<Arg>) returns (back: seq<Arg>)
    requires S.StubFits(sp) && Pointers(sp.params, args)
    requires ArraysFit(sp, PlainArgs(args), results, false)
    requires client.inbox == MResults(client.tag, sp, PlainArgs(args), results)
    modifies client
    ensures ArraysGot(sp, results, args, back, false, |args|)
    ensures client.inbox == [] && client.InStep() == old(client.InStep())
    ensures client.tag == PieceTag(old(client.tag), Pieces(sp, PlainArgs(args), results, false))
  {
    ghost var plain := PlainArgs(args);
    var ack := client.Expect(OMRPC_END_STUB_TAG, Ints([S.OMRPC_ACK_OK]),
                             MPieces(client.tag, Pieces(sp, plain, results, false), []));
    back := RecvArrays(client, sp, args, false, results, plain, []);
  }

  /** The stub's arguments once the worker has filled the OUT arrays. */
  function WithResults(sp: S.Stub, got: seq<Arg>, results: seq<Arg>): (r: seq<Arg>)
    requires |got| == |results| == |sp.params|
    ensures |r| == |got|
  {
    seq(|got|, i requires 0 <= i < |got| => if Travels(sp.params[i], false) then results[i] else got[i])
  }

  lemma ResultsFit(sp: S.Stub, args: seq<Arg>, stale: seq<Arg>, got: seq<Arg>, results: seq<Arg>)
    requires CallFits(sp, args) && StubShares(sp, args, stale)
    requires ArgsSeen(sp, args, stale, got) && ArraysFit(sp, PlainArgs(args), results, false)
    ensures var all := WithResults(sp, got, results);
            ArraysFit(sp, PlainArgs(args), all, false) && Shared(sp, PlainArgs(all), PlainArgs(args))
  {
    var all := WithResults(sp, got, results);
    forall i | 0 <= i < |all| ensures Travels(sp.params[i], false) ==> ArrayFits(sp, PlainArgs(args), i, all[i]) {
    }
    forall j | 0 <= j < |all| ensures PlainArgs(all)[j] == PlainArgs(Taken(sp.params, args, stale))[j] {
      assert Travels(sp.params[j], false) ==> ArrayFits(sp, PlainArgs(args), j, results[j]);
    }
    assert PlainArgs(all) == PlainArgs(Taken(sp.params, args, stale));
  }

  /** An array by the mode of its parameter, at the stub and back at the client: IN (1), OUT (2) and
      INOUT (3). */
  predicate ByMode(p: S.Param, arg: Arg, stale: Arg, result: Arg, seen: Arg, back: Arg) {
    |p.dims| > 0 ==>
      && (p.inout == 1 ==> seen == arg && back == arg)
      && (p.inout == 2 ==> seen == stale && back == result)
      && (p.inout == 3 ==> seen == arg && back == result)
  }

  lemma ModesOfCall(sp: S.Stub, args: seq<Arg>, stale: seq<Arg>, results: seq<Arg>, seen: seq<Arg>, back: seq<Arg>)
    requires ArgsSeen(sp, args, stale, seen) && ArraysGot(sp, results, args, back, false, |args|)
    ensures ScalarsByMode(sp.params, args, stale, seen)
    ensures forall i | 0 <= i < |args| :: ByMode(sp.params[i], args[i], stale[i], results[i], seen[i], back[i])
  {
    forall j: nat | j < |args| && |sp.params[j].dims| == 0 {
      SentByMode(sp.params, j);
    }
  }

  /** One call, both sides: the stub sees the sent scalars and the IN arrays, the client gets
      the OUT arrays, and the tags are equal again. */
  method Call(client: Mp, stub: Mp, table: seq<S.Stub>, sp: S.Stub, args: seq<Arg>, stale: seq<Arg>, results: seq<Arg>)
    returns (seen: seq<Arg>, back: seq<Arg>)
    requires Synchronized(client, stub) && IsTable(table) && 0 <= sp.index < |table| && sp == table[sp.index]
    requires CallFits(sp, args) && StubShares(sp, args, stale) && ArraysFit(sp, PlainArgs(args), results, false)
    modifies client, stub
    ensures Synchronized(client, stub)
    ensures ArgsSeen(sp, args, stale, seen)
    ensures ArraysGot(sp, results, args, back, false, |args|)
    ensures ScalarsByMode(sp.params, args, stale, seen)
    ensures forall i | 0 <= i < |args| :: ByMode(sp.params[i], args[i], stale[i], results[i], seen[i], back[i])
  {
    ghost var t := client.tag;
    CallSendArgs(client, stub, sp, args);
    var request := RecvNext(stub, Ints([OMRPC_REQ_CALL]), MCall(t + 1, sp, args));
    var index;
    index, seen := StubRecvCall(stub, table, stale, sp, args);
    ResultsFit(sp, args, stale, seen, results);
    var all := WithResults(sp, seen, results);
    StubEnd(stub, client, table[index], all, PlainArgs(args));
    back := CallRecvArgs(client, sp, args, all);
    GotResults(sp, args, seen, results, back);
    ModesOfCall(sp, args, stale, results, seen, back);
  }

  lemma GotResults(sp: S.Stub, args: seq<Arg>, seen: seq<Arg>, results: seq<Arg>, back: seq<Arg>)
    requires |seen| == |results| == |sp.params|
    requires ArraysGot(sp, WithResults(sp, seen, results), args, back, false, |args|)
    ensures ArraysGot(sp, results, args, back, false, |args|)
  {
  }

  // ----- Asking for an interface -----

  function MAnswer(t: int, found: Option<S.Stub>): seq<Msg> {
    match found
    case None => MOne(t, Ints([S.OMRPC_ACK_NG]), [])
    case Some(sp) => MOne(t, Ints([S.OMRPC_ACK_OK]), MStub(t + 1, sp, []))
  }

  /** The OMRPC_REQ_STUB_INFO case of omrpc_stub_REQ. */
  method StubAnswer(stub: Mp, client: Mp, table: seq<S.Stub>, ghost name: seq<byte>)
    returns (ghost found: Option<S.Stub>)
    requires client != stub && client.inbox == [] && 0 !in name && stub.inbox == MStr(stub.tag, name, [])
    modifies stub, client`inbox
    ensures stub.inbox == [] && stub.InStep() == old(stub.InStep())
    ensures found == if Find(table, name) < |table| then Some(table[Find(table, name)]) else None
    ensures client.inbox == MAnswer(old(stub.tag) + 1, found)
    ensures stub.tag == old(stub.tag) + if found.Some? then 13 else 2
  {
    ghost var t := stub.tag + 1;
    var asked := RecvStr(stub, stub.tag, name, []);
    stub.tag := stub.tag + 1;
    var i := Find(table, asked);
    if i == |table| {
      found := None;
      SendNext(stub, client, Ints([S.OMRPC_ACK_NG]), []);
    } else {
      found := Some(table[i]);
      SendNext(stub, client, Ints([S.OMRPC_ACK_OK]), MStub(t + 1, table[i], []));
      SendStubBody(stub, client, table[i], []);
    }
    Nil(client.inbox);
    Nil(MAnswer(t, found));
  }

  /** omrpcm_recv_stub_info. */
  method RecvStubInfo(client: Mp, ghost found: Option<S.Stub>) returns (r: Option<S.Stub>)
    requires (found.Some? ==> S.StubFits(found.value)) && client.inbox == MAnswer(client.tag, found)
    modifies client
    ensures r == found && client.inbox == [] && client.InStep() == old(client.InStep())
    ensures client.tag == old(client.tag) + if found.Some? then 12 else 1
  {
    ghost var body := if found.Some? then MStub(client.tag + 1, found.value, []) else [];
    var ack := RecvNext(client, if found.Some? then Ints([S.OMRPC_ACK_OK]) else Ints([S.OMRPC_ACK_NG]), body);
    if ack.vs[0] != S.OMRPC_ACK_OK {
      return None;
    }
    var sp := RecvStubBody(client, if found.Some? then found.value else NoStub(), []);
    r := Some(sp);
  }

  ghost function NoStub(): S.Stub {
    S.Stub(0, 0, 0, [], [], 0, 0, 0, [])
  }

  /** A whole request for an interface: the entry of that name arrives, or the refusal. */
  method AskInfo(client: Mp, stub: Mp, table: seq<S.Stub>, name: seq<byte>) returns (r: Option<S.Stub>)
    requires Synchronized(client, stub) && IsTable(table) && 0 !in name
    modifies client, stub
    ensures Synchronized(client, stub)
    ensures r == if Find(table, name) < |table| then Some(table[Find(table, name)]) else None
  {
    ghost var t := client.tag;
    ReqStubInfo(client, stub, name, []);
    Nil(stub.inbox);
    Nil(MOne(t, Ints([OMRPC_REQ_STUB_INFO]), MStr(t + 1, name, [])));
    var request := RecvNext(stub, Ints([OMRPC_REQ_STUB_INFO]), MStr(t + 1, name, []));
    ghost var found := StubAnswer(stub, client, table, name);
    r := RecvStubInfo(client, found);
  }

  // ----- Sessions -----

  datatype Op = Ask(name: seq<byte>) | Invoke(sp: S.Stub, args: seq<Arg>, stale: seq<Arg>, results: seq<Arg>)
  {
    /** Names are C strings; calls use an entry of the table. */
    predicate Fits(table: seq<S.Stub>) {
      match this
      case Ask(name) => 0 !in name
      case Invoke(sp, args, stale, results) =>
        && 0 <= sp.index < |table| && sp == table[sp.index]
        && CallFits(sp, args) && StubShares(sp, args, stale) && ArraysFit(sp, PlainArgs(args), results, false)
    }
  }

  /** Whenever its messages are sent and its receives are tried, the endpoint receives in order what
      was sent to it. */
  ghost predicate AnySchedule(me: Mp)
    reads me
  {
    forall schedule :: Receives([], me.Sent(), me.past.asked, schedule) <= me.Sent()
  }

  lemma InStepOnAnySchedule(me: Mp)
    requires me.InStep() && me.inbox == []
    ensures AnySchedule(me)
  {
    forall schedule ensures Receives([], me.Sent(), me.past.asked, schedule) <= me.Sent() {
      NothingWaits(me.Sent(), me.past, schedule);
    }
  }

  lemma NothingWaits(sent: seq<Msg>, past: Past, schedule: seq<bool>)
    requires past.inStep && past.taken == sent
    ensures Receives([], sent, past.asked, schedule) <= sent
  {
    assert [] + sent == sent;
    KthGetsKth([], sent, schedule);
  }

  /** From the spawn on, over any sequence of requests: each receive takes the first message of
      its channel, and the tags are equal after each request.  Client and stub take turns here; in
      any other order of sends and receives each gets the same messages. */
  method Session(table: seq<S.Stub>, ops: seq<Op>, hello: seq<int>) returns (client: Mp, stub: Mp)
    requires IsTable(table) && forall k | 0 <= k < |ops| :: ops[k].Fits(table)
    ensures Synchronized(client, stub) && AnySchedule(client) && AnySchedule(stub)
  {
    client := new Mp();
    stub := new Mp();
    // omrpc_stub_INIT and omrpcm_invoke_rpc: the stub's magic and version, under tag 0
    SendNext(stub, client, Ints(hello), []);
    Nil(client.inbox);
    Nil(MOne(0, Ints(hello), []));
    var magic := RecvNext(client, Ints(hello), []);
    for i := 0 to |ops|
      invariant Synchronized(client, stub)
    {
      assert ops[i].Fits(table);
      match ops[i]
      case Ask(name) =>
        var info := AskInfo(client, stub, table, name);
      case Invoke(sp, args, stale, results) =>
        var seen, back := Call(client, stub, table, sp, args, stale, results);
    }
    InStepOnAnySchedule(client);
    InStepOnAnySchedule(stub);
  }
}
