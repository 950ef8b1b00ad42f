/** The shapes of a call over the MPI back end: how many elements and messages they stand for, and
when client and stub, each from its own scalars, find the same ones. */
module MpiShapes {
  import opened Wrappers
  import A = ArrayTransfer
  import D = DimExpr
  import S = StubInfo
  import opened MpiTags
  import opened MpiCall
  import opened Shapes

  // ----- What a shape counts -----

  /** The indices that one dimension selects. */
  function Chosen(r: Range): nat
    requires r.step >= 1
  {
    |A.Selected(r.start, r.end, r.step)|
  }

  /** The rows that dimensions 1 to `dim` select. */
  function RowsChosen(ranges: seq<Range>, dim: nat): nat
    requires dim < |ranges| && forall d | 0 <= d < |ranges| :: ranges[d].step >= 1
  {
    if dim == 0 then 1 else Chosen(ranges[dim]) * RowsChosen(ranges, dim - 1)
  }

  lemma CountIsChosen(r: Range)
    requires 0 <= r.start <= r.end && r.step >= 1
    ensures Count(r) == Chosen(r)
  {
    if r.start < r.end {
      A.RisingCount(r.start, r.end, r.step);
    } else {
      A.QuotientIs(r.step - 1, r.step, 0, r.step - 1);
    }
  }

  lemma {:induction false} RowsAreChosen(ranges: seq<Range>, dim: nat)
    requires dim < |ranges| && forall d | 0 <= d < |ranges| :: ranges[d].step >= 1
    ensures RowsBelow(ranges, dim) == RowsChosen(ranges, dim)
    decreases dim, 1, 0
  {
    if dim > 0 {
      RowsFromAreChosen(ranges, dim, ranges[dim].start);
    }
  }

  lemma {:induction false} RowsFromAreChosen(ranges: seq<Range>, dim: nat, i: int)
    requires 0 < dim < |ranges| && forall d | 0 <= d < |ranges| :: ranges[d].step >= 1
    ensures RowsFrom(ranges, dim, i) == |A.Selected(i, ranges[dim].end, ranges[dim].step)| * RowsChosen(ranges, dim - 1)
    decreases dim, 0, ranges[dim].end - i
  {
    var r, below := ranges[dim], RowsChosen(ranges, dim - 1);
    if i < r.end {
      RowsAreChosen(ranges, dim - 1);
      RowsFromAreChosen(ranges, dim, i + r.step);
      A.OneMore(|A.Selected(i + r.step, r.end, r.step)|, below);
    }
  }

  ghost predicate SameRanges(sh: Shape, ap: A.Shape) {
    && A.WellFormed(ap) && |ap.dims| == |sh.ranges|
    && forall d | 0 <= d < |sh.ranges| ::
         var r, s := sh.ranges[d], ap.dims[d]; r.start == s.start && r.end == s.end && r.step == s.step
  }

  lemma {:induction false} ProductIsPicked(sh: Shape, ap: A.Shape, d: nat)
    requires sh.Proper() && SameRanges(sh, ap) && d < |sh.ranges|
    ensures Product(sh.ranges, d + 1) == A.Picked(ap, d) == Chosen(sh.ranges[0]) * RowsChosen(sh.ranges, d)
  {
    CountIsChosen(sh.ranges[d]);
    if d == 0 {
      assert Product(sh.ranges, 1) == Product(sh.ranges, 0) * Count(sh.ranges[0]);
    } else {
      ProductIsPicked(sh, ap, d - 1);
      var n, first, below := Chosen(sh.ranges[d]), Chosen(sh.ranges[0]), RowsChosen(sh.ranges, d - 1);
      A.Swapped(Product(sh.ranges, d), n);
      Reordered(n, first, below);
    }
  }

  lemma Reordered(n: int, first: int, below: int)
    ensures n * (first * below) == first * (n * below)
  {
  }

  /** The rows of a call, packed or not, hold as many elements as the transfer over a stream visits in
      the array that the shape stands for. */
  lemma ShapeVisits(sh: Shape, elemSize: int, base: int)
    requires sh.Proper() && elemSize >= 1 && forall d | 0 <= d < |sh.ranges| :: DimOf(sh.ranges[d]).Proper()
    ensures var ap := Layout(sh.ranges, sh.shrink, elemSize);
            A.WellFormed(ap) && sh.RowLen() * sh.RowCount() == |A.Touched(ap, |ap.dims| - 1, base)|
  {
    var ap, last := Layout(sh.ranges, sh.shrink, elemSize), |sh.ranges| - 1;
    A.ProperShape(DimsOf(sh.ranges), ap);
    ProductIsPicked(sh, ap, last);
    A.TouchedCount(ap, last, base);
    if !sh.shrink {
      CountIsChosen(sh.ranges[0]);
      RowsAreChosen(sh.ranges, last);
    }
  }

  // ----- When they count the same messages -----

  /** The end of a range is the size when it is left out. */
  function EndOf(d: S.Dim): S.Value { if d.end.t == D.VALUE_NONE then d.size else d.end }

  /** Arrays declared without starts and steps, as `a[n][m]`. */
  predicate SizesOnly(dims: seq<S.Dim>) {
    AllDirect(dims) && forall k | 0 <= k < |dims| :: dims[k].start.t == D.VALUE_NONE && dims[k].step.t == D.VALUE_NONE
  }

  function Zero(a: D.Arg): (z: D.Arg)
    ensures Alike(a, z) && (!a.OtherArg? ==> D.ArgValue([z], 0) == D.Value(0))
  {
    match a
    case IntArg(_) => D.IntArg(0)
    case FloatArg(_) => D.FloatArg(0.0)
    case OtherArg => D.OtherArg
  }

  lemma SizeVanishes(x: S.Value, args: seq<D.Arg>, j: nat)
    requires |x.types| == |x.vals| && x.t != D.VALUE_BY_EXPR
    requires j < |args| && !args[j].OtherArg? && GetValue(x, args, 0).Value?
    ensures GetValue(x, args[j := Zero(args[j])], 0) == if Takes(x, j) then D.Value(0) else GetValue(x, args, 0)
  {
    assert D.ArgValue([Zero(args[j])], 0) == D.ArgValue(args[j := Zero(args[j])], j);
  }

  predicate Vanishes(r: Range, s: Range, takes: bool) {
    r.start == 0 && r.step == 1 && r.end == if takes then 0 else s.end
  }

  lemma {:induction false} SizesVanish(dims: seq<S.Dim>, args: seq<D.Arg>, j: nat, k: nat)
    requires SizesOnly(dims) && j < |args| && !args[j].OtherArg? && RangesOf(dims, args).Some? && k < |dims|
    ensures var other := RangesOf(dims, args[j := Zero(args[j])]);
            other.Some? && Vanishes(other.value[k], RangesOf(dims, args).value[k], Takes(EndOf(dims[k]), j))
    decreases |dims|
  {
    var d, other := dims[0], args[j := Zero(args[j])];
    SizeVanishes(d.size, args, j);
    SizeVanishes(d.end, args, j);
    assert RangeOf(d, other).Some? && Vanishes(RangeOf(d, other).value, RangeOf(d, args).value, Takes(EndOf(d), j));
    if |dims| == 1 {
      assert RangesOf(dims[1..], other) == Some([]);
    } else {
      SizesVanish(dims[1..], args, j, if k > 0 then k - 1 else 0);
    }
    RangeAt(dims, other, k);
    RangeAt(dims, args, k);
    if k > 0 {
      assert dims[k] == dims[1..][k - 1];
      RangeAt(dims[1..], other, k - 1);
      RangeAt(dims[1..], args, k - 1);
    }
  }

  lemma {:induction false} NoRows(ranges: seq<Range>, dim: nat, d: nat)
    requires 1 <= d <= dim < |ranges| && forall k | 0 <= k < |ranges| :: ranges[k].step >= 1
    requires ranges[d].start >= ranges[d].end
    ensures RowsChosen(ranges, dim) == 0
  {
    if d < dim {
      NoRows(ranges, dim - 1, d);
    }
  }

  predicate SameIndices(r: Range, s: Range) {
    r.start == s.start && r.end == s.end && r.step == s.step
  }

  lemma {:induction false} SameRows(r: seq<Range>, s: seq<Range>, dim: nat)
    requires |r| == |s| && dim < |r| && forall k | 0 <= k < |r| :: r[k].step >= 1 && s[k].step >= 1
    requires forall k | 1 <= k < |r| :: SameIndices(r[k], s[k])
    ensures RowsChosen(r, dim) == RowsChosen(s, dim)
  {
    if dim > 0 {
      SameRows(r, s, dim - 1);
    }
  }

  /** The messages of parameter `i` for a list of scalars. */
  function Messages(sp: S.Stub, plain: seq<D.Arg>, i: nat): Option<nat>
    requires S.StubFits(sp) && i < |sp.params|
  {
    if ShapeReady(sp, plain, i) then Some(ShapeAt(sp, plain, i).RowCount()) else None
  }

  predicate OuterSent(p: S.Param, ps: seq<S.Param>) {
    forall d | 1 <= d < |p.dims| :: !Unsent(EndOf(p.dims[d]), ps)
  }

  lemma IndicesStay(d: S.Dim, ps: seq<S.Param>, mine: seq<D.Arg>, other: seq<D.Arg>)
    requires DimSized(d) && Direct(d) && d.start.t == D.VALUE_NONE && d.step.t == D.VALUE_NONE
    requires Agree(ps, other, mine) && AllAlike(other, mine) && RangeOf(d, mine).Some? && RangeOf(d, other).Some?
    requires !Unsent(EndOf(d), ps)
    ensures SameIndices(RangeOf(d, other).value, RangeOf(d, mine).value)
  {
    ValueStays(EndOf(d), ps, mine, other, 0);
  }

  lemma MessagesStay(sp: S.Stub, args: seq<Arg>, stale: seq<Arg>, i: nat)
    requires S.StubFits(sp) && i < |sp.params| == |args| && sp.shrink == 0 && SizesOnly(sp.params[i].dims)
    requires OuterSent(sp.params[i], sp.params) && AlikeArgs(stale, args)
    requires var seen := PlainArgs(Taken(sp.params, args, stale));
             ShapeReady(sp, PlainArgs(args), i) && ShapeReady(sp, seen, i)
    ensures Messages(sp, PlainArgs(Taken(sp.params, args, stale)), i) == Messages(sp, PlainArgs(args), i)
  {
    var dims, plain, seen := sp.params[i].dims, PlainArgs(args), PlainArgs(Taken(sp.params, args, stale));
    TakenIsAlike(sp.params, args, stale);
    var r, s := RangesOf(dims, seen).value, RangesOf(dims, plain).value;
    forall k | 1 <= k < |dims| ensures SameIndices(r[k], s[k]) {
      RangeAt(dims, seen, k);
      RangeAt(dims, plain, k);
      IndicesStay(dims[k], sp.params, plain, seen);
    }
    RowsAreChosen(r, |r| - 1);
    RowsAreChosen(s, |s| - 1);
    SameRows(r, s, |r| - 1);
  }

  lemma RangesVanish(dims: seq<S.Dim>, plain: seq<D.Arg>, j: nat, d: nat)
    requires SizesOnly(dims) && j < |plain| && !plain[j].OtherArg? && 1 <= d < |dims| && Takes(EndOf(dims[d]), j)
    requires RangesOf(dims, plain).Some? && Shape(false, RangesOf(dims, plain).value).Proper()
    ensures var r := RangesOf(dims, plain[j := Zero(plain[j])]);
            r.Some? && Shape(false, r.value).Proper() && Shape(false, r.value).RowCount() == 0
  {
    var seen := plain[j := Zero(plain[j])];
    SizesVanish(dims, plain, j, d);
    var r, s := RangesOf(dims, seen).value, RangesOf(dims, plain).value;
    forall k | 0 <= k < |dims| ensures Vanishes(r[k], s[k], Takes(EndOf(dims[k]), j)) {
      SizesVanish(dims, plain, j, k);
    }
    RowsAreChosen(r, |r| - 1);
    NoRows(r, |r| - 1, d);
  }

  lemma MessagesVanish(sp: S.Stub, args: seq<Arg>, i: nat) returns (stale: seq<Arg>)
    requires S.StubFits(sp) && i < |sp.params| && sp.shrink == 0 && SizesOnly(sp.params[i].dims)
    requires Pointers(sp.params, args) && ShapeReady(sp, PlainArgs(args), i) && !OuterSent(sp.params[i], sp.params)
    ensures AlikeArgs(stale, args) && Messages(sp, PlainArgs(Taken(sp.params, args, stale)), i) == Some(0)
  {
    var dims, plain := sp.params[i].dims, PlainArgs(args);
    var d :| 1 <= d < |dims| && Unsent(EndOf(dims[d]), sp.params);
    var j := EndOf(dims[d]).v;
    RangeAt(dims, plain, d);
    var zero := Zero(plain[j]);
    stale := args[j := Scalar(zero)];
    TakenIsStale(sp.params, args, j, zero);
    RangesVanish(dims, plain, j, d);
  }

  /** Main result for the tags of a declared array: the stub counts as many messages as the client
      that sends some, whatever it holds, if and only if every size but the innermost is sent. */
  lemma MessagesAreExact(sp: S.Stub, args: seq<Arg>, i: nat)
    requires S.StubFits(sp) && i < |sp.params| && sp.shrink == 0 && SizesOnly(sp.params[i].dims)
    requires Pointers(sp.params, args) && ShapeReady(sp, PlainArgs(args), i)
    requires ShapeAt(sp, PlainArgs(args), i).RowCount() > 0
    ensures (forall stale | AlikeArgs(stale, args) ::
               Messages(sp, PlainArgs(Taken(sp.params, args, stale)), i) in {None, Messages(sp, PlainArgs(args), i)})
            <==> OuterSent(sp.params[i], sp.params)
  {
    if OuterSent(sp.params[i], sp.params) {
      forall stale | AlikeArgs(stale, args) && Messages(sp, PlainArgs(Taken(sp.params, args, stale)), i).Some?
        ensures Messages(sp, PlainArgs(Taken(sp.params, args, stale)), i) == Messages(sp, PlainArgs(args), i)
      {
        MessagesStay(sp, args, stale, i);
      }
    } else {
      var stale := MessagesVanish(sp, args, i);
      assert AlikeArgs(stale, args);
    }
  }

  // ----- Where the tags part -----

  /** The loop over the scalars stops at the first one that is not IN, one declared without a mode
      here, so a later IN scalar is not sent.  If a size uses it, the stub computes another shape
      from what it happens to hold: the client sends one row and the stub waits for two. */
  lemma UnsentScalarParts(sp: S.Stub, none: S.Value, two: S.Value, byArg: S.Value, args: seq<Arg>, stale: seq<Arg>)
    requires var codes := seq(20, i => 0); none == S.Value(0, 0, codes, codes)
    requires two == none.(t := 1, v := 2) && byArg == none.(t := 2, v := 1)
    requires sp == S.Stub(3, 1, 0, [], [], 0, 0, 0,
                          [S.Param(4, 0, []), S.Param(4, 1, []),
                           S.Param(4, 1, [S.Dim(two, none, none, none), S.Dim(byArg, none, none, none)])])
    requires Pointers(sp.params, args) && args[1] == Scalar(D.IntArg(1))
    requires Pointers(sp.params, stale) && stale[1] == Scalar(D.IntArg(2))
    ensures S.StubFits(sp) && !StubShares(sp, args, stale)
    ensures Messages(sp, PlainArgs(args), 2) == Some(1)
    ensures Messages(sp, PlainArgs(Taken(sp.params, args, stale)), 2) == Some(2)
  {
    assert !IsSent(sp.params, 1) by {
      assert |sp.params[0].dims| == 0 && !IsIn(sp.params[0]);
    }
    S.AllDimsFit(sp.params[2].dims);
    S.AllParamsFit(sp.params);
    RangesHere(sp.params[2].dims, PlainArgs(args), 1);
    RangesHere(sp.params[2].dims, PlainArgs(Taken(sp.params, args, stale)), 2);
    TwoRows(1);
    TwoRows(2);
    assert Transferred(sp.params[2]);
  }

  lemma {:induction false} TwoRows(n: int)
    requires 1 <= n <= 2
    ensures Shape(false, [Range(2, 0, 2, 1), Range(n, 0, n, 1)]).Proper()
    ensures Shape(false, [Range(2, 0, 2, 1), Range(n, 0, n, 1)]).RowCount() == n
  {
    var ranges := [Range(2, 0, 2, 1), Range(n, 0, n, 1)];
    RowsAreChosen(ranges, 1);
    CountIsChosen(ranges[1]);
    assert RowsChosen(ranges, 0) == 1;
  }

  /** A size that uses such a scalar beside an end that does not: both sides send and await the same
      messages, but the stub receives two elements into the one that it has allocated. */
  lemma UnsentSizeOverruns(sp: S.Stub, none: S.Value, two: S.Value, byArg: S.Value, args: seq<Arg>, stale: seq<Arg>)
    requires var codes := seq(20, i => 0); none == S.Value(0, 0, codes, codes)
    requires two == none.(t := 1, v := 2) && byArg == none.(t := 2, v := 1)
    requires sp == S.Stub(3, 1, 0, [], [], 0, 0, 0,
                          [S.Param(4, 0, []), S.Param(4, 1, []), S.Param(4, 1, [S.Dim(byArg, none, two, none)])])
    requires Pointers(sp.params, args) && args[1] == Scalar(D.IntArg(2))
    requires Pointers(sp.params, stale) && stale[1] == Scalar(D.IntArg(1))
    ensures S.StubFits(sp) && !StubShares(sp, args, stale)
    ensures var mine, seen := PlainArgs(args), PlainArgs(Taken(sp.params, args, stale));
            && ShapeReady(sp, mine, 2) && ShapeReady(sp, seen, 2)
            && Messages(sp, mine, 2) == Messages(sp, seen, 2) == Some(1)
            && ShapeAt(sp, mine, 2).RowLen() == ShapeAt(sp, seen, 2).RowLen() == 2
            && Layout(ShapeAt(sp, mine, 2).ranges, false, 4).totalCount == 2
            && Layout(ShapeAt(sp, seen, 2).ranges, false, 4).totalCount == 1
  {
    assert !IsSent(sp.params, 1) by {
      assert |sp.params[0].dims| == 0 && !IsIn(sp.params[0]);
    }
    S.AllDimsFit(sp.params[2].dims);
    S.AllParamsFit(sp.params);
    OneRange(sp.params[2].dims, PlainArgs(args), 2);
    OneRange(sp.params[2].dims, PlainArgs(Taken(sp.params, args, stale)), 1);
    assert Transferred(sp.params[2]);
  }

  lemma OneRange(dims: seq<S.Dim>, args: seq<D.Arg>, n: int)
    requires |dims| == 1 && DimSized(dims[0]) && |args| == 3 && args[1] == D.IntArg(n) && n != 0
    requires dims[0].size.t == 2 && dims[0].size.v == 1 && dims[0].start.t == 0
    requires dims[0].end.t == 1 && dims[0].end.v == 2 && dims[0].step.t == 0
    ensures RangesOf(dims, args) == Some([Range(n, 0, 2, 1)])
    ensures var sh := Shape(false, [Range(n, 0, 2, 1)]);
            sh.Proper() && sh.RowCount() == 1 && sh.RowLen() == 2 && Layout(sh.ranges, false, 4).totalCount == n
  {
    assert RangesOf(dims[1..], args) == Some([]);
    var r := Range(n, 0, 2, 1);
    assert [r] + [] == [r];
    var ds := DimsOf([r]);
    assert A.Total(ds, false, 1) == A.Total(ds, false, 0) * n;
  }
}
